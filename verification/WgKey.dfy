/** Validation of base64 WireGuard keys. */
module WgKey {
  import opened Text
  import opened Base64

  datatype KeyError = Empty | BadLength | BadCharacters | DecodeFailed | WrongBytes

  predicate IsB64(c: char) {
    ValueOf(c, Standard).Some?
  }

  // Length of the longest prefix of alphabet characters.
  function BodyLength(s: string): (n: nat)
    ensures n <= |s|
  {
    if s != "" && IsB64(s[0]) then 1 + BodyLength(s[1..]) else 0
  }

  predicate AllPads(s: string) {
    forall i :: 0 <= i < |s| ==> s[i] == '='
  }

  // One or more alphabet characters, then only '='.
  predicate KeyShaped(s: string) {
    BodyLength(s) > 0 && AllPads(s[BodyLength(s)..])
  }

  // base64.b64decode(t, validate=True): at most two '=', a multiple of four characters, then the bytes.
  function StrictDecode(t: string): Option<seq<Byte>> {
    var n := BodyLength(t);
    if !AllPads(t[n..]) || |t| - n > 2 || |t| % 4 != 0 then None else Decode(t[..n], Standard)
  }

  function Padded(k: string): string {
    k + Pads((4 - |k| % 4) % 4)
  }

  function ValidateKey(raw: string): Result<string, KeyError> {
    var k := Strip(raw);
    if raw == "" then Err(Empty)
    else if !(43 <= |k| <= 44) then Err(BadLength)
    else if !KeyShaped(k) then Err(BadCharacters)
    else
      match StrictDecode(Padded(k))
      case None => Err(DecodeFailed)
      case Some(bytes) => if |bytes| == 32 then Ok(k) else Err(WrongBytes)
  }

  // 43 alphabet characters and at most one '='.
  ghost predicate IsKeyText(k: string) {
    |k| >= 43 && AllValues(k[..43], Standard) && (k == k[..43] || k == k[..43] + "=")
  }

  lemma {:induction false} BodyFacts(s: string)
    ensures var n := BodyLength(s); AllValues(s[..n], Standard) && (n < |s| ==> !IsB64(s[n]))
  {
    hide ValueOf;
    if s != "" && IsB64(s[0]) {
      BodyFacts(s[1..]);
      var n := BodyLength(s);
      forall i | 0 <= i < n ensures ValueOf(s[..n][i], Standard).Some? {
        assert i > 0 ==> s[..n][i] == s[1..][..n - 1][i - 1];
      }
    }
  }

  lemma {:induction false} BodyIs(body: string, pad: string)
    requires AllValues(body, Standard) && AllPads(pad)
    ensures BodyLength(body + pad) == |body|
  {
    hide ValueOf;
    if body == "" {
      assert body + pad == pad;
      PadNotB64();
    } else {
      assert (body + pad)[1..] == body[1..] + pad;
      BodyIs(body[1..], pad);
    }
  }

  lemma {:induction false} PadNotB64()
    ensures !IsB64('=')
  {
  }

  // What strict decoding makes of a body and its padding.
  lemma {:induction false} StrictDecodeOf(body: string, pad: string)
    requires AllValues(body, Standard) && AllPads(pad)
    ensures StrictDecode(body + pad).Some? <==> |pad| <= 2 && |body + pad| % 4 == 0
    ensures StrictDecode(body + pad).Some? ==>
              4 * |StrictDecode(body + pad).value| + (if |body| % 4 == 3 then 1 else |body| % 4) == 3 * |body|
  {
    hide BodyLength, ValueOf;
    BodyIs(body, pad);
    assert (body + pad)[..|body|] == body && (body + pad)[|body|..] == pad;
    BytesLength(Values(body, Standard));
  }

  /** A key is accepted exactly when, once stripped, it is 43 base64 characters with at most one trailing '='. */
  lemma {:induction false} AcceptedExactlyWhen(raw: string)
    ensures ValidateKey(raw).Ok? <==> IsKeyText(Strip(raw))
    ensures ValidateKey(raw).Ok? ==> ValidateKey(raw).value == Strip(raw)
  {
    hide BodyLength, ValueOf, StrictDecode, Strip, Pads;
    var k := Strip(raw);
    if 43 <= |k| <= 44 && KeyShaped(k) {
      var n := BodyLength(k);
      BodyFacts(k);
      var body, pad, more := k[..n], k[n..], Pads((4 - |k| % 4) % 4);
      PadsLength((4 - |k| % 4) % 4);
      assert Padded(k) == body + (pad + more);
      StrictDecodeOf(body, pad + more);
      if n == 43 {
        assert k[..43] == body && (|pad| == 1 ==> pad == "=");
      }
    }
    if IsKeyText(k) {
      var body, pad := k[..43], k[43..];
      assert k == body + pad;
      BodyIs(body, pad);
    }
    StripOfEmpty(raw);
  }

  lemma {:induction false} StripOfEmpty(raw: string)
    ensures raw == "" ==> Strip(raw) == ""
  {
  }

  /** Every key generate_preshared_key can return is accepted as it is. */
  lemma {:induction false} GeneratedKeysAccepted(random: seq<Byte>)
    requires |random| == 32
    ensures ValidateKey(Strip(Encode(random, Standard))) == Ok(Encode(random, Standard))
  {
    hide Sextets, ValueOf, ValidateKey, Strip, CharOf;
    var body := Unpadded(random, Standard);
    UnpaddedReadsBack(random, Standard);
    SextetsLength(random);
    assert |body| == 43;
    assert Pads(1) == "=";
    var key := Encode(random, Standard);
    assert key == body + "=" && key[..43] == body;
    KeyTextTrimmed(key);
    StripOfTrimmed(key);
    AcceptedExactlyWhen(key);
  }

  lemma {:induction false} KeyTextTrimmed(k: string)
    requires IsKeyText(k)
    ensures Trimmed(k)
  {
    var body := k[..43];
    assert ValueOf(body[0], Standard).Some? && ValueOf(body[42], Standard).Some?;
  }
}
