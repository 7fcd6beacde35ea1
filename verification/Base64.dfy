/** base64 over bytes: the standard alphabet of section 4 and the URL-safe one of section 5 of RFC 4648. */
module Base64 {
  import opened Text

  type Byte = n: nat | n < 256
  type Sextet = n: nat | n < 64

  datatype Alphabet = Standard | UrlSafe

  function CharOf(v: Sextet, a: Alphabet): char {
    if v < 26 then 'A' + v as char
    else if v < 52 then 'a' + (v - 26) as char
    else if v < 62 then '0' + (v - 52) as char
    else if v == 62 then (if a.Standard? then '+' else '-')
    else if a.Standard? then '/' else '_'
  }

  function ValueOf(c: char, a: Alphabet): Option<Sextet> {
    if 'A' <= c <= 'Z' then Some(c as int - 'A' as int)
    else if 'a' <= c <= 'z' then Some(c as int - 'a' as int + 26)
    else if '0' <= c <= '9' then Some(c as int - '0' as int + 52)
    else if c == CharOf(62, a) then Some(62)
    else if c == CharOf(63, a) then Some(63)
    else None
  }

  lemma {:induction false} CharReadsBack(v: Sextet, a: Alphabet)
    ensures ValueOf(CharOf(v, a), a) == Some(v) && CharOf(v, a) != '='
  {
  }

  // ---- bytes and sextets ----

  // The four sextets of three bytes.
  function First(a: Byte): Sextet {
    a as int / 4
  }

  function Second(a: Byte, b: Byte): Sextet {
    var v: int := a as int % 4 * 16 + b as int / 16;
    v
  }

  function Third(b: Byte, c: Byte): Sextet {
    var v: int := b as int % 16 * 4 + c as int / 64;
    v
  }

  function Fourth(c: Byte): Sextet {
    c as int % 64
  }

  // One or two left-over bytes make two or three sextets, padded with zero bits.
  function Sextets(bytes: seq<Byte>): seq<Sextet> {
    if |bytes| == 0 then []
    else if |bytes| == 1 then [First(bytes[0]), Second(bytes[0], 0)]
    else if |bytes| == 2 then [First(bytes[0]), Second(bytes[0], bytes[1]), Third(bytes[1], 0)]
    else
      [First(bytes[0]), Second(bytes[0], bytes[1]), Third(bytes[1], bytes[2]), Fourth(bytes[2])] + Sextets(bytes[3..])
  }

  // The three bytes of four sextets.
  function High(x: Sextet, y: Sextet): Byte {
    var v: int := x as int * 4 + y as int / 16;
    v
  }

  function Middle(y: Sextet, z: Sextet): Byte {
    var v: int := y as int % 16 * 16 + z as int / 4;
    v
  }

  function Low(z: Sextet, w: Sextet): Byte {
    var v: int := z as int % 4 * 64 + w as int;
    v
  }

  // Left-over bits of a last group are ignored; a single left-over sextet is an error.
  function Bytes(sx: seq<Sextet>): Option<seq<Byte>> {
    if |sx| == 0 then Some([])
    else if |sx| == 1 then None
    else if |sx| == 2 then Some([High(sx[0], sx[1])])
    else if |sx| == 3 then Some([High(sx[0], sx[1]), Middle(sx[1], sx[2])])
    else
      match Bytes(sx[4..])
      case None => None
      case Some(rest) => Some([High(sx[0], sx[1]), Middle(sx[1], sx[2]), Low(sx[2], sx[3])] + rest)
  }

  lemma {:induction false} GroupReadsBack(a: Byte, b: Byte, c: Byte)
    ensures High(First(a), Second(a, b)) == a && Middle(Second(a, b), Third(b, c)) == b
    ensures Low(Third(b, c), Fourth(c)) == c
  {
  }

  lemma {:induction false} SextetsReadBack(bytes: seq<Byte>)
    ensures Bytes(Sextets(bytes)) == Some(bytes)
  {
    hide First, Second, Third, Fourth, High, Middle, Low;
    if |bytes| == 0 {
      assert bytes == [];
    } else if |bytes| == 1 {
      GroupReadsBack(bytes[0], 0, 0);
      assert bytes == [bytes[0]];
    } else if |bytes| == 2 {
      GroupReadsBack(bytes[0], bytes[1], 0);
      assert bytes == [bytes[0], bytes[1]];
    } else if |bytes| >= 3 {
      GroupReadsBack(bytes[0], bytes[1], bytes[2]);
      SextetsReadBack(bytes[3..]);
      assert Sextets(bytes)[4..] == Sextets(bytes[3..]);
      assert bytes == [bytes[0], bytes[1], bytes[2]] + bytes[3..];
    }
  }

  lemma {:induction false} SextetsLength(bytes: seq<Byte>)
    ensures 3 * |Sextets(bytes)| == 4 * |bytes| + (if |bytes| % 3 == 2 then 1 else 2 * (|bytes| % 3))
  {
    hide First, Second, Third, Fourth;
    if |bytes| >= 3 {
      SextetsLength(bytes[3..]);
    }
  }

  // How many bytes n sextets make.
  lemma {:induction false} BytesLength(sx: seq<Sextet>)
    ensures |sx| % 4 == 1 <==> Bytes(sx).None?
    ensures Bytes(sx).Some? ==> 4 * |Bytes(sx).value| + (if |sx| % 4 == 3 then 1 else |sx| % 4) == 3 * |sx|
  {
    hide High, Middle, Low;
    if |sx| >= 4 {
      BytesLength(sx[4..]);
    }
  }

  // ---- text ----

  function Chars(sx: seq<Sextet>, a: Alphabet): (s: string)
    ensures |s| == |sx|
    ensures forall i :: 0 <= i < |s| ==> s[i] == CharOf(sx[i], a)
  {
    seq(|sx|, i requires 0 <= i < |sx| => CharOf(sx[i], a))
  }

  predicate AllValues(s: string, a: Alphabet) {
    forall i :: 0 <= i < |s| ==> ValueOf(s[i], a).Some?
  }

  function Values(s: string, a: Alphabet): (sx: seq<Sextet>)
    requires AllValues(s, a)
    ensures |sx| == |s|
  {
    seq(|s|, i requires 0 <= i < |s| => ValueOf(s[i], a).value)
  }

  // Unpadded decoding; None when a character is outside the alphabet or a lone sextet is left over.
  function Decode(s: string, a: Alphabet): Option<seq<Byte>> {
    if AllValues(s, a) then Bytes(Values(s, a)) else None
  }

  function Unpadded(bytes: seq<Byte>, a: Alphabet): string {
    Chars(Sextets(bytes), a)
  }

  function Pads(n: nat): string {
    if n == 0 then "" else "=" + Pads(n - 1)
  }

  // Padded to a multiple of four characters.
  function Encode(bytes: seq<Byte>, a: Alphabet): string {
    Unpadded(bytes, a) + Pads((4 - |Unpadded(bytes, a)| % 4) % 4)
  }

  lemma {:induction false} UnpaddedReadsBack(bytes: seq<Byte>, a: Alphabet)
    ensures Decode(Unpadded(bytes, a), a) == Some(bytes)
    ensures AllValues(Unpadded(bytes, a), a) && '=' !in Unpadded(bytes, a)
  {
    hide Sextets, Bytes, CharOf, ValueOf;
    var sx := Sextets(bytes);
    var s := Chars(sx, a);
    forall i | 0 <= i < |s| ensures ValueOf(s[i], a) == Some(sx[i]) && s[i] != '=' {
      CharReadsBack(sx[i], a);
    }
    assert Values(s, a) == sx;
    SextetsReadBack(bytes);
  }

  // rstrip("=")
  function DropPads(s: string): string {
    if s != "" && s[|s| - 1] == '=' then DropPads(s[..|s| - 1]) else s
  }

  lemma {:induction false} PadsLength(n: nat)
    ensures |Pads(n)| == n && forall i :: 0 <= i < n ==> Pads(n)[i] == '='
  {
    if n > 0 {
      PadsLength(n - 1);
    }
  }

  lemma {:induction false} DropPadsOf(s: string, pad: string)
    requires '=' !in s && forall i :: 0 <= i < |pad| ==> pad[i] == '='
    ensures DropPads(s + pad) == s
  {
    if pad == "" {
      assert s + pad == s;
    } else {
      assert (s + pad)[..|s + pad| - 1] == s + pad[..|pad| - 1];
      DropPadsOf(s, pad[..|pad| - 1]);
    }
  }

  lemma {:induction false} DropPadsOfEncode(bytes: seq<Byte>, a: Alphabet)
    ensures DropPads(Encode(bytes, a)) == Unpadded(bytes, a)
  {
    hide Unpadded, Pads;
    var n := (4 - |Unpadded(bytes, a)| % 4) % 4;
    PadsLength(n);
    UnpaddedReadsBack(bytes, a);
    DropPadsOf(Unpadded(bytes, a), Pads(n));
  }
}
