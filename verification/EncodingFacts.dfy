/** The encodings of keys against the published tables and numbers, not against their own decoders. */
module EncodingFacts {
  import opened Text
  import opened Base64
  import VpnKey
  import WgKey

  const UPPER := "ABCDEFGHIJKLMNOPQRSTUVWXYZ"
  const LOWER := "abcdefghijklmnopqrstuvwxyz"
  const DIGITS := "0123456789"

  // Table 1 of RFC 4648; Table 2 differs in its last two characters.
  function Table(a: Alphabet): string {
    UPPER + LOWER + DIGITS + if a.Standard? then "+/" else "-_"
  }

  lemma {:induction false} UpperCase(v: nat)
    ensures v < 26 ==> UPPER[v] == 'A' + v as char
  {
  }

  lemma {:induction false} LowerCase(v: nat)
    ensures v < 26 ==> LOWER[v] == 'a' + v as char
  {
  }

  lemma {:induction false} Digits(v: nat)
    ensures v < 10 ==> DIGITS[v] == '0' + v as char
  {
  }

  /** The two alphabets are those of sections 4 and 5 of RFC 4648. */
  lemma {:induction false} AlphabetExactly(v: Sextet, a: Alphabet)
    ensures |Table(a)| == 64 && CharOf(v, a) == Table(a)[v]
  {
    UpperCase(v);
    LowerCase(if v < 26 then 0 else v - 26);
    Digits(if v < 52 then 0 else v - 52);
  }

  /** The characters of a key are letters, digits, '+' and '/'. */
  lemma {:induction false} KeyCharacters(c: char)
    ensures WgKey.IsB64(c) <==>
              'A' <= c <= 'Z' || 'a' <= c <= 'z' || '0' <= c <= '9' || c == '+' || c == '/'
  {
  }

  /** Three bytes and their four sextets are the same 24-bit number, most significant first. */
  lemma {:induction false} GroupIsNumber(a: Byte, b: Byte, c: Byte)
    ensures (a as int * 256 + b as int) * 256 + c as int ==
            ((First(a) as int * 64 + Second(a, b) as int) * 64 + Third(b, c) as int) * 64 + Fourth(c) as int
  {
    FirstPart(a);
    SecondPart(b);
    ThirdPart(c);
  }

  lemma {:induction false} FirstPart(a: Byte)
    ensures a as int == First(a) as int * 4 + a as int % 4
  {
  }

  lemma {:induction false} SecondPart(b: Byte)
    ensures b as int == b as int / 16 * 16 + b as int % 16
  {
  }

  lemma {:induction false} ThirdPart(c: Byte)
    ensures c as int == c as int / 64 * 64 + c as int % 64 && Fourth(c) as int == c as int % 64
  {
  }

  // ---- connection keys ----

  lemma {:induction false} MagicBytes()
    ensures VpnKey.Word(0x07C0_0100) == [0x07, 0xC0, 0x01, 0x00]
  {
  }

  lemma {:induction false} EncodeStarts(a: Byte, b: Byte, c: Byte, rest: seq<Byte>)
    ensures var s := Encode([a, b, c] + rest, UrlSafe);
            && |s| >= 4 && s[0] == CharOf(First(a), UrlSafe) && s[1] == CharOf(Second(a, b), UrlSafe)
            && s[2] == CharOf(Third(b, c), UrlSafe) && s[3] == CharOf(Fourth(c), UrlSafe)
  {
    hide First, Second, Third, Fourth, CharOf;
    var bytes := [a, b, c] + rest;
    assert bytes[3..] == rest;
    assert Sextets(bytes)[..4] == [First(a), Second(a, b), Third(b, c), Fourth(c)];
  }

  /** Every connection key starts with the scheme and the four characters of the magic number's first three bytes. */
  lemma {:induction false} KeyStarts(plainLength: nat, block: seq<Byte>)
    requires VpnKey.EncodeKey(plainLength, block).Some?
    ensures |VpnKey.EncodeKey(plainLength, block).value| >= 10
    ensures VpnKey.EncodeKey(plainLength, block).value[..10] == "vpn://B8AB"
  {
    hide Encode, VpnKey.Word, DropPads;
    MagicBytes();
    var packed := VpnKey.Pack(plainLength, block).value;
    var rest := [0x00] + VpnKey.Word(|block| + 4) + VpnKey.Word(plainLength) + block;
    assert packed == [0x07, 0xC0, 0x01] + rest;
    EncodeStarts(0x07, 0xC0, 0x01, rest);
    StartChars();
    DropPadsStart(Encode(packed, UrlSafe));
  }

  lemma {:induction false} StartChars()
    ensures CharOf(First(0x07), UrlSafe) == 'B' && CharOf(Second(0x07, 0xC0), UrlSafe) == '8'
    ensures CharOf(Third(0xC0, 0x01), UrlSafe) == 'A' && CharOf(Fourth(0x01), UrlSafe) == 'B'
  {
  }

  lemma {:induction false} DropPadsStart(s: string)
    requires |s| >= 4 && s[0] == 'B' && s[1] == '8' && s[2] == 'A' && s[3] == 'B'
    ensures |DropPads(s)| >= 4 && DropPads(s)[..4] == "B8AB"
    decreases |s|
  {
    if |s| > 4 && s[|s| - 1] == '=' {
      DropPadsStart(s[..|s| - 1]);
    }
  }
}
