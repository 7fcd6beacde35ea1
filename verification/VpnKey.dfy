/** The vpn:// connection key: a twelve-byte header and a compressed block, as unpadded base64url. */
module VpnKey {
  import opened Text
  import opened Base64

  const MAGIC: nat := 0x07C00100
  const WORD: nat := 0x1_0000_0000
  const PREFIX := "vpn://"

  // A big-endian 32-bit word.
  function Word(n: nat): (b: seq<Byte>)
    requires n < WORD
    ensures |b| == 4
  {
    [Digit(n / 0x100_0000), Digit(n / 0x1_0000), Digit(n / 0x100), Digit(n)]
  }

  function Digit(n: nat): Byte {
    var d: int := n % 256;
    d
  }

  function ReadWord(b: seq<Byte>): nat
    requires |b| == 4
  {
    var w: int := b[0] as int * 0x100_0000 + b[1] as int * 0x1_0000 + b[2] as int * 0x100 + b[3] as int;
    w
  }

  lemma {:induction false} WordReadsBack(n: nat)
    requires n < WORD
    ensures ReadWord(Word(n)) == n
  {
  }

  // None is the packing error of a length outside 32 bits.
  function Pack(plainLength: nat, block: seq<Byte>): Option<seq<Byte>> {
    if plainLength < WORD && |block| + 4 < WORD
    then Some(Word(MAGIC) + Word(|block| + 4) + Word(plainLength) + block) else None
  }

  // The key of a plain text of the given length that compresses to block.
  function EncodeKey(plainLength: nat, block: seq<Byte>): Option<string> {
    match Pack(plainLength, block)
    case None => None
    case Some(packed) => Some(PREFIX + DropPads(Encode(packed, UrlSafe)))
  }

  datatype Unpacked = Unpacked(magic: nat, totalLength: nat, plainLength: nat, block: seq<Byte>)

  function DecodeKey(key: string): Option<Unpacked> {
    if !StartsWith(key, PREFIX) then None
    else
      match Decode(key[|PREFIX|..], UrlSafe)
      case None => None
      case Some(b) =>
        if |b| < 12 then None
        else Some(Unpacked(ReadWord(b[0..4]), ReadWord(b[4..8]), ReadWord(b[8..12]), b[12..]))
  }

  /** Decoding a key recovers the magic number, both lengths and the exact compressed block, and packing fails only
      when a length does not fit its header word. */
  lemma {:induction false} KeyReadsBack(plainLength: nat, block: seq<Byte>)
    ensures EncodeKey(plainLength, block).Some? <==> plainLength < WORD && |block| + 4 < WORD
    ensures EncodeKey(plainLength, block).Some? ==>
              DecodeKey(EncodeKey(plainLength, block).value) == Some(Unpacked(MAGIC, |block| + 4, plainLength, block))
  {
    hide Decode, Encode, DropPads, Unpadded, Word, ReadWord;
    if plainLength < WORD && |block| + 4 < WORD {
      var packed := Word(MAGIC) + Word(|block| + 4) + Word(plainLength) + block;
      DropPadsOfEncode(packed, UrlSafe);
      UnpaddedReadsBack(packed, UrlSafe);
      assert (PREFIX + Unpadded(packed, UrlSafe))[|PREFIX|..] == Unpadded(packed, UrlSafe);
      assert packed[0..4] == Word(MAGIC) && packed[4..8] == Word(|block| + 4) && packed[8..12] == Word(plainLength);
      assert packed[12..] == block;
      WordReadsBack(MAGIC);
      WordReadsBack(|block| + 4);
      WordReadsBack(plainLength);
    }
  }
}
