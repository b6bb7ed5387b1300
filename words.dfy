/**
 * Bytes and 4-byte words as they appear in the model file.
 * Every `int` and `float` the program writes is a 4-byte word in native byte
 * order; the model fixes that order to little-endian. A float is kept as its
 * raw 32-bit pattern, so the file format never interprets it.
 */
module Words {

  newtype byte = x: int | 0 <= x < 0x100
  newtype Bits32 = x: int | 0 <= x < 0x1_0000_0000
  newtype int32 = x: int | -0x8000_0000 <= x < 0x8000_0000

  /**
   * The four bytes of a word, least significant first: they are the word's
   * base-256 digits, so their weighted sum is the word.
   */
  function EncodeWord(w: Bits32): (bs: seq<byte>)
    ensures |bs| == 4
    ensures bs[0] as int + 0x100 * bs[1] as int + 0x1_0000 * bs[2] as int + 0x100_0000 * bs[3] as int == w as int
  {
    var v := w as int;
    assert v / 0x100 == v / 0x100 % 0x100 + 0x100 * (v / 0x1_0000);
    assert v / 0x1_0000 == v / 0x1_0000 % 0x100 + 0x100 * (v / 0x100_0000);
    [(v % 0x100) as byte, (v / 0x100 % 0x100) as byte,
     (v / 0x1_0000 % 0x100) as byte, (v / 0x100_0000) as byte]
  }

  /** The word stored as the bytes `bs`: the first byte holds its lowest 8 bits. */
  function DecodeWord(bs: seq<byte>): (w: Bits32)
    requires |bs| == 4
    ensures w as int % 0x100 == bs[0] as int
  {
    (bs[0] as int + 0x100 * bs[1] as int + 0x1_0000 * bs[2] as int + 0x100_0000 * bs[3] as int) as Bits32
  }

  /** A word survives being written and read back: EncodeWord's bytes weigh up to the word. */
  lemma DecodeEncodeWord(w: Bits32)
    ensures DecodeWord(EncodeWord(w)) == w
  {
  }

  lemma EncodeDecodeWord(bs: seq<byte>)
    requires |bs| == 4
    ensures EncodeWord(DecodeWord(bs)) == bs
  {
    var v := DecodeWord(bs) as int;
    var r := EncodeWord(DecodeWord(bs));
    assert v / 0x100 == bs[1] as int + 0x100 * bs[2] as int + 0x1_0000 * bs[3] as int;
    assert v / 0x1_0000 == bs[2] as int + 0x100 * bs[3] as int;
    assert r[0] == bs[0] && r[1] == bs[1] && r[2] == bs[2] && r[3] == bs[3];
  }

  /** Two's complement: the bit pattern C stores for a 32-bit `int`. */
  function Int32ToBits(v: int32): (b: Bits32)
    ensures b as int % 0x1_0000_0000 == v as int % 0x1_0000_0000
  {
    if v >= 0 then v as int as Bits32 else (v as int + 0x1_0000_0000) as Bits32
  }

  function BitsToInt32(b: Bits32): (v: int32)
    ensures v as int % 0x1_0000_0000 == b as int
  {
    if b < 0x8000_0000 then b as int as int32 else (b as int - 0x1_0000_0000) as int32
  }

  lemma Int32RoundTrip(v: int32, b: Bits32)
    ensures BitsToInt32(Int32ToBits(v)) == v
    ensures Int32ToBits(BitsToInt32(b)) == b
  {
  }

  /** Words laid end to end, as `fwrite` of a word array produces them. */
  function EncodeWords(ws: seq<Bits32>): (bs: seq<byte>)
    ensures |bs| == 4 * |ws|
  {
    if ws == [] then [] else EncodeWord(ws[0]) + EncodeWords(ws[1..])
  }

  function DecodeWords(bs: seq<byte>): (ws: seq<Bits32>)
    requires |bs| % 4 == 0
    ensures 4 * |ws| == |bs|
  {
    if bs == [] then [] else [DecodeWord(bs[..4])] + DecodeWords(bs[4..])
  }

  lemma {:induction false} EncodeWordsAppend(ws: seq<Bits32>, vs: seq<Bits32>)
    ensures EncodeWords(ws + vs) == EncodeWords(ws) + EncodeWords(vs)
  {
    if ws == [] {
      assert ws + vs == vs;
    } else {
      assert (ws + vs)[1..] == ws[1..] + vs;
      EncodeWordsAppend(ws[1..], vs);
    }
  }

  /** Word `k` of an encoded sequence sits at bytes `4k .. 4k+4`. */
  lemma {:induction false} EncodeWordsAt(ws: seq<Bits32>, k: nat)
    requires k < |ws|
    ensures EncodeWords(ws)[4 * k .. 4 * k + 4] == EncodeWord(ws[k])
  {
    if k > 0 {
      EncodeWordsAt(ws[1..], k - 1);
      assert EncodeWords(ws)[4 * k .. 4 * k + 4] == EncodeWords(ws[1..])[4 * (k - 1) .. 4 * (k - 1) + 4];
    }
  }

  lemma {:induction false} DecodeEncodeWords(ws: seq<Bits32>)
    ensures DecodeWords(EncodeWords(ws)) == ws
  {
    if ws != [] {
      var bs := EncodeWords(ws);
      assert bs[..4] == EncodeWord(ws[0]);
      assert bs[4..] == EncodeWords(ws[1..]);
      DecodeEncodeWord(ws[0]);
      DecodeEncodeWords(ws[1..]);
    }
  }

  lemma {:induction false} EncodeDecodeWords(bs: seq<byte>)
    requires |bs| % 4 == 0
    ensures EncodeWords(DecodeWords(bs)) == bs
  {
    if bs != [] {
      var ws := DecodeWords(bs);
      assert ws[0] == DecodeWord(bs[..4]) && ws[1..] == DecodeWords(bs[4..]);
      EncodeDecodeWord(bs[..4]);
      EncodeDecodeWords(bs[4..]);
      assert bs == bs[..4] + bs[4..];
    }
  }

  /** Decoding reads word `k` from bytes `4k .. 4k+4`. */
  lemma {:induction false} DecodeWordsAt(bs: seq<byte>, k: nat)
    requires |bs| % 4 == 0 && 4 * k < |bs|
    ensures DecodeWords(bs)[k] == DecodeWord(bs[4 * k .. 4 * k + 4])
  {
    if k > 0 {
      DecodeWordsAt(bs[4..], k - 1);
      assert bs[4..][4 * (k - 1) .. 4 * (k - 1) + 4] == bs[4 * k .. 4 * k + 4];
    }
  }
}
