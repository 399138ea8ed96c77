/**
 * Packed, padding-free byte images of records made of 32-bit words, and the
 * byte-addressed memory the firmware reads them from. Every word is stored
 * least significant byte first, the byte order of the Arm target.
 */
module ByteLayout {

  newtype u8 = x: int | 0 <= x < 0x100
  newtype u32 = x: int | 0 <= x < 0x1_0000_0000

  /**
   * The memory the descriptors live in: every address holds a byte. Addresses
   * are unbounded naturals, so `base + offset` never wraps.
   */
  type Memory = nat -> u8

  /** The four bytes of a word, least significant first. */
  function LeBytes(w: u32): (bs: seq<u8>)
    ensures |bs| == 4
  {
    [(w % 0x100) as u8, (w / 0x100 % 0x100) as u8, (w / 0x1_0000 % 0x100) as u8, (w / 0x100_0000) as u8]
  }

  /** The word whose little-endian image is `bs`. */
  function LeWord(bs: seq<u8>): (w: u32)
    requires |bs| == 4
  {
    (bs[0] as int + 0x100 * bs[1] as int + 0x1_0000 * bs[2] as int + 0x100_0000 * bs[3] as int) as u32
  }

  /** LeWord and LeBytes are inverse bijections between words and 4-byte strings. */
  lemma LeWordOfLeBytes(w: u32)
    ensures LeWord(LeBytes(w)) == w
  {
    var x := w as int;
    var q1, q2, q3 := x / 0x100, x / 0x1_0000, x / 0x100_0000;
    assert q2 == q1 / 0x100 && q3 == q2 / 0x100;
    assert x == q1 * 0x100 + x % 0x100;
    assert q1 == q2 * 0x100 + q1 % 0x100;
    assert q2 == q3 * 0x100 + q2 % 0x100;
  }

  /** Splitting off the low byte: q * 256 + r has remainder r and quotient q. */
  lemma DivMod256(q: int, r: int)
    requires 0 <= r < 0x100
    ensures (q * 0x100 + r) % 0x100 == r && (q * 0x100 + r) / 0x100 == q
  {
  }

  lemma LeBytesOfLeWord(bs: seq<u8>)
    requires |bs| == 4
    ensures LeBytes(LeWord(bs)) == bs
  {
    var b0, b1, b2, b3 := bs[0] as int, bs[1] as int, bs[2] as int, bs[3] as int;
    var w := LeWord(bs) as int;
    assert w == ((b3 * 0x100 + b2) * 0x100 + b1) * 0x100 + b0;
    DivMod256((b3 * 0x100 + b2) * 0x100 + b1, b0);
    DivMod256(b3 * 0x100 + b2, b1);
    DivMod256(b3, b2);
    assert w / 0x1_0000 == (w / 0x100) / 0x100;
    assert w / 0x100_0000 == (w / 0x1_0000) / 0x100;
  }

  /** The packed image of a sequence of words, in order. */
  function Encode(ws: seq<u32>): (bs: seq<u8>)
    ensures |bs| == 4 * |ws|
  {
    if ws == [] then [] else LeBytes(ws[0]) + Encode(ws[1..])
  }

  /** Reads a packed image back as words, four bytes to a word. */
  function Decode(bs: seq<u8>): (ws: seq<u32>)
    requires |bs| % 4 == 0
    ensures |ws| == |bs| / 4
    decreases |bs|
  {
    if bs == [] then [] else [LeWord(bs[..4])] + Decode(bs[4..])
  }

  /** Decoding an image gives back the words it was made from. */
  lemma {:induction false} DecodeEncode(ws: seq<u32>)
    ensures Decode(Encode(ws)) == ws
  {
    if ws != [] {
      var bs := Encode(ws);
      assert bs[..4] == LeBytes(ws[0]);
      assert bs[4..] == Encode(ws[1..]);
      LeWordOfLeBytes(ws[0]);
      DecodeEncode(ws[1..]);
    }
  }

  /** Encoding the words read from an image gives the image back. */
  lemma {:induction false} EncodeDecode(bs: seq<u8>)
    requires |bs| % 4 == 0
    ensures Encode(Decode(bs)) == bs
    decreases |bs|
  {
    if bs != [] {
      var ws := Decode(bs);
      assert ws[1..] == Decode(bs[4..]);
      LeBytesOfLeWord(bs[..4]);
      EncodeDecode(bs[4..]);
      assert bs == bs[..4] + bs[4..];
    }
  }

  /** The image of a concatenation is the concatenation of the images. */
  lemma {:induction false} EncodeAppend(a: seq<u32>, b: seq<u32>)
    ensures Encode(a + b) == Encode(a) + Encode(b)
  {
    if a == [] {
      assert a + b == b;
    } else {
      assert (a + b)[1..] == a[1..] + b;
      EncodeAppend(a[1..], b);
    }
  }

  /** Word k of a record occupies bytes 4k to 4k+4 of its image. */
  lemma {:induction false} EncodeAt(ws: seq<u32>, k: nat)
    requires k < |ws|
    ensures Encode(ws)[4 * k..4 * k + 4] == LeBytes(ws[k])
  {
    if k > 0 {
      EncodeAt(ws[1..], k - 1);
      assert Encode(ws)[4 * k..4 * k + 4] == Encode(ws[1..])[4 * (k - 1)..4 * (k - 1) + 4];
    }
  }

  /** The n bytes of memory starting at `at`. */
  function Read(mem: Memory, at: nat, n: nat): (bs: seq<u8>)
    ensures |bs| == n
    ensures forall i :: 0 <= i < n ==> bs[i] == mem(at + i)
  {
    seq(n, i requires 0 <= i < n => mem(at + i))
  }

  /** Memory after storing `bs` from address `at` on; every other address keeps its byte. */
  function Write(mem: Memory, at: nat, bs: seq<u8>): (m: Memory)
    ensures Read(m, at, |bs|) == bs
    ensures forall a: nat :: a < at || at + |bs| <= a ==> m(a) == mem(a)
  {
    (a: nat) => if at <= a < at + |bs| then bs[a - at] else mem(a)
  }

  /** A read that does not overlap a write sees the old bytes. */
  lemma ReadPastWrite(mem: Memory, at: nat, bs: seq<u8>, from: nat, n: nat)
    requires from + n <= at || at + |bs| <= from
    ensures Read(Write(mem, at, bs), from, n) == Read(mem, from, n)
  {
    var m := Write(mem, at, bs);
    forall i | 0 <= i < n
      ensures Read(m, from, n)[i] == Read(mem, from, n)[i]
    {
      assert m(from + i) == mem(from + i);
    }
  }

  /**
   * Bitwise OR of two words. The ensures carries the u32/bv32 round trip of
   * the result to callers, which reason about flag bits on the bv32 side.
   */
  function BitOr(a: u32, b: u32): (r: u32)
    ensures r as bv32 == (a as bv32) | (b as bv32)
  {
    var r := (a as bv32) | (b as bv32);
    BvRoundTrip(r);
    r as u32
  }

  lemma BvRoundTrip(r: bv32)
    ensures (r as u32) as bv32 == r
  {
  }
}
