/*
 * Byte-level building blocks shared by the message codecs, the data unit
 * and the response accessors: big-endian 16-bit words, word lists flattened
 * to bytes, and coil bits packed least significant bit first (MODBUS
 * Application Protocol Specification V1.1b3, section 6.1).
 */
module Bytes {
  import opened Types

  // ---------------------------------------------------------------------
  // Big-endian words
  // ---------------------------------------------------------------------

  /** The most significant byte of a word (`word >> 8`). */
  function Hi(w: u16): byte
  {
    w / 0x100
  }

  /** The least significant byte of a word (`word & 0x00FF`). */
  function Lo(w: u16): byte
  {
    w % 0x100
  }

  /** The word whose bytes, most significant first, are `hi` and `lo`. */
  function Word(hi: byte, lo: byte): u16
  {
    hi * 0x100 + lo
  }

  lemma HiLoOfWord(hi: byte, lo: byte)
    ensures Hi(Word(hi, lo)) == hi && Lo(Word(hi, lo)) == lo
  {
  }

  lemma WordOfHiLo(w: u16)
    ensures Word(Hi(w), Lo(w)) == w
  {
  }

  /** A 16-bit field on the wire: most significant byte first. */
  function BigEndian(w: u16): seq<byte>
  {
    [Hi(w), Lo(w)]
  }

  // ---------------------------------------------------------------------
  // Word lists
  // ---------------------------------------------------------------------

  /** Each word written as two bytes, most significant byte first. */
  function WordsToBytes(ws: seq<u16>): (bs: seq<byte>)
    ensures |bs| == 2 * |ws|
  {
    seq(2 * |ws|, k requires 0 <= k < 2 * |ws| => if k % 2 == 0 then Hi(ws[k / 2]) else Lo(ws[k / 2]))
  }

  /** Consecutive byte pairs read as big-endian words; a trailing odd byte is ignored. */
  function BytesToWords(bs: seq<byte>): (ws: seq<u16>)
    ensures |ws| == |bs| / 2
  {
    seq(|bs| / 2, i requires 0 <= i < |bs| / 2 => Word(bs[2 * i], bs[2 * i + 1]))
  }

  lemma BytesToWordsOfWordsToBytes(ws: seq<u16>)
    ensures BytesToWords(WordsToBytes(ws)) == ws
  {
    var bs := WordsToBytes(ws);
    var r := BytesToWords(bs);
    forall i | 0 <= i < |ws|
      ensures r[i] == ws[i]
    {
      assert (2 * i) % 2 == 0 && (2 * i) / 2 == i && (2 * i + 1) / 2 == i;
      assert bs[2 * i] == Hi(ws[i]) && bs[2 * i + 1] == Lo(ws[i]);
      WordOfHiLo(ws[i]);
    }
  }

  lemma WordsToBytesOfBytesToWords(bs: seq<byte>)
    requires |bs| % 2 == 0
    ensures WordsToBytes(BytesToWords(bs)) == bs
  {
    var ws := BytesToWords(bs);
    var r := WordsToBytes(ws);
    forall k | 0 <= k < |bs|
      ensures r[k] == bs[k]
    {
      var i := k / 2;
      HiLoOfWord(bs[2 * i], bs[2 * i + 1]);
      assert ws[i] == Word(bs[2 * i], bs[2 * i + 1]);
      if k % 2 == 0 {
        assert k == 2 * i;
      } else {
        assert k == 2 * i + 1;
      }
    }
  }

  /** Cutting a flattened word list after `2 * n` bytes keeps the first `n` words. */
  lemma WordsToBytesPrefix(ws: seq<u16>, n: nat)
    requires n <= |ws|
    ensures WordsToBytes(ws)[..2 * n] == WordsToBytes(ws[..n])
  {
  }

  /** Writing one more word appends its two bytes. */
  lemma WordsToBytesSnoc(ws: seq<u16>, w: u16)
    ensures WordsToBytes(ws + [w]) == WordsToBytes(ws) + BigEndian(w)
  {
    var l := WordsToBytes(ws + [w]);
    var r := WordsToBytes(ws) + BigEndian(w);
    forall k | 0 <= k < |l|
      ensures l[k] == r[k]
    {
      if k >= 2 * |ws| {
        assert k / 2 == |ws|;
      }
    }
  }

  /** Reading two more bytes appends one word. */
  lemma BytesToWordsSnoc(bs: seq<byte>, hi: byte, lo: byte)
    requires |bs| % 2 == 0
    ensures BytesToWords(bs + [hi, lo]) == BytesToWords(bs) + [Word(hi, lo)]
  {
    var l := BytesToWords(bs + [hi, lo]);
    var r := BytesToWords(bs) + [Word(hi, lo)];
    assert |l| == |r|;
    forall i | 0 <= i < |l|
      ensures l[i] == r[i]
    {
    }
  }

  // ---------------------------------------------------------------------
  // Packed bits: bit j lives in byte j / 8 at position j % 8
  // ---------------------------------------------------------------------

  function Pow2(k: nat): (p: nat)
    ensures p >= 1
  {
    if k == 0 then 1 else 2 * Pow2(k - 1)
  }

  /** Binary digit `k` (0 = least significant) of `b`: `(b & (1 << k)) != 0`. */
  predicate BitOf(b: nat, k: nat)
  {
    if k == 0 then b % 2 == 1 else BitOf(b / 2, k - 1)
  }

  /** Whether bit `j` of a packed bit string is set. */
  predicate BitAt(bs: seq<byte>, j: nat)
    requires j < 8 * |bs|
  {
    BitOf(bs[j / 8], j % 8)
  }

  /** `1 << k` has bit `k` set and no other. */
  lemma {:induction false} Pow2Bit(k: nat, m: nat)
    ensures BitOf(Pow2(k), m) <==> m == k
  {
    if k == 0 {
      if m > 0 {
        BitsBelow(1, 1, m);
      }
    } else if m > 0 {
      assert Pow2(k) / 2 == Pow2(k - 1);
      Pow2Bit(k - 1, m - 1);
    }
  }

  /** A number below 2^n has no bit at position n or above. */
  lemma {:induction false} BitsBelow(b: nat, n: nat, k: nat)
    requires b < Pow2(n) && n <= k
    ensures !BitOf(b, k)
  {
    if k == 0 {
    } else if n == 0 {
      BitsBelow(b / 2, 0, k - 1);
    } else {
      BitsBelow(b / 2, n - 1, k - 1);
    }
  }

  /** Adding 2^k to a number whose bit k is clear sets bit k and leaves
      every other bit as it was: the `b |= 1 << k` of the C++ code. */
  lemma {:induction false} AddBit(b: nat, k: nat, m: nat)
    requires !BitOf(b, k)
    ensures BitOf(b + Pow2(k), m) <==> (m == k || BitOf(b, m))
  {
    if k == 0 {
      if m > 0 {
        assert (b + 1) / 2 == b / 2;
      }
    } else {
      assert (b + Pow2(k)) / 2 == b / 2 + Pow2(k - 1);
      assert (b + Pow2(k)) % 2 == b % 2;
      if m > 0 {
        AddBit(b / 2, k - 1, m - 1);
      }
    }
  }

  /** Setting a clear bit k < n of a number below 2^n stays below 2^n. */
  lemma {:induction false} AddBitBound(b: nat, k: nat, n: nat)
    requires b < Pow2(n) && k < n && !BitOf(b, k)
    ensures b + Pow2(k) < Pow2(n)
  {
    if k == 0 {
      assert b % 2 == 0;
    } else {
      AddBitBound(b / 2, k - 1, n - 1);
    }
  }

  /** `b | (1 << k)` for a byte. */
  function SetBit(b: byte, k: nat): (r: byte)
    requires k < 8
    ensures forall m :: BitOf(r, m) <==> (m == k || BitOf(b, m))
  {
    if BitOf(b, k) then b
    else
      assert Pow2(8) == 0x100;
      AddBitBound(b, k, 8);
      forall m ensures BitOf(b + Pow2(k), m) <==> (m == k || BitOf(b, m)) {
        AddBit(b, k, m);
      }
      b + Pow2(k)
  }
}
