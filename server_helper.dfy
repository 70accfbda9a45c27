/*
 * The server's memory-map helpers: request bitmaps, the access check
 * against an access bitmap, and bit- and register-level copies out of and
 * writes into a server's byte-array memory. Coil `j` of a memory map lives
 * in byte `j / 8` at bit `j % 8`. The memory maps are byte vectors the
 * helpers index without bounds checks, so each method requires the indices
 * it touches to exist.
 */
module ServerHelper {
  import opened Types

  // ---------------------------------------------------------------------
  // Bits of a byte
  // ---------------------------------------------------------------------

  /** `1 << b` */
  function Pow8(b: nat): bv8
    requires b < 8
  {
    if b == 0 then 1 else if b == 1 then 2 else if b == 2 then 4 else if b == 3 then 8
    else if b == 4 then 0x10 else if b == 5 then 0x20 else if b == 6 then 0x40 else 0x80
  }

  /** Whether bit `b` of `x` is set. */
  predicate Bit8(x: bv8, b: nat)
    requires b < 8
  {
    x & Pow8(b) != 0
  }

  /** `(uint8_t)(x << s)`, one place at a time. */
  function Shl(x: bv8, s: nat): bv8
    decreases s
  {
    if s == 0 then x else Shl(x << 1, s - 1)
  }

  /** `x >> s`, one place at a time. */
  function Shr(x: bv8, s: nat): bv8
    decreases s
  {
    if s == 0 then x else Shr(x >> 1, s - 1)
  }

  /** The `bitMasks` table: the `k` low bits set. */
  function LowMask(k: nat): bv8
    requires k <= 8
  {
    if k == 0 then 0x00 else if k == 1 then 0x01 else if k == 2 then 0x03 else if k == 3 then 0x07
    else if k == 4 then 0x0F else if k == 5 then 0x1F else if k == 6 then 0x3F else if k == 7 then 0x7F
    else 0xFF
  }

  // The facts below are first proved for an arbitrary one-bit mask, which
  // the solver handles far better than the table `Pow8`, and then read
  // back as facts about bit `b`.

  predicate IsBitMask(m: bv8)
  {
    m == 1 || m == 2 || m == 4 || m == 8 || m == 0x10 || m == 0x20 || m == 0x40 || m == 0x80
  }

  lemma PowIsMask(b: nat)
    requires b < 8
    ensures IsBitMask(Pow8(b))
  {
  }

  lemma PowShiftDown(b: nat)
    requires 1 <= b < 8
    ensures Pow8(b - 1) == Pow8(b) >> 1 && Pow8(b) != 1
  {
  }

  lemma PowShiftUp(b: nat)
    requires b < 7
    ensures Pow8(b + 1) == Pow8(b) << 1 && Pow8(b) != 0x80
  {
  }

  lemma ShlOneMask(x: bv8, m: bv8)
    requires IsBitMask(m)
    ensures (x << 1) & m != 0 <==> m != 1 && x & (m >> 1) != 0
  {
  }

  lemma ShrOneMask(x: bv8, m: bv8)
    requires IsBitMask(m)
    ensures (x >> 1) & m != 0 <==> m != 0x80 && x & (m << 1) != 0
  {
  }

  lemma OrMask(x: bv8, y: bv8, m: bv8)
    ensures (x | y) & m != 0 <==> x & m != 0 || y & m != 0
  {
  }

  lemma AndMask(x: bv8, y: bv8, m: bv8)
    requires IsBitMask(m)
    ensures (x & y) & m != 0 <==> x & m != 0 && y & m != 0
  {
  }

  lemma NotMask(x: bv8, m: bv8)
    requires IsBitMask(m)
    ensures !x & m != 0 <==> x & m == 0
  {
  }

  lemma ShlOneBit(x: bv8, b: nat)
    requires b < 8
    ensures Bit8(x << 1, b) <==> b >= 1 && Bit8(x, b - 1)
  {
    PowIsMask(b);
    ShlOneMask(x, Pow8(b));
    if b >= 1 {
      PowShiftDown(b);
    }
  }

  lemma ShrOneBit(x: bv8, b: nat)
    requires b < 8
    ensures Bit8(x >> 1, b) <==> b < 7 && Bit8(x, b + 1)
  {
    PowIsMask(b);
    ShrOneMask(x, Pow8(b));
    if b < 7 {
      PowShiftUp(b);
    }
  }

  lemma {:induction false} ShlBit(x: bv8, s: nat, b: nat)
    requires b < 8
    ensures Bit8(Shl(x, s), b) <==> b >= s && Bit8(x, b - s)
    decreases s
  {
    if s > 0 {
      var y := x << 1;
      ShlBit(y, s - 1, b);
      if b >= s {
        ShlOneBit(x, b - s + 1);
      }
    }
  }

  lemma {:induction false} ShrBit(x: bv8, s: nat, b: nat)
    requires b < 8
    ensures Bit8(Shr(x, s), b) <==> b + s < 8 && Bit8(x, b + s)
    decreases s
  {
    if s > 0 {
      var y := x >> 1;
      ShrBit(y, s - 1, b);
      var t := b + s - 1;
      if t < 8 {
        ShrOneBit(x, t);
      }
    }
  }

  lemma LowMaskBit(k: nat, b: nat)
    requires k <= 8 && b < 8
    ensures Bit8(LowMask(k), b) <==> b < k
  {
  }

  lemma OrBit(x: bv8, y: bv8, b: nat)
    requires b < 8
    ensures Bit8(x | y, b) <==> Bit8(x, b) || Bit8(y, b)
  {
    OrMask(x, y, Pow8(b));
  }

  lemma AndBit(x: bv8, y: bv8, b: nat)
    requires b < 8
    ensures Bit8(x & y, b) <==> Bit8(x, b) && Bit8(y, b)
  {
    PowIsMask(b);
    AndMask(x, y, Pow8(b));
  }

  lemma NotBit(x: bv8, b: nat)
    requires b < 8
    ensures Bit8(!x, b) <==> !Bit8(x, b)
  {
    PowIsMask(b);
    NotMask(x, Pow8(b));
  }

  lemma ZeroBit(b: nat)
    requires b < 8
    ensures !Bit8(0, b)
  {
  }

  lemma PowBit(k: nat, b: nat)
    requires k < 8 && b < 8
    ensures Bit8(Pow8(k), b) <==> k == b
  {
  }

  /** Two bytes with the same bits are equal. */
  lemma ByteExt(x: bv8, y: bv8)
    requires forall b :: 0 <= b < 8 ==> (Bit8(x, b) <==> Bit8(y, b))
    ensures x == y
  {
    assert Bit8(x, 0) == Bit8(y, 0) && Bit8(x, 1) == Bit8(y, 1) && Bit8(x, 2) == Bit8(y, 2) && Bit8(x, 3) == Bit8(y, 3);
    assert Bit8(x, 4) == Bit8(y, 4) && Bit8(x, 5) == Bit8(y, 5) && Bit8(x, 6) == Bit8(y, 6) && Bit8(x, 7) == Bit8(y, 7);
  }

  /** `r & a == r`: every bit of `r` is set in `a`. */
  lemma SubsetByte(r: bv8, a: bv8)
    ensures (r & a == r) <==> forall b :: 0 <= b < 8 && Bit8(r, b) ==> Bit8(a, b)
  {
    if forall b :: 0 <= b < 8 && Bit8(r, b) ==> Bit8(a, b) {
      forall b | 0 <= b < 8
        ensures Bit8(r & a, b) <==> Bit8(r, b)
      {
        AndBit(r, a, b);
      }
      ByteExt(r & a, r);
    }
    if r & a == r {
      forall b | 0 <= b < 8 && Bit8(r, b)
        ensures Bit8(a, b)
      {
        AndBit(r, a, b);
      }
    }
  }

  // ---------------------------------------------------------------------
  // Bits of a memory map
  // ---------------------------------------------------------------------

  /** Whether coil `j` is set; coils past the end are clear. */
  predicate Bit(s: seq<bv8>, j: nat)
  {
    j < 8 * |s| && Bit8(s[j / 8], j % 8)
  }

  /** Coil `j = 8 * i + b` is bit `b` of byte `i`. */
  lemma BitAt8(s: seq<bv8>, j: nat, i: nat, b: nat)
    requires b < 8 && j == 8 * i + b
    ensures Bit(s, j) <==> i < |s| && Bit8(s[i], b)
  {
    assert j / 8 == i && j % 8 == b;
  }

  /** The coils of the first `n` bytes are the first `8 * n` coils. */
  lemma BitPrefix(s: seq<bv8>, n: nat, q: nat)
    requires n <= |s| && q < 8 * n
    ensures Bit(s[..n], q) <==> Bit(s, q)
  {
  }

  // ---------------------------------------------------------------------
  // create_request_bit_map
  // ---------------------------------------------------------------------

  /** Whether the C++ `create_request_bit_map` stays inside its nine-entry
      mask table. */
  predicate HighBitsInTable(startAddress: nat, numRegisters: nat)
  {
    var startBit := startAddress % 8;
    numRegisters == 0 || (numRegisters + startBit) / 8 == 0 || numRegisters % 8 + startBit <= 8
  }

  /** `create_request_bit_map` as written: for a bitmap of more than one
      byte, the number of bits in the last byte is taken to be
      `numRegisters % 8 + startBit`. */
  function RequestBitMapAsWritten(startAddress: nat, numRegisters: nat): (bm: seq<bv8>)
    requires HighBitsInTable(startAddress, numRegisters)
  {
    if numRegisters == 0 then []
    else
      var startBit := startAddress % 8;
      var numBytes := (numRegisters + startBit) / 8 + 1;
      var numHighBits := if numBytes == 1 then numRegisters else numRegisters % 8 + startBit;
      var filled := seq(numBytes - 1, _ => 0xFF) + [LowMask(numHighBits)];
      filled[0 := Shl(filled[0], startBit)]
  }

  /** `create_request_bit_map` with the number of bits in the last byte
      taken as `(numRegisters + startBit) % 8`: the bits of coils
      `startAddress` to `startAddress + numRegisters - 1`, counted from
      the start of the byte holding `startAddress`. */
  function RequestBitMap(startAddress: nat, numRegisters: nat): (bm: seq<bv8>)
    ensures numRegisters == 0 <==> bm == []
    ensures numRegisters > 0 ==> |bm| == (numRegisters + startAddress % 8) / 8 + 1
  {
    if numRegisters == 0 then []
    else
      var startBit := startAddress % 8;
      var numBytes := (numRegisters + startBit) / 8 + 1;
      var numHighBits := if numBytes == 1 then numRegisters else (numRegisters + startBit) % 8;
      var filled := seq(numBytes - 1, _ => 0xFF) + [LowMask(numHighBits)];
      filled[0 := Shl(filled[0], startBit)]
  }

  /** The request bitmap marks exactly the requested coils. */
  lemma RequestBitMapBits(startAddress: nat, numRegisters: nat)
    ensures var bm := RequestBitMap(startAddress, numRegisters);
            forall j :: 0 <= j < 8 * |bm| ==>
              (Bit(bm, j) <==> startAddress % 8 <= j < startAddress % 8 + numRegisters)
  {
    var bm := RequestBitMap(startAddress, numRegisters);
    if numRegisters > 0 {
      var startBit := startAddress % 8;
      var numBytes := (numRegisters + startBit) / 8 + 1;
      var numHighBits := if numBytes == 1 then numRegisters else (numRegisters + startBit) % 8;
      forall j | 0 <= j < 8 * |bm|
        ensures Bit(bm, j) <==> startBit <= j < startBit + numRegisters
      {
        var i, b := j / 8, j % 8;
        assert j == 8 * i + b;
        if numBytes == 1 {
          assert bm[0] == Shl(LowMask(numRegisters), startBit);
          ShlBit(LowMask(numRegisters), startBit, b);
          if b >= startBit {
            LowMaskBit(numRegisters, b - startBit);
          }
        } else if i == 0 {
          assert bm[0] == Shl(0xFF, startBit);
          ShlBit(0xFF, startBit, b);
          if b >= startBit {
            LowMaskBit(8, b - startBit);
          }
        } else if i < numBytes - 1 {
          assert bm[i] == 0xFF;
          LowMaskBit(8, b);
        } else {
          assert bm[i] == LowMask(numHighBits);
          LowMaskBit(numHighBits, b);
        }
      }
    }
  }

  /** The two agree whenever the requested bits do not reach the end of a
      byte boundary past the first one, which covers the library's tests. */
  lemma RequestBitMapAsWrittenAgrees(startAddress: nat, numRegisters: nat)
    requires numRegisters % 8 + startAddress % 8 < 8
    ensures HighBitsInTable(startAddress, numRegisters)
    ensures RequestBitMapAsWritten(startAddress, numRegisters) == RequestBitMap(startAddress, numRegisters)
  {
    assert numRegisters % 8 + startAddress % 8 == (numRegisters + startAddress % 8) % 8;
  }

  /** A request for coil 7 alone gets a second byte with all eight bits
      set: coils 8 to 15 pass as requested. A request for coils 7 and 8
      would read a tenth entry of the nine-entry mask table. */
  lemma RequestBitMapAsWrittenOverreaches()
    ensures RequestBitMapAsWritten(7, 1) == [0x80, 0xFF]
    ensures RequestBitMap(7, 1) == [0x80, 0x00]
    ensures Bit(RequestBitMapAsWritten(7, 1), 8) && !Bit(RequestBitMap(7, 1), 8)
    ensures !HighBitsInTable(7, 2)
  {
    assert Shl(0xFF, 7) == 0x80;
    assert Bit8(0xFF, 0);
    assert !Bit8(0x00, 0);
  }

  /** `create_request_bit_map(startAddress, numRegisters)`, with the last
      byte's bit count corrected: every byte but the last is filled, the
      last gets its mask, and the first is shifted to the start bit. */
  method CreateRequestBitMap(startAddress: nat, numRegisters: nat) returns (bm: seq<bv8>)
    ensures bm == RequestBitMap(startAddress, numRegisters)
    ensures forall j :: 0 <= j < 8 * |bm| ==>
              (Bit(bm, j) <==> startAddress % 8 <= j < startAddress % 8 + numRegisters)
  {
    RequestBitMapBits(startAddress, numRegisters);
    if numRegisters == 0 {
      return [];
    }
    var startBit := startAddress % 8;
    var numBytes := (numRegisters + startBit) / 8 + 1;
    var numHighBits := if numBytes == 1 then numRegisters else (numRegisters + startBit) % 8;
    var a := new bv8[numBytes];
    var i := 0;
    while i < numBytes - 1
      invariant 0 <= i <= numBytes - 1
      invariant forall m :: 0 <= m < i ==> a[m] == 0xFF
    {
      a[i] := 0xFF;
      i := i + 1;
    }
    a[numBytes - 1] := LowMask(numHighBits);
    ghost var filled := a[..];
    a[0] := Shl(a[0], startBit);
    bm := a[..];
    assert filled == seq(numBytes - 1, _ => 0xFF) + [LowMask(numHighBits)];
    assert bm == filled[0 := Shl(filled[0], startBit)];
  }

  // ---------------------------------------------------------------------
  // legal_address
  // ---------------------------------------------------------------------

  /** Every bit of the request bitmap is set in the access bitmap, the
      request's first byte lined up with byte `startByte`. */
  predicate Covers(accessBitMask: seq<bv8>, requestBitmap: seq<bv8>, startByte: nat)
    requires startByte + |requestBitmap| <= |accessBitMask|
  {
    forall j :: 0 <= j < 8 * |requestBitmap| && Bit(requestBitmap, j) ==> Bit(accessBitMask, 8 * startByte + j)
  }

  /** The byte-by-byte `(request & access) == request` test is `Covers`. */
  lemma SubsetBytesCovers(accessBitMask: seq<bv8>, requestBitmap: seq<bv8>, startByte: nat)
    requires startByte + |requestBitmap| <= |accessBitMask|
    ensures (forall i :: 0 <= i < |requestBitmap| ==> requestBitmap[i] & accessBitMask[i + startByte] == requestBitmap[i])
            <==> Covers(accessBitMask, requestBitmap, startByte)
  {
    forall i | 0 <= i < |requestBitmap|
      ensures (requestBitmap[i] & accessBitMask[i + startByte] == requestBitmap[i])
              <==> forall b :: 0 <= b < 8 && Bit8(requestBitmap[i], b) ==> Bit8(accessBitMask[i + startByte], b)
    {
      SubsetByte(requestBitmap[i], accessBitMask[i + startByte]);
    }
    if Covers(accessBitMask, requestBitmap, startByte) {
      forall i, b | 0 <= i < |requestBitmap| && 0 <= b < 8 && Bit8(requestBitmap[i], b)
        ensures Bit8(accessBitMask[i + startByte], b)
      {
        var j := 8 * i + b;
        assert j / 8 == i && j % 8 == b;
        assert Bit(requestBitmap, j);
        assert (8 * startByte + j) / 8 == i + startByte && (8 * startByte + j) % 8 == b;
      }
    }
    if forall i, b :: 0 <= i < |requestBitmap| && 0 <= b < 8 && Bit8(requestBitmap[i], b) ==> Bit8(accessBitMask[i + startByte], b) {
      forall j | 0 <= j < 8 * |requestBitmap| && Bit(requestBitmap, j)
        ensures Bit(accessBitMask, 8 * startByte + j)
      {
        assert (8 * startByte + j) / 8 == j / 8 + startByte && (8 * startByte + j) % 8 == j % 8;
      }
    }
  }

  /** `legal_address(accessBitMask, requestBitmap, startAddress)`: an empty
      request and one that runs past the access bitmap are refused; any
      other is allowed when each request byte is a subset of the access
      byte it lines up with. */
  method LegalAddress(accessBitMask: seq<bv8>, requestBitmap: seq<bv8>, startAddress: nat) returns (legal: bool)
    ensures legal <==> |requestBitmap| > 0 && startAddress / 8 + |requestBitmap| <= |accessBitMask|
                       && Covers(accessBitMask, requestBitmap, startAddress / 8)
  {
    if |requestBitmap| == 0 {
      return false;
    }
    var startByte := startAddress / 8;
    var numBytes := |requestBitmap|;
    if startByte + numBytes > |accessBitMask| {
      return false;
    }
    SubsetBytesCovers(accessBitMask, requestBitmap, startByte);
    var i := 0;
    while i < |requestBitmap|
      invariant 0 <= i <= |requestBitmap|
      invariant forall m :: 0 <= m < i ==> requestBitmap[m] & accessBitMask[m + startByte] == requestBitmap[m]
    {
      if requestBitmap[i] & accessBitMask[i + startByte] != requestBitmap[i] {
        return false;
      }
      i := i + 1;
    }
    return true;
  }

  /** For the bitmap of a request, the access check passes exactly when the
      access bitmap is long enough and allows every requested coil. */
  lemma LegalAddressOfRequest(accessBitMask: seq<bv8>, startAddress: nat, numRegisters: nat)
    requires numRegisters > 0
    requires startAddress / 8 + |RequestBitMap(startAddress, numRegisters)| <= |accessBitMask|
    ensures Covers(accessBitMask, RequestBitMap(startAddress, numRegisters), startAddress / 8)
            <==> forall p :: startAddress <= p < startAddress + numRegisters ==> Bit(accessBitMask, p)
  {
    var bm := RequestBitMap(startAddress, numRegisters);
    var startByte, startBit := startAddress / 8, startAddress % 8;
    RequestBitMapBits(startAddress, numRegisters);
    assert 8 * startByte + startBit == startAddress;
    if Covers(accessBitMask, bm, startByte) {
      forall p | startAddress <= p < startAddress + numRegisters
        ensures Bit(accessBitMask, p)
      {
        var j := p - 8 * startByte;
        assert startBit <= j < startBit + numRegisters;
        assert j < 8 * |bm|;
        assert Bit(bm, j);
        assert 8 * startByte + j == p;
      }
    }
  }

  // ---------------------------------------------------------------------
  // copy_data_bits
  // ---------------------------------------------------------------------

  /** Each byte shifted down by `s` bits and topped up with the low bits of
      the byte after it. */
  function ShiftedDown(c: seq<bv8>, s: nat): (r: seq<bv8>)
    requires s < 8
    ensures |r| == |c|
  {
    seq(|c|, i requires 0 <= i < |c| => Shr(c[i], s) | (if i + 1 < |c| then Shl(c[i + 1], 8 - s) else 0))
  }

  /** Bit `b` of `u | v`, given the bits of `u` and `v`. */
  lemma OrOfBits(u: bv8, v: bv8, b: nat, inU: bool, inV: bool)
    requires b < 8 && (Bit8(u, b) <==> inU) && (Bit8(v, b) <==> inV)
    ensures Bit8(u | v, b) <==> inU || inV
  {
    OrBit(u, v, b);
  }

  lemma ShiftedDownByte(c: seq<bv8>, s: nat, i: nat, b: nat)
    requires s < 8 && i < |c| && b < 8
    ensures Bit8(ShiftedDown(c, s)[i], b) <==> if b + s < 8 then Bit8(c[i], b + s) else i + 1 < |c| && Bit8(c[i + 1], b + s - 8)
  {
    var hi: bv8 := if i + 1 < |c| then Shl(c[i + 1], 8 - s) else 0;
    assert ShiftedDown(c, s)[i] == Shr(c[i], s) | hi;
    ShrBit(c[i], s, b);
    if i + 1 < |c| {
      ShlBit(c[i + 1], 8 - s, b);
    } else {
      ZeroBit(b);
    }
    OrOfBits(Shr(c[i], s), hi, b, b + s < 8 && Bit8(c[i], b + s), i + 1 < |c| && b + s >= 8 && Bit8(c[i + 1], b + s - 8));
  }

  /** The byte and bit that coil `k` of `ShiftedDown(c, s)` comes from. */
  predicate DownSource(c: seq<bv8>, s: nat, k: nat)
    requires s < 8 && k < 8 * |c|
  {
    var i, b := k / 8, k % 8;
    if b + s < 8 then Bit8(c[i], b + s) else i + 1 < |c| && Bit8(c[i + 1], b + s - 8)
  }

  lemma ShiftedDownCoil(c: seq<bv8>, s: nat, k: nat)
    requires s < 8 && k < 8 * |c|
    ensures Bit(ShiftedDown(c, s), k) <==> DownSource(c, s, k)
  {
    var i, b := k / 8, k % 8;
    BitAt8(ShiftedDown(c, s), k, i, b);
    ShiftedDownByte(c, s, i, b);
  }

  lemma DownSourceCoil(c: seq<bv8>, s: nat, k: nat)
    requires s < 8 && k < 8 * |c|
    ensures Bit(c, k + s) <==> DownSource(c, s, k)
  {
    var i, b := k / 8, k % 8;
    if b + s < 8 {
      BitAt8(c, k + s, i, b + s);
    } else {
      BitAt8(c, k + s, i + 1, b + s - 8);
    }
  }

  /** Coil `k` of the shifted bytes is coil `k + s` of the original. */
  lemma ShiftedDownBits(c: seq<bv8>, s: nat)
    requires s < 8
    ensures forall k :: 0 <= k < 8 * |c| ==> (Bit(ShiftedDown(c, s), k) <==> Bit(c, k + s))
  {
    forall k | 0 <= k < 8 * |c|
      ensures Bit(ShiftedDown(c, s), k) <==> Bit(c, k + s)
    {
      ShiftedDownCoil(c, s, k);
      DownSourceCoil(c, s, k);
    }
  }

  /** The shift loop of `copy_data_bits`: in place, from the first byte up,
      each byte shifted down and topped up from the byte after it, which
      is not yet shifted. */
  method ShiftDownInPlace(a: array<bv8>, s: nat)
    requires s < 8
    modifies a
    ensures a[..] == ShiftedDown(old(a[..]), s)
  {
    ghost var c := a[..];
    if a.Length == 0 {
      return;
    }
    var i := 0;
    while i < a.Length - 1
      invariant 0 <= i <= a.Length - 1
      invariant forall m :: 0 <= m < i ==> a[m] == ShiftedDown(c, s)[m]
      invariant forall m :: i <= m < a.Length ==> a[m] == c[m]
    {
      a[i] := Shr(a[i], s) | Shl(a[i + 1], 8 - s);
      i := i + 1;
    }
    a[a.Length - 1] := Shr(a[a.Length - 1], s);
    assert a[a.Length - 1] == ShiftedDown(c, s)[a.Length - 1] by {
      OrZero(Shr(c[a.Length - 1], s));
    }
    assert a[..] == ShiftedDown(c, s);
  }

  lemma OrZero(x: bv8)
    ensures x | 0 == x
  {
  }

  /** The count of coil bytes a reply carries: `((numRegisters - 1) / 8) + 1`
      with C++ division, so 1 when no coil is asked for. */
  function NumDataBytes(numRegisters: nat): nat
  {
    if numRegisters == 0 then 1 else (numRegisters - 1) / 8 + 1
  }

  /** `copy_data_bits(from, requestBitmap, startAddress, numRegisters)`:
      masks the memory bytes under the request bitmap, shifts them down to
      the start bit, and drops the last byte when it is not needed. */
  method CopyDataBits(from: seq<bv8>, requestBitmap: seq<bv8>, startAddress: nat, numRegisters: nat)
    returns (to: seq<bv8>)
    requires |requestBitmap| > 0 && startAddress / 8 + |requestBitmap| <= |from|
    ensures |to| == if NumDataBytes(numRegisters) != |requestBitmap| then |requestBitmap| - 1 else |requestBitmap|
    ensures forall k :: 0 <= k < 8 * |to| ==>
              (Bit(to, k) <==> Bit(requestBitmap, startAddress % 8 + k) && Bit(from, startAddress + k))
  {
    var startByte := startAddress / 8;
    var startBit := startAddress % 8;
    var numBytes := |requestBitmap|;
    var a := new bv8[numBytes];
    var i := 0;
    while i < numBytes
      invariant 0 <= i <= numBytes
      invariant forall m :: 0 <= m < i ==> a[m] == from[m + startByte] & requestBitmap[m]
    {
      a[i] := from[i + startByte] & requestBitmap[i];
      i := i + 1;
    }
    ghost var masked := a[..];
    ShiftDownInPlace(a, startBit);
    to := a[..];
    if NumDataBytes(numRegisters) != |to| {
      to := to[..numBytes - 1];
    }
    CopiedCoils(from, requestBitmap, startAddress, masked, to);
  }

  /** The coils of a prefix of the masked memory bytes shifted down to the
      start bit. */
  lemma CopiedCoils(from: seq<bv8>, requestBitmap: seq<bv8>, startAddress: nat, masked: seq<bv8>, to: seq<bv8>)
    requires startAddress / 8 + |requestBitmap| <= |from| && |masked| == |requestBitmap|
    requires forall m :: 0 <= m < |masked| ==> masked[m] == from[m + startAddress / 8] & requestBitmap[m]
    requires |to| <= |masked| && to == ShiftedDown(masked, startAddress % 8)[..|to|]
    ensures forall k :: 0 <= k < 8 * |to| ==>
              (Bit(to, k) <==> Bit(requestBitmap, startAddress % 8 + k) && Bit(from, startAddress + k))
  {
    ShiftedDownPrefixBits(masked, startAddress % 8, to);
    MaskedShiftedBits(from, requestBitmap, startAddress, masked, to);
  }

  lemma MaskedShiftedBits(from: seq<bv8>, requestBitmap: seq<bv8>, startAddress: nat, masked: seq<bv8>, to: seq<bv8>)
    requires startAddress / 8 + |requestBitmap| <= |from| && |masked| == |requestBitmap|
    requires forall m :: 0 <= m < |masked| ==> masked[m] == from[m + startAddress / 8] & requestBitmap[m]
    requires CoilsShiftedDown(to, masked, startAddress % 8)
    ensures forall k :: 0 <= k < 8 * |to| ==>
              (Bit(to, k) <==> Bit(requestBitmap, startAddress % 8 + k) && Bit(from, startAddress + k))
  {
    MaskedBits(from, requestBitmap, startAddress / 8, masked);
    CopiedBits(from, requestBitmap, startAddress, masked, to);
  }

  /** Coil `j` of the masked bytes is set when it is requested and set in
      memory. */
  lemma MaskedCoil(from: seq<bv8>, requestBitmap: seq<bv8>, startByte: nat, masked: seq<bv8>, j: nat)
    requires startByte + |requestBitmap| <= |from| && |masked| == |requestBitmap|
    requires forall m :: 0 <= m < |masked| ==> masked[m] == from[m + startByte] & requestBitmap[m]
    ensures Bit(masked, j) <==> Bit(requestBitmap, j) && Bit(from, 8 * startByte + j)
  {
    var i, b := j / 8, j % 8;
    BitAt8(masked, j, i, b);
    BitAt8(requestBitmap, j, i, b);
    BitAt8(from, 8 * startByte + j, startByte + i, b);
    if i < |masked| {
      AndBit(from[i + startByte], requestBitmap[i], b);
    }
  }

  lemma MaskedBits(from: seq<bv8>, requestBitmap: seq<bv8>, startByte: nat, masked: seq<bv8>)
    requires startByte + |requestBitmap| <= |from| && |masked| == |requestBitmap|
    requires forall m :: 0 <= m < |masked| ==> masked[m] == from[m + startByte] & requestBitmap[m]
    ensures forall j :: Bit(masked, j) <==> Bit(requestBitmap, j) && Bit(from, 8 * startByte + j)
  {
    forall j
      ensures Bit(masked, j) <==> Bit(requestBitmap, j) && Bit(from, 8 * startByte + j)
    {
      MaskedCoil(from, requestBitmap, startByte, masked, j);
    }
  }

  /** Coil `k` of `to` is coil `k + s` of `c`. */
  predicate CoilsShiftedDown(to: seq<bv8>, c: seq<bv8>, s: nat)
  {
    forall k :: 0 <= k < 8 * |to| ==> (Bit(to, k) <==> Bit(c, k + s))
  }

  /** Coil `k` of a prefix of the shifted bytes is coil `k + s` of the
      original. */
  lemma ShiftedDownPrefixBits(c: seq<bv8>, s: nat, to: seq<bv8>)
    requires s < 8 && |to| <= |c| && to == ShiftedDown(c, s)[..|to|]
    ensures CoilsShiftedDown(to, c, s)
  {
    ShiftedDownBits(c, s);
    forall k | 0 <= k < 8 * |to|
      ensures Bit(to, k) <==> Bit(c, k + s)
    {
      BitPrefix(ShiftedDown(c, s), |to|, k);
    }
  }

  /** The coils of the copy, from the coils of the masked bytes. */
  lemma CopiedBits(from: seq<bv8>, requestBitmap: seq<bv8>, startAddress: nat, masked: seq<bv8>, to: seq<bv8>)
    requires forall j :: Bit(masked, j) <==> Bit(requestBitmap, j) && Bit(from, 8 * (startAddress / 8) + j)
    requires forall k :: 0 <= k < 8 * |to| ==> (Bit(to, k) <==> Bit(masked, k + startAddress % 8))
    ensures forall k :: 0 <= k < 8 * |to| ==>
              (Bit(to, k) <==> Bit(requestBitmap, startAddress % 8 + k) && Bit(from, startAddress + k))
  {
    forall k | 0 <= k < 8 * |to|
      ensures Bit(to, k) <==> Bit(requestBitmap, startAddress % 8 + k) && Bit(from, startAddress + k)
    {
      var j := k + startAddress % 8;
      assert Bit(masked, j) <==> Bit(requestBitmap, j) && Bit(from, 8 * (startAddress / 8) + j);
      assert 8 * (startAddress / 8) + j == startAddress + k;
    }
  }

  /** For the bitmap of a request, the copy holds the requested coils from
      bit 0 on, one bit per coil, the unrequested bits clear, in as many
      bytes as the coil count needs. */
  lemma CopyDataBitsOfRequest(from: seq<bv8>, startAddress: nat, numRegisters: nat, to: seq<bv8>)
    requires numRegisters > 0
    requires var bm := RequestBitMap(startAddress, numRegisters);
             |to| == (if NumDataBytes(numRegisters) != |bm| then |bm| - 1 else |bm|)
             && forall k :: 0 <= k < 8 * |to| ==> (Bit(to, k) <==> Bit(bm, startAddress % 8 + k) && Bit(from, startAddress + k))
    ensures |to| == (numRegisters - 1) / 8 + 1
    ensures forall k :: 0 <= k < 8 * |to| ==> (Bit(to, k) <==> k < numRegisters && Bit(from, startAddress + k))
  {
    var bm := RequestBitMap(startAddress, numRegisters);
    RequestBitMapBits(startAddress, numRegisters);
    forall k | 0 <= k < 8 * |to|
      ensures Bit(to, k) <==> k < numRegisters && Bit(from, startAddress + k)
    {
      var j := startAddress % 8 + k;
      assert Bit(to, k) <==> Bit(bm, j) && Bit(from, startAddress + k);
      if j >= 8 * |bm| {
        assert k >= numRegisters;
      }
    }
  }

  // ---------------------------------------------------------------------
  // write_coil and write_coils
  // ---------------------------------------------------------------------

  /** `write_coil(data, coilStatus, coilAddress)`: sets the coil for
      `on` and clears it for any other status; nothing else changes. */
  method WriteCoil(data: array<bv8>, coilStatus: u16, coilAddress: nat)
    requires coilAddress / 8 < data.Length
    modifies data
    ensures forall i :: 0 <= i < data.Length && i != coilAddress / 8 ==> data[i] == old(data[i])
    ensures forall j :: 0 <= j < 8 * data.Length ==>
              (Bit(data[..], j) <==> if j == coilAddress then coilStatus == COIL_ON else Bit(old(data[..]), j))
  {
    var startByte := coilAddress / 8;
    var startBit := coilAddress % 8;
    var mask := Pow8(startBit);
    ghost var before := data[..];
    if coilStatus == COIL_ON {
      data[startByte] := data[startByte] | mask;
    } else {
      data[startByte] := data[startByte] & !mask;
    }
    forall j | 0 <= j < 8 * data.Length
      ensures Bit(data[..], j) <==> if j == coilAddress then coilStatus == COIL_ON else Bit(before, j)
    {
      WrittenCoil(before, data[..], coilAddress, coilStatus == COIL_ON, j);
    }
  }

  /** Coil `j` after `write_coil` changed the byte of coil `coilAddress`. */
  lemma WrittenCoil(before: seq<bv8>, after: seq<bv8>, coilAddress: nat, on: bool, j: nat)
    requires coilAddress / 8 < |before| == |after|
    requires forall i :: 0 <= i < |after| && i != coilAddress / 8 ==> after[i] == before[i]
    requires after[coilAddress / 8] ==
             if on then before[coilAddress / 8] | Pow8(coilAddress % 8) else before[coilAddress / 8] & !Pow8(coilAddress % 8)
    ensures Bit(after, j) <==> if j == coilAddress then on else Bit(before, j)
  {
    var i, b := j / 8, j % 8;
    BitAt8(after, j, i, b);
    BitAt8(before, j, i, b);
    if i == coilAddress / 8 {
      SingleBit(before[i], coilAddress % 8, b, on);
    }
  }

  /** Setting or clearing bit `k` of a byte leaves its other bits alone. */
  lemma SingleBit(x: bv8, k: nat, b: nat, on: bool)
    requires k < 8 && b < 8
    ensures Bit8(if on then x | Pow8(k) else x & !Pow8(k), b) <==> if b == k then on else Bit8(x, b)
  {
    if on {
      OrBit(x, Pow8(k), b);
    } else {
      AndBit(x, !Pow8(k), b);
      NotBit(Pow8(k), b);
    }
    PowBit(k, b);
  }

  /** Each byte shifted up by `s` bits and topped up with the high bits of
      the byte before it, as it was before the shift. */
  function ShiftedUp(c: seq<bv8>, s: nat): (r: seq<bv8>)
    requires s < 8
    ensures |r| == |c|
  {
    seq(|c|, i requires 0 <= i < |c| => Shl(c[i], s) | (if i > 0 then Shr(c[i - 1], 8 - s) else 0))
  }

  lemma ShiftedUpByte(c: seq<bv8>, s: nat, i: nat, b: nat)
    requires s < 8 && i < |c| && b < 8
    ensures Bit8(ShiftedUp(c, s)[i], b) <==> if b >= s then Bit8(c[i], b - s) else i > 0 && Bit8(c[i - 1], b + 8 - s)
  {
    var lo: bv8 := if i > 0 then Shr(c[i - 1], 8 - s) else 0;
    assert ShiftedUp(c, s)[i] == Shl(c[i], s) | lo;
    ShlBit(c[i], s, b);
    if i > 0 {
      ShrBit(c[i - 1], 8 - s, b);
    } else {
      ZeroBit(b);
    }
    OrOfBits(Shl(c[i], s), lo, b, b >= s && Bit8(c[i], b - s), i > 0 && b < s && Bit8(c[i - 1], b + 8 - s));
  }

  /** The byte and bit that coil `k` of `ShiftedUp(c, s)` comes from. */
  predicate UpSource(c: seq<bv8>, s: nat, k: nat)
    requires s < 8 && k < 8 * |c|
  {
    var i, b := k / 8, k % 8;
    if b >= s then Bit8(c[i], b - s) else i > 0 && Bit8(c[i - 1], b + 8 - s)
  }

  lemma ShiftedUpCoil(c: seq<bv8>, s: nat, k: nat)
    requires s < 8 && k < 8 * |c|
    ensures Bit(ShiftedUp(c, s), k) <==> UpSource(c, s, k)
  {
    var i, b := k / 8, k % 8;
    BitAt8(ShiftedUp(c, s), k, i, b);
    ShiftedUpByte(c, s, i, b);
  }

  lemma UpSourceCoil(c: seq<bv8>, s: nat, k: nat)
    requires s < 8 && k < 8 * |c|
    ensures k >= s && Bit(c, k - s) <==> UpSource(c, s, k)
  {
    var i, b := k / 8, k % 8;
    if b >= s {
      BitAt8(c, k - s, i, b - s);
    } else if i > 0 {
      BitAt8(c, k - s, i - 1, b + 8 - s);
    }
  }

  /** Coil `k` of the shifted bytes is coil `k - s` of the original. */
  lemma ShiftedUpBits(c: seq<bv8>, s: nat)
    requires s < 8
    ensures forall k :: 0 <= k < 8 * |c| ==> (Bit(ShiftedUp(c, s), k) <==> k >= s && Bit(c, k - s))
  {
    forall k | 0 <= k < 8 * |c|
      ensures Bit(ShiftedUp(c, s), k) <==> k >= s && Bit(c, k - s)
    {
      ShiftedUpCoil(c, s, k);
      UpSourceCoil(c, s, k);
    }
  }

  /** The in-place ascending shift of `write_coils` as written: byte `i`
      takes its high bits from byte `i - 1` after that byte was already
      shifted. */
  function ShiftedUpAsWritten(c: seq<bv8>, s: nat, i: nat): (r: seq<bv8>)
    requires s < 8 && 1 <= i <= |c|
    ensures |r| == |c|
    decreases |c| - i
  {
    if i == |c| then c[0 := Shl(c[0], s)]
    else ShiftedUpAsWritten(c[i := Shl(c[i], s) | Shr(c[i - 1], 8 - s)], s, i + 1)
  }

  /** Writing coils 14 and 15 of a 17-coil request that starts at coil 2:
      the descending shift puts them at bits 0 and 1 of status byte 2, the
      shift as written leaves that byte clear, so the merge would take them
      as off. */
  lemma ShiftedUpAsWrittenLosesCoils()
    ensures ShiftedUp([0x00, 0xC0, 0x00], 2) == [0x00, 0x00, 0x03]
    ensures ShiftedUpAsWritten([0x00, 0xC0, 0x00], 2, 1) == [0x00, 0x00, 0x00]
  {
    assert Shl(0xC0, 2) == 0x00 && Shr(0xC0, 6) == 0x03 && Shr(0x00, 6) == 0x00;
    assert Shl(0x00, 2) == 0x00;
    assert ShiftedUpAsWritten([0x00, 0xC0, 0x00], 2, 1) == ShiftedUpAsWritten([0x00, 0x00, 0x00], 2, 2);
    assert ShiftedUpAsWritten([0x00, 0x00, 0x00], 2, 2) == ShiftedUpAsWritten([0x00, 0x00, 0x00], 2, 3);
  }

  /** The shift of `write_coils`, run in place from the last byte down, so
      that each byte takes its high bits from the byte before it while that
      byte is not yet shifted. */
  method ShiftUpInPlace(a: array<bv8>, s: nat)
    requires s < 8
    modifies a
    ensures a[..] == ShiftedUp(old(a[..]), s)
  {
    ghost var c := a[..];
    if a.Length == 0 {
      return;
    }
    var i := a.Length - 1;
    while i > 0
      invariant 0 <= i <= a.Length - 1
      invariant forall m :: 0 <= m <= i ==> a[m] == c[m]
      invariant forall m :: i < m < a.Length ==> a[m] == ShiftedUp(c, s)[m]
    {
      a[i] := Shl(a[i], s) | Shr(a[i - 1], 8 - s);
      i := i - 1;
    }
    a[0] := Shl(a[0], s);
    assert a[0] == ShiftedUp(c, s)[0] by {
      OrZero(Shl(c[0], s));
    }
    assert a[..] == ShiftedUp(c, s);
  }

  /** The clear-then-set update of one memory byte: keeps the bits of `d`
      outside `r` and takes the bits of `c` inside it. */
  function Merge(d: bv8, c: bv8, r: bv8): bv8
  {
    (d & (c | !r)) | (c & r)
  }

  lemma MergeMask(d: bv8, c: bv8, r: bv8, m: bv8)
    requires IsBitMask(m)
    ensures Merge(d, c, r) & m != 0 <==> if r & m != 0 then c & m != 0 else d & m != 0
  {
  }

  lemma MergeBit(d: bv8, c: bv8, r: bv8, b: nat)
    requires b < 8
    ensures Bit8(Merge(d, c, r), b) <==> if Bit8(r, b) then Bit8(c, b) else Bit8(d, b)
  {
    PowIsMask(b);
    MergeMask(d, c, r, Pow8(b));
  }

  /** `write_coils(data, requestBitmap, coilStatuses, startAddress)` with the
      shift run from the last byte down: the coil statuses, lined up with
      the start bit, are written under the request bitmap and nothing else
      changes. */
  method WriteCoils(data: array<bv8>, requestBitmap: seq<bv8>, coilStatuses: seq<bv8>, startAddress: nat)
    requires startAddress / 8 + |requestBitmap| <= data.Length
    modifies data
    ensures forall i :: 0 <= i < data.Length && !(startAddress / 8 <= i < startAddress / 8 + |requestBitmap|)
              ==> data[i] == old(data[i])
    ensures forall p :: 0 <= p < 8 * data.Length ==>
              (Bit(data[..], p) <==>
                 if 8 * (startAddress / 8) <= p && Bit(requestBitmap, p - 8 * (startAddress / 8))
                 then p >= startAddress && Bit(coilStatuses, p - startAddress)
                 else Bit(old(data[..]), p))
  {
    var startByte := startAddress / 8;
    var startBit := startAddress % 8;
    var numBytes := |requestBitmap|;
    ghost var before := data[..];
    if numBytes == 0 {
      return;
    }
    var c := new bv8[numBytes](i requires 0 <= i < numBytes => if i < |coilStatuses| then coilStatuses[i] else 0);
    assert c[..] == Padded(coilStatuses, numBytes);
    ShiftUpInPlace(c, startBit);
    ghost var shifted := c[..];
    MergeCoils(data, startByte, requestBitmap, c);
    WrittenCoilsBits(before, data[..], requestBitmap, coilStatuses, startAddress, shifted);
  }

  /** Whether `write_coils` as written stays inside its copy of the statuses:
      it indexes one status byte per bitmap byte. */
  predicate WriteCoilsAsWrittenInBounds(requestBitmap: seq<bv8>, coilStatuses: seq<bv8>)
  {
    |requestBitmap| <= |coilStatuses|
  }

  /** A write-multiple-coils request carries `(numRegisters + 7) / 8` status
      bytes, but the bitmap of its coils has one byte more whenever the
      last coil, lined up with the start bit, is bit 7 of its byte or lies
      in the byte after. */
  lemma {:induction false} RequestBitMapOutgrowsStatuses(startAddress: nat, numRegisters: nat)
    requires numRegisters > 0
    ensures |RequestBitMap(startAddress, numRegisters)|
            == (numRegisters + 7) / 8 + (if (numRegisters - 1) % 8 + startAddress % 8 >= 7 then 1 else 0)
  {
    var q, r, sb := (numRegisters - 1) / 8, (numRegisters - 1) % 8, startAddress % 8;
    assert numRegisters + sb == 8 * q + (r + 1 + sb);
    assert (numRegisters + sb) / 8 == q + (r + 1 + sb) / 8;
    assert (numRegisters + 7) / 8 == q + 1;
  }

  /** Eight coils written from address 0: one status byte against a
      two-byte bitmap, so `write_coils` as written reads and writes status
      byte 1 of a one-byte vector. */
  lemma StatusesShorterThanBitmap()
    ensures |RequestBitMap(0, 8)| == 2 && (8 + 7) / 8 == 1
    ensures !WriteCoilsAsWrittenInBounds(RequestBitMap(0, 8), [0xFF])
  {
    RequestBitMapOutgrowsStatuses(0, 8);
  }

  /** The merge loop of `write_coils`: under the request bitmap the bytes
      of memory from `startByte` on take the bits of the shifted statuses,
      elsewhere they keep their own. */
  method MergeCoils(data: array<bv8>, startByte: nat, requestBitmap: seq<bv8>, c: array<bv8>)
    requires c.Length == |requestBitmap| && startByte + |requestBitmap| <= data.Length && c != data
    modifies data
    ensures forall m :: 0 <= m < data.Length && !(startByte <= m < startByte + |requestBitmap|) ==> data[m] == old(data[m])
    ensures forall m :: 0 <= m < |requestBitmap| ==>
              data[startByte + m] == Merge(old(data[startByte + m]), c[m], requestBitmap[m])
  {
    var i := 0;
    while i < |requestBitmap|
      invariant 0 <= i <= |requestBitmap|
      invariant forall m :: 0 <= m < data.Length && !(startByte <= m < startByte + i) ==> data[m] == old(data[m])
      invariant forall m :: 0 <= m < i ==> data[startByte + m] == Merge(old(data[startByte + m]), c[m], requestBitmap[m])
    {
      data[i + startByte] := data[i + startByte] & (c[i] | !requestBitmap[i]);
      data[i + startByte] := data[i + startByte] | (c[i] & requestBitmap[i]);
      i := i + 1;
    }
  }

  /** The coils of memory after the merge of the shifted statuses. */
  lemma WrittenCoilsBits(before: seq<bv8>, after: seq<bv8>, requestBitmap: seq<bv8>, coilStatuses: seq<bv8>,
                         startAddress: nat, shifted: seq<bv8>)
    requires startAddress / 8 + |requestBitmap| <= |before| == |after|
    requires shifted == ShiftedUp(Padded(coilStatuses, |requestBitmap|), startAddress % 8)
    requires forall m :: 0 <= m < |after| && !(startAddress / 8 <= m < startAddress / 8 + |requestBitmap|) ==> after[m] == before[m]
    requires forall m :: 0 <= m < |requestBitmap| ==>
               after[startAddress / 8 + m] == Merge(before[startAddress / 8 + m], shifted[m], requestBitmap[m])
    ensures forall p :: 0 <= p < 8 * |after| ==>
              (Bit(after, p) <==>
                 if 8 * (startAddress / 8) <= p && Bit(requestBitmap, p - 8 * (startAddress / 8))
                 then p >= startAddress && Bit(coilStatuses, p - startAddress)
                 else Bit(before, p))
  {
    MergedBits(before, after, requestBitmap, shifted, startAddress / 8);
    ShiftedStatusBits(coilStatuses, |requestBitmap|, startAddress % 8);
    WrittenBits(before, after, requestBitmap, coilStatuses, startAddress, shifted);
  }

  /** Bit `b` of byte `m` of the range from `startByte` on is the bit of
      `shifted` where the request bitmap is set, and the bit of `before`
      elsewhere. */
  predicate MergedUnder(before: seq<bv8>, after: seq<bv8>, requestBitmap: seq<bv8>, shifted: seq<bv8>, startByte: nat)
    requires |shifted| == |requestBitmap| && startByte + |requestBitmap| <= |before| == |after|
  {
    forall m, b :: 0 <= m < |requestBitmap| && 0 <= b < 8 ==>
      (Bit8(after[startByte + m], b) <==>
         if Bit8(requestBitmap[m], b) then Bit8(shifted[m], b) else Bit8(before[startByte + m], b))
  }

  /** Coil `k` of `shifted` is coil `k - s` of `c`. */
  predicate CoilsShiftedUp(shifted: seq<bv8>, c: seq<bv8>, s: nat)
  {
    forall k :: 0 <= k < 8 * |shifted| ==> (Bit(shifted, k) <==> k >= s && Bit(c, k - s))
  }

  /** The bits of the bytes the merge loop of `write_coils` wrote. */
  lemma MergedBits(before: seq<bv8>, after: seq<bv8>, requestBitmap: seq<bv8>, shifted: seq<bv8>, startByte: nat)
    requires |shifted| == |requestBitmap| && startByte + |requestBitmap| <= |before| == |after|
    requires forall m :: 0 <= m < |requestBitmap| ==>
               after[startByte + m] == Merge(before[startByte + m], shifted[m], requestBitmap[m])
    ensures MergedUnder(before, after, requestBitmap, shifted, startByte)
  {
    forall m, b | 0 <= m < |requestBitmap| && 0 <= b < 8
      ensures Bit8(after[startByte + m], b) <==>
                if Bit8(requestBitmap[m], b) then Bit8(shifted[m], b) else Bit8(before[startByte + m], b)
    {
      MergeBit(before[startByte + m], shifted[m], requestBitmap[m], b);
    }
  }

  /** The coils of the shifted statuses. */
  lemma ShiftedStatusBits(coilStatuses: seq<bv8>, n: nat, s: nat)
    requires s < 8
    ensures CoilsShiftedUp(ShiftedUp(Padded(coilStatuses, n), s), coilStatuses, s)
  {
    ShiftedUpBits(Padded(coilStatuses, n), s);
    PaddedBits(coilStatuses, n);
  }

  /** The first `n` status bytes, a missing byte read as all coils off. */
  function Padded(coilStatuses: seq<bv8>, n: nat): (c: seq<bv8>)
    ensures |c| == n
  {
    seq(n, i requires 0 <= i < n => if i < |coilStatuses| then coilStatuses[i] else 0)
  }

  /** Padding changes no coil: the first `8 * n` coils are those of the
      statuses, and clear past their end. */
  lemma PaddedBits(coilStatuses: seq<bv8>, n: nat)
    ensures forall j :: 0 <= j < 8 * n ==> (Bit(Padded(coilStatuses, n), j) <==> Bit(coilStatuses, j))
  {
    forall j | 0 <= j < 8 * n
      ensures Bit(Padded(coilStatuses, n), j) <==> Bit(coilStatuses, j)
    {
      if j / 8 >= |coilStatuses| {
        ZeroBit(j % 8);
      }
    }
  }

  /** Coil `p` after the merge loop of `write_coils`. */
  lemma WrittenBit(before: seq<bv8>, after: seq<bv8>, requestBitmap: seq<bv8>, coilStatuses: seq<bv8>,
                   startAddress: nat, shifted: seq<bv8>, p: nat)
    requires |shifted| == |requestBitmap| && startAddress / 8 + |requestBitmap| <= |before| == |after|
    requires forall m :: 0 <= m < |after| && !(startAddress / 8 <= m < startAddress / 8 + |requestBitmap|) ==> after[m] == before[m]
    requires forall m, b :: 0 <= m < |requestBitmap| && 0 <= b < 8 ==>
               (Bit8(after[startAddress / 8 + m], b) <==>
                  if Bit8(requestBitmap[m], b) then Bit8(shifted[m], b) else Bit8(before[startAddress / 8 + m], b))
    requires forall k :: 0 <= k < 8 * |shifted| ==>
               (Bit(shifted, k) <==> k >= startAddress % 8 && Bit(coilStatuses, k - startAddress % 8))
    requires p < 8 * |after|
    ensures Bit(after, p) <==>
              if 8 * (startAddress / 8) <= p && Bit(requestBitmap, p - 8 * (startAddress / 8))
              then p >= startAddress && Bit(coilStatuses, p - startAddress)
              else Bit(before, p)
  {
    var startByte, startBit := startAddress / 8, startAddress % 8;
    var n := |requestBitmap|;
    var i, b := p / 8, p % 8;
    BitAt8(after, p, i, b);
    BitAt8(before, p, i, b);
    if startByte <= i < startByte + n {
      var m := i - startByte;
      var k := p - 8 * startByte;
      BitAt8(requestBitmap, k, m, b);
      BitAt8(shifted, k, m, b);
      assert after[startByte + m] == after[i];
      assert Bit8(after[startByte + m], b) <==>
               if Bit8(requestBitmap[m], b) then Bit8(shifted[m], b) else Bit8(before[startByte + m], b);
      assert Bit(shifted, k) <==> k >= startBit && Bit(coilStatuses, k - startBit);
      assert k - startBit == p - startAddress;
    } else {
      assert after[i] == before[i];
      if 8 * startByte <= p {
        BitAt8(requestBitmap, p - 8 * startByte, i - startByte, b);
      }
    }
  }

  /** The coils of memory after the merge loop of `write_coils`. */
  lemma WrittenBits(before: seq<bv8>, after: seq<bv8>, requestBitmap: seq<bv8>, coilStatuses: seq<bv8>,
                    startAddress: nat, shifted: seq<bv8>)
    requires |shifted| == |requestBitmap| && startAddress / 8 + |requestBitmap| <= |before| == |after|
    requires forall m :: 0 <= m < |after| && !(startAddress / 8 <= m < startAddress / 8 + |requestBitmap|) ==> after[m] == before[m]
    requires MergedUnder(before, after, requestBitmap, shifted, startAddress / 8)
    requires CoilsShiftedUp(shifted, coilStatuses, startAddress % 8)
    ensures forall p :: 0 <= p < 8 * |after| ==>
              (Bit(after, p) <==>
                 if 8 * (startAddress / 8) <= p && Bit(requestBitmap, p - 8 * (startAddress / 8))
                 then p >= startAddress && Bit(coilStatuses, p - startAddress)
                 else Bit(before, p))
  {
    forall p | 0 <= p < 8 * |after|
      ensures Bit(after, p) <==>
                if 8 * (startAddress / 8) <= p && Bit(requestBitmap, p - 8 * (startAddress / 8))
                then p >= startAddress && Bit(coilStatuses, p - startAddress)
                else Bit(before, p)
    {
      WrittenBit(before, after, requestBitmap, coilStatuses, startAddress, shifted, p);
    }
  }

  /** For the bitmap of a request, `write_coils` sets coil `startAddress + k`
      to status bit `k` for each requested coil and leaves every other coil
      as it was. */
  lemma WriteCoilsOfRequest(before: seq<bv8>, after: seq<bv8>, coilStatuses: seq<bv8>, startAddress: nat, numRegisters: nat)
    requires |after| == |before|
    requires var bm := RequestBitMap(startAddress, numRegisters);
             forall p :: 0 <= p < 8 * |after| ==>
               (Bit(after, p) <==>
                  if 8 * (startAddress / 8) <= p && Bit(bm, p - 8 * (startAddress / 8))
                  then p >= startAddress && Bit(coilStatuses, p - startAddress)
                  else Bit(before, p))
    ensures forall p :: 0 <= p < 8 * |after| ==>
              (Bit(after, p) <==>
                 if startAddress <= p < startAddress + numRegisters then Bit(coilStatuses, p - startAddress)
                 else Bit(before, p))
  {
    var bm := RequestBitMap(startAddress, numRegisters);
    var startByte := startAddress / 8;
    RequestBitMapBits(startAddress, numRegisters);
    forall p | 0 <= p < 8 * |after|
      ensures Bit(after, p) <==>
                if startAddress <= p < startAddress + numRegisters then Bit(coilStatuses, p - startAddress)
                else Bit(before, p)
    {
      if 8 * startByte <= p {
        var j := p - 8 * startByte;
        assert j - startAddress % 8 == p - startAddress;
        if numRegisters > 0 && j >= 8 * |bm| {
          assert p >= startAddress + numRegisters;
        }
      }
    }
  }

  // ---------------------------------------------------------------------
  // Registers: two bytes each, most significant first
  // ---------------------------------------------------------------------

  /** `(uint8_t)(value >> 8)` */
  function HiByte(value: bv16): bv8
  {
    (value >> 8) as bv8
  }

  /** `(uint8_t)(value & 0xFF)` */
  function LoByte(value: bv16): bv8
  {
    (value & 0xFF) as bv8
  }

  /** Register `r` of a memory map. */
  function RegisterAt(mem: seq<bv8>, r: nat): bv16
    requires 2 * r + 1 < |mem|
  {
    ((mem[2 * r] as bv16) << 8) | (mem[2 * r + 1] as bv16)
  }

  lemma RegisterOfBytes(value: bv16)
    ensures ((HiByte(value) as bv16) << 8) | (LoByte(value) as bv16) == value
  {
  }

  /** `copy_data_registers(from, startAddress, numRegisters)` */
  method CopyDataRegisters(from: seq<bv8>, startAddress: nat, numRegisters: nat) returns (to: seq<bv8>)
    requires 2 * (startAddress + numRegisters) <= |from|
    ensures to == from[2 * startAddress..2 * (startAddress + numRegisters)]
    ensures forall r :: 0 <= r < numRegisters ==> RegisterAt(to, r) == RegisterAt(from, startAddress + r)
  {
    var startByte := startAddress * 2;
    var numBytes := numRegisters * 2;
    var a := new bv8[numBytes];
    var i := 0;
    while i < numBytes
      invariant 0 <= i <= numBytes
      invariant forall m :: 0 <= m < i ==> a[m] == from[m + startByte]
    {
      a[i] := from[i + startByte];
      i := i + 1;
    }
    to := a[..];
    forall r | 0 <= r < numRegisters
      ensures RegisterAt(to, r) == RegisterAt(from, startAddress + r)
    {
      assert to[2 * r] == from[2 * (startAddress + r)] && to[2 * r + 1] == from[2 * (startAddress + r) + 1];
    }
  }

  /** `write_register(value, to, startAddress)`: register `startAddress`
      becomes `value`; nothing else changes. */
  method WriteRegister(value: bv16, to: array<bv8>, startAddress: nat)
    requires 2 * startAddress + 1 < to.Length
    modifies to
    ensures to[2 * startAddress] == HiByte(value) && to[2 * startAddress + 1] == LoByte(value)
    ensures forall i :: 0 <= i < to.Length && i != 2 * startAddress && i != 2 * startAddress + 1 ==> to[i] == old(to[i])
    ensures RegisterAt(to[..], startAddress) == value
  {
    var startByte := startAddress * 2;
    to[startByte] := HiByte(value);
    to[startByte + 1] := LoByte(value);
    RegisterOfBytes(value);
  }

  /** `write_registers(from, to, startAddress, numRegisters)`: registers
      `startAddress` onwards take the first `numRegisters` values; nothing
      else changes. */
  method WriteRegisters(from: seq<bv16>, to: array<bv8>, startAddress: nat, numRegisters: nat)
    requires numRegisters <= |from| && 2 * (startAddress + numRegisters) <= to.Length
    modifies to
    ensures forall i :: 0 <= i < to.Length && !(2 * startAddress <= i < 2 * (startAddress + numRegisters)) ==> to[i] == old(to[i])
    ensures forall r :: 0 <= r < numRegisters ==> RegisterAt(to[..], startAddress + r) == from[r]
  {
    var startByte := startAddress * 2;
    var i := 0;
    while i < numRegisters
      invariant 0 <= i <= numRegisters
      invariant forall m :: 0 <= m < to.Length && !(startByte <= m < startByte + 2 * i) ==> to[m] == old(to[m])
      invariant forall r :: 0 <= r < i ==> to[startByte + 2 * r] == HiByte(from[r]) && to[startByte + 2 * r + 1] == LoByte(from[r])
    {
      to[2 * i + startByte] := HiByte(from[i]);
      to[2 * i + startByte + 1] := LoByte(from[i]);
      i := i + 1;
    }
    forall r | 0 <= r < numRegisters
      ensures RegisterAt(to[..], startAddress + r) == from[r]
    {
      RegisterOfBytes(from[r]);
    }
  }
}
