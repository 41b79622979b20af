/** Bitmaps kept as arrays of bytes: the representation shared by the physical page
    allocator and the heap slabs. Page or cell n is bit n % 8 of byte n / 8. */
module Bitmap {

  /** 1 << j, the byte with only bit j set, as a table. */
  function Mask(j: nat): bv8
    requires j < 8
  {
    match j
    case 0 => 1
    case 1 => 2
    case 2 => 4
    case 3 => 8
    case 4 => 16
    case 5 => 32
    case 6 => 64
    case _ => 128
  }

  predicate Bit(b: bv8, j: nat)
    requires j < 8
  {
    b & Mask(j) != 0
  }

  predicate Marked(bm: seq<bv8>, n: nat)
    requires n < 8 * |bm|
  {
    Bit(bm[n / 8], n % 8)
  }

  function Mark(bm: seq<bv8>, n: nat): seq<bv8>
    requires n < 8 * |bm|
  {
    bm[n / 8 := bm[n / 8] | Mask(n % 8)]
  }

  /** Setting bit j of a byte sets that bit and no other. */
  lemma SetBit(b: bv8, j: nat, k: nat)
    requires j < 8 && k < 8
    ensures Bit(b | Mask(j), k) <==> Bit(b, k) || k == j
  {
    assert Mask(0) == 1 && Mask(1) == 2 && Mask(2) == 4 && Mask(3) == 8;
    assert Mask(4) == 16 && Mask(5) == 32 && Mask(6) == 64 && Mask(7) == 128;
    assert j == 0 || j == 1 || j == 2 || j == 3 || j == 4 || j == 5 || j == 6 || j == 7;
    assert k == 0 || k == 1 || k == 2 || k == 3 || k == 4 || k == 5 || k == 6 || k == 7;
  }

  lemma MarkSets(bm: seq<bv8>, n: nat, k: nat)
    requires n < 8 * |bm| && k < 8 * |bm|
    ensures Marked(Mark(bm, n), k) <==> Marked(bm, k) || k == n
  {
    SetBit(bm[n / 8], n % 8, k % 8);
  }

  lemma FullByte(b: bv8)
    ensures b == 0xff <==> forall j :: 0 <= j < 8 ==> Bit(b, j)
  {
    assert Mask(0) == 1 && Mask(1) == 2 && Mask(2) == 4 && Mask(3) == 8;
    assert Mask(4) == 16 && Mask(5) == 32 && Mask(6) == 64 && Mask(7) == 128;
    if forall j :: 0 <= j < 8 ==> Bit(b, j) {
      assert Bit(b, 0) && Bit(b, 1) && Bit(b, 2) && Bit(b, 3) && Bit(b, 4) && Bit(b, 5) && Bit(b, 6) && Bit(b, 7);
    }
    if b == 0xff {
      forall j | 0 <= j < 8 ensures Bit(b, j) {
        assert j == 0 || j == 1 || j == 2 || j == 3 || j == 4 || j == 5 || j == 6 || j == 7;
      }
    }
  }

  lemma EmptyByte(b: bv8)
    ensures b == 0 <==> forall j :: 0 <= j < 8 ==> !Bit(b, j)
  {
    assert Mask(0) == 1 && Mask(1) == 2 && Mask(2) == 4 && Mask(3) == 8;
    assert Mask(4) == 16 && Mask(5) == 32 && Mask(6) == 64 && Mask(7) == 128;
    if forall j :: 0 <= j < 8 ==> !Bit(b, j) {
      assert !Bit(b, 0) && !Bit(b, 1) && !Bit(b, 2) && !Bit(b, 3);
      assert !Bit(b, 4) && !Bit(b, 5) && !Bit(b, 6) && !Bit(b, 7);
    }
  }

  /** j single-place right shifts. */
  function ShiftedRight(b: bv8, j: nat): bv8 {
    if j == 0 then b else ShiftedRight(b, j - 1) >> 1
  }

  /** After j shifts the lowest bit is bit j of the original. */
  lemma ShiftedBit(b: bv8, j: nat)
    requires j < 8
    ensures ShiftedRight(b, j) & 0x1 > 0 <==> Bit(b, j)
  {
    assert Mask(0) == 1 && Mask(1) == 2 && Mask(2) == 4 && Mask(3) == 8;
    assert Mask(4) == 16 && Mask(5) == 32 && Mask(6) == 64 && Mask(7) == 128;
    assert ShiftedRight(b, 1) == b >> 1;
    assert ShiftedRight(b, 2) == b >> 2;
    assert ShiftedRight(b, 3) == b >> 3;
    assert ShiftedRight(b, 4) == b >> 4;
    assert ShiftedRight(b, 5) == b >> 5;
    assert ShiftedRight(b, 6) == b >> 6;
    assert ShiftedRight(b, 7) == b >> 7;
    assert j == 0 || j == 1 || j == 2 || j == 3 || j == 4 || j == 5 || j == 6 || j == 7;
  }

  /** The shift loop of both allocators: the index of the lowest clear bit. */
  method LowestClearBit(b: bv8) returns (j: nat)
    requires b != 0xff
    ensures j < 8 && !Bit(b, j)
    ensures forall k :: 0 <= k < j ==> Bit(b, k)
  {
    FullByte(b);
    var bitmap := b;
    j := 0;
    while bitmap & 0x1 > 0
      invariant j < 8
      invariant bitmap == ShiftedRight(b, j)
      invariant forall k :: 0 <= k < j ==> Bit(b, k)
      decreases 8 - j
    {
      ShiftedBit(b, j);
      bitmap := bitmap >> 1;
      j := j + 1;
    }
    ShiftedBit(b, j);
  }
}
