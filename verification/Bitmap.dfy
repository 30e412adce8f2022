/** Bits of a byte array, the way the page allocator keeps its two bitmaps. */
module Bitmap {

  // ----- One byte ---------------------------------------------------------

  /** `1 << k`. */
  function Mask(k: nat): bv8
    requires k < 8
  {
    if k == 0 then 0x01 else if k == 1 then 0x02 else if k == 2 then 0x04 else if k == 3 then 0x08
    else if k == 4 then 0x10 else if k == 5 then 0x20 else if k == 6 then 0x40 else 0x80
  }

  /** The two bytes have a bit in common. */
  predicate Meet(x: bv8, m: bv8) { x & m != 0 }

  predicate Bit(x: bv8, k: nat)
    requires k < 8
  {
    Meet(x, Mask(k))
  }

  function Or(x: bv8, m: bv8): bv8 { x | m }

  function AndNot(x: bv8, m: bv8): bv8 { x & !m }

  function Raise(x: bv8, k: nat): bv8
    requires k < 8
  {
    Or(x, Mask(k))
  }

  function Lower(x: bv8, k: nat): bv8
    requires k < 8
  {
    AndNot(x, Mask(k))
  }

  lemma MasksApart(k: nat, j: nat)
    requires k < 8 && j < 8
    ensures Meet(Mask(k), Mask(j)) <==> k == j
  {
  }

  lemma OrMeets(x: bv8, m: bv8, n: bv8)
    ensures Meet(Or(x, m), n) <==> Meet(x, n) || Meet(m, n)
  {
  }

  lemma AndNotMeets(x: bv8, m: bv8, n: bv8)
    ensures !Meet(AndNot(x, m), m)
    ensures !Meet(m, n) ==> (Meet(AndNot(x, m), n) <==> Meet(x, n))
  {
  }

  lemma RaiseBit(x: bv8, k: nat, j: nat)
    requires k < 8 && j < 8
    ensures Bit(Raise(x, k), j) <==> j == k || Bit(x, j)
  {
    hide Mask, Meet, Or;
    OrMeets(x, Mask(k), Mask(j));
    MasksApart(k, j);
  }

  lemma LowerBit(x: bv8, k: nat, j: nat)
    requires k < 8 && j < 8
    ensures Bit(Lower(x, k), j) <==> j != k && Bit(x, j)
  {
    hide Mask, Meet, AndNot;
    MasksApart(k, j);
    AndNotMeets(x, Mask(k), Mask(j));
  }

  // ----- The array --------------------------------------------------------

  predicate Test(bitmap: seq<bv8>, index: nat)
    requires index / 8 < |bitmap|
  {
    Bit(bitmap[index / 8], index % 8)
  }

  function With(bitmap: seq<bv8>, index: nat): (r: seq<bv8>)
    requires index / 8 < |bitmap|
    ensures |r| == |bitmap|
  {
    bitmap[index / 8 := Raise(bitmap[index / 8], index % 8)]
  }

  function Without(bitmap: seq<bv8>, index: nat): (r: seq<bv8>)
    requires index / 8 < |bitmap|
    ensures |r| == |bitmap|
  {
    bitmap[index / 8 := Lower(bitmap[index / 8], index % 8)]
  }

  lemma SameBit(i: nat, j: nat)
    ensures i == j <==> i / 8 == j / 8 && i % 8 == j % 8
  {
  }

  /** Setting a bit sets that bit and no other. */
  lemma SetOne(bitmap: seq<bv8>, index: nat, i: nat)
    requires index / 8 < |bitmap| && i / 8 < |bitmap|
    ensures Test(With(bitmap, index), i) == (i == index || Test(bitmap, i))
  {
    hide Raise, Bit;
    SameBit(i, index);
    RaiseBit(bitmap[index / 8], index % 8, i % 8);
  }

  /** Clearing a bit clears that bit and no other. */
  lemma ClearOne(bitmap: seq<bv8>, index: nat, i: nat)
    requires index / 8 < |bitmap| && i / 8 < |bitmap|
    ensures Test(Without(bitmap, index), i) == (i != index && Test(bitmap, i))
  {
    hide Lower, Bit;
    SameBit(i, index);
    LowerBit(bitmap[index / 8], index % 8, i % 8);
  }

  /** Page `8 * q + k` is bit `k`, counted from the low end, of byte `q`. */
  lemma TestIsBit(bitmap: seq<bv8>, q: nat, k: bv4)
    requires q < |bitmap| && k < 8
    ensures Test(bitmap, 8 * q + k as nat) <==> (bitmap[q] >> k) & 1 == 1
  {
    assert (8 * q + k as nat) / 8 == q && (8 * q + k as nat) % 8 == k as nat;
    BitIsShift(bitmap[q], k);
  }

  lemma BitIsShift(x: bv8, k: bv4)
    requires k < 8
    ensures k as nat < 8 && (Bit(x, k as nat) <==> (x >> k) & 1 == 1)
  {
  }

  method Set(bitmap: array<bv8>, index: nat)
    requires index / 8 < bitmap.Length
    modifies bitmap
    ensures bitmap[..] == With(old(bitmap[..]), index)
  {
    bitmap[index / 8] := Raise(bitmap[index / 8], index % 8);
  }

  method Clear(bitmap: array<bv8>, index: nat)
    requires index / 8 < bitmap.Length
    modifies bitmap
    ensures bitmap[..] == Without(old(bitmap[..]), index)
  {
    bitmap[index / 8] := Lower(bitmap[index / 8], index % 8);
  }
}
