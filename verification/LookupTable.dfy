/**
 The three-level table that maps a 36-bit block address to a signed value: 16 first-level
 entries, each holding 65536 second-level entries once touched, each holding 65536 values
 once touched.  Its meaning is the finite map `Contents`.
 */
module LookupTable {

  const PAGE := 0x1_0000
  const LIMIT := 0x10_0000_0000

  function L1(addr: int): int { (addr / 0x1_0000_0000) % 16 }
  function L2(addr: int): int { (addr / PAGE) % PAGE }
  function L3(addr: int): int { addr % PAGE }

  type Levels = seq<seq<seq<int>>>

  predicate InRange(addr: int) { 0 <= addr < LIMIT }

  // The vectors are either untouched or fully sized.
  ghost predicate Sized(t: Levels) {
    |t| == 16 &&
    (forall j :: 0 <= j < 16 ==> |t[j]| == 0 || |t[j]| == PAGE) &&
    (forall j, k :: 0 <= j < 16 && 0 <= k < |t[j]| ==> |t[j][k]| == 0 || |t[j][k]| == PAGE)
  }

  ghost predicate Present(t: Levels, addr: int)
    requires Sized(t)
  {
    InRange(addr) && L2(addr) < |t[L1(addr)]| && L3(addr) < |t[L1(addr)][L2(addr)]|
  }

  ghost function Get(t: Levels, addr: int): int
    requires Sized(t) && Present(t, addr)
  {
    t[L1(addr)][L2(addr)][L3(addr)]
  }

  // The three indices determine the address.
  lemma IndicesDetermine(a: int, b: int)
    requires InRange(a) && InRange(b)
    requires L1(a) == L1(b) && L2(a) == L2(b) && L3(a) == L3(b)
    ensures a == b
  {
    Recompose(a);
    Recompose(b);
  }

  lemma Recompose(a: int)
    requires InRange(a)
    ensures a == L1(a) * 0x1_0000_0000 + L2(a) * PAGE + L3(a)
  {
    assert a / 0x1_0000_0000 == (a / PAGE) / PAGE;
  }

  class Table {
    var levels: Levels
    ghost var Contents: map<int, int>

    ghost predicate Valid()
      reads this
    {
      Sized(levels) &&
      (forall a :: a in Contents <==> Present(levels, a)) &&
      (forall a :: a in Contents ==> Get(levels, a) == Contents[a])
    }

    constructor ()
      ensures Valid() && Contents == map[]
    {
      levels := seq(16, _ => []);
      Contents := map[];
    }

    method LookupValue(addr: int) returns (v: int)
      requires Valid() && addr in Contents
      ensures v == Contents[addr]
    {
      v := levels[L1(addr)][L2(addr)][L3(addr)];
    }

    method SetValue(addr: int, index: int)
      requires Valid() && addr in Contents
      modifies this
      ensures Valid() && Contents == old(Contents)[addr := index]
    {
      var i, j, k := L1(addr), L2(addr), L3(addr);
      levels := levels[i := levels[i][j := levels[i][j][k := index]]];
      Contents := Contents[addr := index];
      forall a | a in Contents
        ensures Get(levels, a) == Contents[a]
      {
        if a != addr {
          if L1(a) == i && L2(a) == j && L3(a) == k { IndicesDetermine(a, addr); }
        }
      }
    }

    // Sizes the vectors on the path to addr; only values that did not exist become `index`.
    method InitTable(addr: int, index: int)
      requires Valid() && InRange(addr)
      modifies this
      ensures Valid() && addr in Contents
      ensures old(Contents).Keys <= Contents.Keys
      ensures forall a :: a in Contents ==>
                Contents[a] == if a in old(Contents) then old(Contents)[a] else index
    {
      var i, j := L1(addr), L2(addr);
      if |levels[i]| != PAGE {
        SizeSecondLevel(i);
      }
      if |levels[i][j]| != PAGE {
        SizeThirdLevel(addr, index);
      }
    }

    method SizeSecondLevel(i: int)
      requires Valid() && 0 <= i < 16 && |levels[i]| == 0
      modifies this`levels
      ensures Valid() && |levels[i]| == PAGE
    {
      levels := levels[i := seq(PAGE, _ => [])];
    }

    method SizeThirdLevel(addr: int, index: int)
      requires Valid() && InRange(addr) && |levels[L1(addr)]| == PAGE && |levels[L1(addr)][L2(addr)]| == 0
      modifies this
      ensures Valid() && addr in Contents
      ensures old(Contents).Keys <= Contents.Keys
      ensures forall a :: a in Contents ==>
                Contents[a] == if a in old(Contents) then old(Contents)[a] else index
    {
      var i, j := L1(addr), L2(addr);
      levels := levels[i := levels[i][j := seq(PAGE, _ => index)]];
      Contents := Contents + map a | 0 <= a < LIMIT && L1(a) == i && L2(a) == j :: index;
    }

    // Every existing value becomes -1.
    method Reset()
      requires Valid()
      modifies this
      ensures Valid() && Contents.Keys == old(Contents).Keys
      ensures forall a :: a in Contents ==> Contents[a] == -1
    {
      for j := 0 to 16
        invariant Valid() && Contents.Keys == old(Contents).Keys
        invariant forall a :: a in Contents && L1(a) < j ==> Contents[a] == -1
      {
        if |levels[j]| == PAGE {
          for k := 0 to PAGE
            invariant Valid() && Contents.Keys == old(Contents).Keys && |levels[j]| == PAGE
            invariant forall a :: a in Contents && L1(a) < j ==> Contents[a] == -1
            invariant forall a :: a in Contents && L1(a) == j && L2(a) < k ==> Contents[a] == -1
          {
            if |levels[j][k]| == PAGE {
              ResetThirdLevel(j, k);
            }
          }
        }
      }
    }

    method ResetThirdLevel(j: int, k: int)
      requires Valid() && 0 <= j < 16 && 0 <= k < |levels[j]| && |levels[j][k]| == PAGE
      modifies this
      ensures Valid() && Contents.Keys == old(Contents).Keys
      ensures |levels[j]| == old(|levels[j]|)
      ensures forall a :: a in Contents ==>
                Contents[a] == if L1(a) == j && L2(a) == k then -1 else old(Contents)[a]
    {
      var page := levels[j][k];
      for l := 0 to PAGE
        invariant |page| == PAGE
        invariant forall x :: 0 <= x < l ==> page[x] == -1
      {
        page := page[l := -1];
      }
      levels := levels[j := levels[j][k := page]];
      Contents := map a | a in Contents :: if L1(a) == j && L2(a) == k then -1 else Contents[a];
    }
  }
}
