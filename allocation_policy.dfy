/** The allocation policy of the memory space, stated on values: a list of
    blocks seen as (base address, length) pairs, in list order. The class
    MemorySpace is proved to change its lists exactly as these functions say. */
module AllocationPolicy {

  /** The words [base, base + length). */
  datatype Span = Span(base: int, length: int)

  /** Sum of the lengths, in words. */
  function Total(s: seq<Span>): (t: int) {
    if s == [] then 0 else s[0].length + Total(s[1..])
  }

  lemma {:induction false} TotalConcat(a: seq<Span>, b: seq<Span>)
    ensures Total(a + b) == Total(a) + Total(b)
  {
    if a == [] {
      assert a + b == b;
    } else {
      assert (a + b)[1..] == a[1..] + b;
      TotalConcat(a[1..], b);
    }
  }

  /** First fit: the position of the first block, in list order, at least n
      words long, or -1 when there is none. */
  function FirstFit(s: seq<Span>, n: int): (i: int)
    ensures -1 <= i < |s|
    ensures i == -1 <==> forall j :: 0 <= j < |s| ==> s[j].length < n
    ensures i >= 0 ==> s[i].length >= n && forall j :: 0 <= j < i ==> s[j].length < n
  {
    if s == [] then -1
    else if s[0].length >= n then 0
    else
      var i := FirstFit(s[1..], n);
      if i == -1 then -1 else i + 1
  }

  /** The position of the first block whose base address is addr, or -1. */
  function AddressIndex(s: seq<Span>, addr: int): (i: int)
    ensures -1 <= i < |s|
    ensures i == -1 <==> forall j :: 0 <= j < |s| ==> s[j].base != addr
    ensures i >= 0 ==> s[i].base == addr && forall j :: 0 <= j < i ==> s[j].base != addr
  {
    if s == [] then -1
    else if s[0].base == addr then 0
    else
      var i := AddressIndex(s[1..], addr);
      if i == -1 then -1 else i + 1
  }

  /** The free list after malloc(n) takes its first fit at i, as the code does it:
      the block at i is replaced in place by the leftover (base + n, length - n);
      when that leftover is empty, list position 0 is removed, not position i. */
  function MallocFree(f: seq<Span>, n: int): (r: seq<Span>)
    requires FirstFit(f, n) >= 0
    ensures |r| == if f[FirstFit(f, n)].length == n then |f| - 1 else |f|
  {
    TakeAt(f, FirstFit(f, n), n)
  }

  /** The free list after n words are taken from the block at position i. */
  function TakeAt(f: seq<Span>, i: int, n: int): (r: seq<Span>)
    requires 0 <= i < |f|
  {
    var split := Replace(f, i, Span(f[i].base + n, f[i].length - n));
    if f[i].length == n then split[1..] else split
  }

  /** TakeAt, one case at a time. */
  lemma TakeAtCases(f: seq<Span>, i: int, n: int)
    requires 0 <= i < |f|
    ensures var split := Replace(f, i, Span(f[i].base + n, f[i].length - n));
      TakeAt(f, i, n) == if f[i].length == n then split[1..] else split
  {
  }

  /** f with entry i replaced by x. */
  function Replace(f: seq<Span>, i: int, x: Span): (r: seq<Span>)
    requires 0 <= i < |f|
    ensures |r| == |f|
  {
    f[..i] + [x] + f[i + 1..]
  }

  /** Replacing entry i by x changes entry i and nothing else. */
  lemma ReplaceAt(f: seq<Span>, i: int, x: Span)
    requires 0 <= i < |f|
    ensures var r := Replace(f, i, x);
      r[i] == x && forall j :: 0 <= j < |f| && j != i ==> r[j] == f[j]
  {
    var r := Replace(f, i, x);
    forall j | 0 <= j < |f| && j != i ensures r[j] == f[j] {
      if j < i {
        assert r[j] == f[..i][j];
      } else {
        assert r[j] == f[i + 1..][j - i - 1];
      }
    }
  }

  /** Replacing entry i by x changes the total by the difference in length. */
  lemma TotalReplaceAt(f: seq<Span>, i: int, x: Span)
    requires 0 <= i < |f|
    ensures Total(Replace(f, i, x)) == Total(f) - f[i].length + x.length
  {
    Around(f, i);
    TotalAround(f, i, f[i]);
    TotalAround(f, i, x);
  }

  /** f is its prefix, entry i and its suffix put back together. */
  lemma Around(f: seq<Span>, i: int)
    requires 0 <= i < |f|
    ensures f[..i] + [f[i]] + f[i + 1..] == f
  {
    assert forall j :: 0 <= j < |f| ==> (f[..i] + [f[i]] + f[i + 1..])[j] == f[j];
  }

  /** The total of f[..i] + [x] + f[i + 1..], part by part. */
  lemma TotalAround(f: seq<Span>, i: int, x: Span)
    requires 0 <= i < |f|
    ensures Total(f[..i] + [x] + f[i + 1..]) == Total(f[..i]) + x.length + Total(f[i + 1..])
    ensures Replace(f, i, x) == f[..i] + [x] + f[i + 1..]
  {
    TotalConcat(f[..i] + [x], f[i + 1..]);
    TotalConcat(f[..i], [x]);
  }

  /** A strict fit splits the block where it stands: position i now starts n
      words later and is n words shorter, and every other entry is untouched. */
  lemma MallocSplitsInPlace(f: seq<Span>, n: int)
    requires FirstFit(f, n) >= 0 && f[FirstFit(f, n)].length > n
    ensures var i, r := FirstFit(f, n), MallocFree(f, n);
      |r| == |f| && r[i] == Span(f[i].base + n, f[i].length - n) &&
      forall j :: 0 <= j < |f| && j != i ==> r[j] == f[j]
  {
    var i := FirstFit(f, n);
    TakeAtCases(f, i, n);
    ReplaceAt(f, i, Span(f[i].base + n, f[i].length - n));
  }

  /** An exact fit at the head drops the block; an exact fit further down
      drops the head instead and leaves an empty block where the fit was. */
  lemma MallocExactFit(f: seq<Span>, n: int)
    requires FirstFit(f, n) >= 0 && f[FirstFit(f, n)].length == n
    ensures var i := FirstFit(f, n);
      MallocFree(f, n) ==
        if i == 0 then f[1..] else f[1..i] + [Span(f[i].base + n, 0)] + f[i + 1..]
  {
    TakeAtExact(f, FirstFit(f, n), n);
  }

  /** An exact take at position i, whatever position it is. */
  lemma TakeAtExact(f: seq<Span>, i: int, n: int)
    requires 0 <= i < |f| && f[i].length == n
    ensures TakeAt(f, i, n) ==
      if i == 0 then f[1..] else f[1..i] + [Span(f[i].base + n, 0)] + f[i + 1..]
  {
    var x := Span(f[i].base + n, 0);
    TakeAtCases(f, i, n);
    assert Replace(f, i, x) == f[..i] + [x] + f[i + 1..];
    if i > 0 {
      assert (f[..i] + [x] + f[i + 1..])[1..] == f[1..i] + [x] + f[i + 1..];
    }
  }

  /** What malloc takes from the free list: exactly n words, except that an
      exact fit past the head also loses the head block's words. */
  lemma MallocTotal(f: seq<Span>, n: int)
    requires FirstFit(f, n) >= 0
    ensures var i := FirstFit(f, n);
      Total(MallocFree(f, n)) ==
        Total(f) - n - (if f[i].length == n && i > 0 then f[0].length else 0)
  {
    TakeAtTotal(f, FirstFit(f, n), n);
  }

  /** TakeAt lowers the total by n, and by the head's length as well when it
      drops the head in place of an exact fit past it. */
  lemma TakeAtTotal(f: seq<Span>, i: int, n: int)
    requires 0 <= i < |f|
    ensures Total(TakeAt(f, i, n)) ==
      Total(f) - n - (if f[i].length == n && i > 0 then f[0].length else 0)
  {
    var x := Span(f[i].base + n, f[i].length - n);
    var split := Replace(f, i, x);
    TotalReplaceAt(f, i, x);
    TakeAtCases(f, i, n);
    if f[i].length == n {
      ReplaceAt(f, i, x);
      assert split[0].length == if i == 0 then n - n else f[0].length;
      assert Total(split) == split[0].length + Total(split[1..]);
    }
  }

  /** The example of malloc's documentation: 17 words from the block
      (250, 20) leave the free block (267, 3). */
  lemma MallocDocExample()
    ensures FirstFit([Span(250, 20)], 17) == 0
    ensures MallocFree([Span(250, 20)], 17) == [Span(267, 3)]
  {
    assert [Span(250, 20)][1..] == [];
  }

  /** The free list after malloc(n) as its documentation describes it: a strict
      fit splits the found block in place, an exact fit removes the found block. */
  function MallocFreeIntended(f: seq<Span>, n: int): (r: seq<Span>)
    requires FirstFit(f, n) >= 0
    ensures |r| == if f[FirstFit(f, n)].length == n then |f| - 1 else |f|
  {
    var i := FirstFit(f, n);
    if f[i].length == n then f[..i] + f[i + 1..] else TakeAt(f, i, n)
  }

  /** Removing entry i lowers the total by its length. */
  lemma TotalRemoveAt(f: seq<Span>, i: int)
    requires 0 <= i < |f|
    ensures Total(f[..i] + f[i + 1..]) == Total(f) - f[i].length
  {
    Around(f, i);
    TotalAround(f, i, f[i]);
    TotalConcat(f[..i], f[i + 1..]);
  }

  /** The intended malloc takes exactly n words from the free list. */
  lemma MallocIntendedTotal(f: seq<Span>, n: int)
    requires FirstFit(f, n) >= 0
    ensures Total(MallocFreeIntended(f, n)) == Total(f) - n
  {
    var i := FirstFit(f, n);
    if f[i].length == n {
      TotalRemoveAt(f, i);
    } else {
      TakeAtTotal(f, i, n);
    }
  }

  /** The code agrees with its documentation except on an exact fit past the
      head of the free list, where it loses the head block's words as well. */
  lemma MallocAgreesUnlessExactPastHead(f: seq<Span>, n: int)
    requires FirstFit(f, n) >= 0
    ensures var i := FirstFit(f, n);
      !(f[i].length == n && i > 0) ==> MallocFree(f, n) == MallocFreeIntended(f, n)
    ensures var i := FirstFit(f, n);
      Total(MallocFree(f, n)) ==
        Total(MallocFreeIntended(f, n)) - (if f[i].length == n && i > 0 then f[0].length else 0)
  {
    var i := FirstFit(f, n);
    if f[i].length == n && i == 0 {
      MallocExactFit(f, n);
      assert f[..0] + f[1..] == f[1..];
    }
    MallocTotal(f, n);
    MallocIntendedTotal(f, n);
  }

  /** An exact fit past the head loses the head block: from free blocks (0, 2)
      and (10, 5), malloc(5) leaves the empty block (15, 0) where the
      documentation leaves the block (0, 2). */
  lemma MallocExactFitLosesHead()
    ensures var f := [Span(0, 2), Span(10, 5)];
      FirstFit(f, 5) == 1 &&
      MallocFree(f, 5) == [Span(15, 0)] &&
      MallocFreeIntended(f, 5) == [Span(0, 2)] &&
      Total(MallocFree(f, 5)) == Total(f) - 7
  {
    var f := [Span(0, 2), Span(10, 5)];
    assert f[1..][1..] == [];
    assert FirstFit(f, 5) == 1;
    assert (f[..1] + [Span(15, 0)] + f[2..])[1..] == [Span(15, 0)];
    assert f[..1] + f[2..] == [Span(0, 2)];
  }

  /** The free list after defrag: fewer than two blocks stay as they are; two
      blocks merge when the first ends where the second begins; with three or
      more, the first three always merge into one block at the first base. */
  function DefragSpans(f: seq<Span>): (r: seq<Span>)
    ensures |r| <= |f|
    ensures f != [] ==> r != [] && r[0].base == f[0].base
  {
    if |f| < 2 then f
    else if |f| == 2 then
      if f[0].base + f[0].length == f[1].base then [Span(f[0].base, f[0].length + f[1].length)]
      else f
    else [Span(f[0].base, f[0].length + f[1].length + f[2].length)] + f[3..]
  }

  /** Defrag loses no words, keeps the first base address, and leaves
      everything from the fourth entry on in order. */
  lemma DefragPreserves(f: seq<Span>)
    ensures Total(DefragSpans(f)) == Total(f)
    ensures f != [] ==> DefragSpans(f) != [] && DefragSpans(f)[0].base == f[0].base
    ensures |f| >= 3 ==> DefragSpans(f)[1..] == f[3..]
  {
    if |f| == 2 {
      assert Total(f) == f[0].length + Total(f[1..]);
      assert Total(f[1..]) == f[1].length + Total(f[2..]);
    } else if |f| >= 3 {
      assert Total(f) == f[0].length + Total(f[1..]);
      assert Total(f[1..]) == f[1].length + Total(f[2..]);
      assert Total(f[2..]) == f[2].length + Total(f[3..]);
      assert f[2..][1..] == f[3..];
      assert f[1..][1..] == f[2..];
    }
  }

  /** With three or more entries, defrag merges blocks that do not touch:
      (0, 1), (10, 1), (20, 1) become the one block (0, 3). */
  lemma DefragMergesApartBlocks()
    ensures var f := [Span(0, 1), Span(10, 1), Span(20, 1)];
      f[0].base + f[0].length != f[1].base && DefragSpans(f) == [Span(0, 3)]
  {
  }

  /** Free's lookup after malloc: when no block already allocated has base
      address addr, looking addr up in the allocated list with (addr, n)
      appended finds the appended block. */
  lemma {:induction false} FreeFindsLastAllocated(a: seq<Span>, addr: int, n: int)
    requires AddressIndex(a, addr) == -1
    ensures AddressIndex(a + [Span(addr, n)], addr) == |a|
  {
    var s := a + [Span(addr, n)];
    assert s[|a|].base == addr;
    assert forall j :: 0 <= j < |a| ==> s[j] == a[j];
  }
}
