/** A managed memory space: a list of allocated blocks and a list of free
    blocks, with first-fit malloc, free, and a narrow defrag. */
module Memory {
  import opened Sequences
  import opened LinkedLists
  import opened AllocationPolicy

  /** The (base address, length) values of a list of blocks, in list order. */
  function Spans(s: seq<MemoryBlock>): (r: seq<Span>)
    ensures |r| == |s|
    ensures forall i :: 0 <= i < |s| ==> r[i] == Span(s[i].baseAddress, s[i].length)
  {
    seq(|s|, i requires 0 <= i < |s| => Span(s[i].baseAddress, s[i].length))
  }

  /** Both lists of a repeat-free pair are repeat-free. */
  lemma DistinctSplit<T>(a: seq<T>, f: seq<T>)
    requires Distinct(a + f)
    ensures Distinct(a) && Distinct(f)
  {
    assert multiset(a) <= multiset(a + f);
    assert multiset(f) <= multiset(a + f);
    DistinctSubMultiset(a + f, a);
    DistinctSubMultiset(a + f, f);
  }

  /** Appending a block that is in neither list to the allocated list keeps
      the blocks distinct. */
  lemma AppendKeepsDistinct<T>(a: seq<T>, f: seq<T>, m: T)
    requires Distinct(a + f) && m !in a + f
    ensures Distinct((a + [m]) + f)
  {
    DistinctAppend(a + f, m);
    assert multiset((a + [m]) + f) == multiset(a + f + [m]);
    DistinctSubMultiset(a + f + [m], (a + [m]) + f);
  }

  /** Inserting a block that is in neither list into the free list keeps the
      blocks distinct. */
  lemma InsertKeepsDistinct<T>(a: seq<T>, f: seq<T>, i: nat, b: T)
    requires Distinct(a + f) && i <= |f| && b !in a + f
    ensures Distinct(a + (f[..i] + [b] + f[i..]))
  {
    DistinctInsert(a + f, |a| + i, b);
    assert (a + f)[..|a| + i] + [b] + (a + f)[|a| + i..] == a + (f[..i] + [b] + f[i..]);
  }

  /** Free keeps the blocks distinct: it moves allocated entry k to the end
      of the free list. */
  lemma FreeKeepsDistinct<T>(a: seq<T>, f: seq<T>, k: nat)
    requires Distinct(a + f) && k < |a|
    ensures Distinct((a[..k] + a[k + 1..]) + (f + [a[k]]))
  {
    assert a == a[..k] + [a[k]] + a[k + 1..];
    assert multiset((a[..k] + a[k + 1..]) + (f + [a[k]])) == multiset(a + f);
    DistinctSubMultiset(a + f, (a[..k] + a[k + 1..]) + (f + [a[k]]));
  }

  /** Defrag keeps the blocks distinct: the fresh block m takes the place of
      the free list's head. */
  lemma ReplaceHeadKeepsDistinct<T>(a: seq<T>, f: seq<T>, m: T)
    requires Distinct(a + f) && f != [] && m !in a + f
    ensures Distinct(a + ([m] + f[1..]))
  {
    assert f == [f[0]] + f[1..];
    assert multiset(a + f[1..]) <= multiset(a + f);
    DistinctSubMultiset(a + f, a + f[1..]);
    DistinctAppend(a + f[1..], m);
    assert multiset(a + ([m] + f[1..])) == multiset(a + f[1..] + [m]);
    DistinctSubMultiset(a + f[1..] + [m], a + ([m] + f[1..]));
  }

  /** Dropping free entry k keeps the blocks distinct. */
  lemma DropFreeKeepsDistinct<T>(a: seq<T>, f: seq<T>, k: nat)
    requires Distinct(a + f) && k < |f|
    ensures Distinct(a + (f[..k] + f[k + 1..]))
  {
    assert f == f[..k] + [f[k]] + f[k + 1..];
    assert multiset(a + (f[..k] + f[k + 1..])) <= multiset(a + f);
    DistinctSubMultiset(a + f, a + (f[..k] + f[k + 1..]));
  }

  /** The values of the free list after a merge into m of its first two
      (adjacent, and only two) or first three entries are those DefragSpans
      describes. */
  lemma SpansOfDefrag(f: seq<MemoryBlock>, m: MemoryBlock)
    requires |f| >= 2
    requires m.baseAddress == f[0].baseAddress
    requires |f| == 2 ==>
      f[0].baseAddress + f[0].length == f[1].baseAddress && m.length == f[0].length + f[1].length
    requires |f| > 2 ==> m.length == f[0].length + f[1].length + f[2].length
    ensures Spans([m] + f[if |f| == 2 then 2 else 3..]) == DefragSpans(Spans(f))
  {
    var k := if |f| == 2 then 2 else 3;
    assert Spans([m] + f[k..]) == [Span(m.baseAddress, m.length)] + Spans(f)[k..];
  }

  /** Spans distributes over concatenation. */
  lemma SpansConcat(x: seq<MemoryBlock>, y: seq<MemoryBlock>)
    ensures Spans(x + y) == Spans(x) + Spans(y)
  {
    assert |Spans(x + y)| == |Spans(x) + Spans(y)|;
    forall j | 0 <= j < |x + y| ensures Spans(x + y)[j] == (Spans(x) + Spans(y))[j] {
      if j < |x| {
        assert (x + y)[j] == x[j];
      } else {
        assert (x + y)[j] == y[j - |x|];
      }
    }
  }

  /** Spans commutes with taking a prefix or a suffix. */
  lemma SpansSlices(f: seq<MemoryBlock>, i: int)
    requires 0 <= i <= |f|
    ensures Spans(f[..i]) == Spans(f)[..i] && Spans(f[i..]) == Spans(f)[i..]
  {
    assert |Spans(f[i..])| == |Spans(f)[i..]|;
    forall j | 0 <= j < |f| - i ensures Spans(f[i..])[j] == Spans(f)[i..][j] {
      assert f[i..][j] == f[i + j];
    }
  }

  /** The values of the free list after the code's split of entry i into a
      block b of the remaining words are those TakeAt describes. */
  lemma SpansOfTake(f: seq<MemoryBlock>, n: int, i: int, b: MemoryBlock, g: seq<MemoryBlock>)
    requires 0 <= i < |f|
    requires b.baseAddress == f[i].baseAddress + n && b.length == f[i].length - n
    requires var split := f[..i] + [b] + f[i + 1..];
      g == if b.length == 0 then split[1..] else split
    ensures Spans(g) == TakeAt(Spans(f), i, n)
  {
    var split := f[..i] + [b] + f[i + 1..];
    var vs := Spans(f)[..i] + [Span(b.baseAddress, b.length)] + Spans(f)[i + 1..];
    SpansConcat(f[..i] + [b], f[i + 1..]);
    SpansConcat(f[..i], [b]);
    SpansSlices(f, i);
    SpansSlices(f, i + 1);
    assert Spans(split) == vs == Replace(Spans(f), i, Span(b.baseAddress, b.length));
    assert Spans(split[1..]) == vs[1..];
  }

  /** Removing entry i removes its value. */
  lemma SpansOfRemove(f: seq<MemoryBlock>, i: int)
    requires 0 <= i < |f|
    ensures Spans(f[..i] + f[i + 1..]) == Spans(f)[..i] + Spans(f)[i + 1..]
  {
    SpansConcat(f[..i], f[i + 1..]);
    SpansSlices(f, i);
    SpansSlices(f, i + 1);
  }

  /** Appending a block appends its value. */
  lemma SpansAppend(a: seq<MemoryBlock>, m: MemoryBlock)
    ensures Spans(a + [m]) == Spans(a) + [Span(m.baseAddress, m.length)]
  {
    SpansConcat(a, [m]);
  }

  class MemorySpace {
    const allocatedList: LinkedList
    const freeList: LinkedList

    /** Both lists are well formed and own disjoint nodes, and no block object
        is in both lists or twice in one. */
    ghost predicate Valid()
      reads allocatedList, freeList, allocatedList.Repr, freeList.Repr
    {
      allocatedList.Repr !! freeList.Repr &&
      allocatedList.Valid() && freeList.Valid() &&
      Distinct(allocatedList.Contents + freeList.Contents)
    }

    ghost function AllocatedSpans(): seq<Span>
      reads allocatedList
    {
      Spans(allocatedList.Contents)
    }

    ghost function FreeSpans(): seq<Span>
      reads freeList
    {
      Spans(freeList.Contents)
    }

    /** A space of maxSize words: nothing allocated, one free block (0, maxSize). */
    constructor (maxSize: int)
      ensures Valid() && fresh(allocatedList.Repr) && fresh(freeList.Repr)
      ensures allocatedList.Contents == []
      ensures FreeSpans() == [Span(0, maxSize)]
    {
      allocatedList := new LinkedList();
      freeList := new LinkedList();
      new;
      var whole := new MemoryBlock(0, maxSize);
      freeList.AddLast(whole);
    }

    /** First fit: allocates length words from the first free block that is
        long enough, appending the new block to the allocated list, and returns
        its base address; returns -1 and changes nothing when no block fits. */
    method Malloc(length: int) returns (r: int)
      requires Valid()
      modifies allocatedList.Repr, freeList.Repr
      ensures Valid()
      ensures fresh(allocatedList.Repr - old(allocatedList.Repr)) && fresh(freeList.Repr - old(freeList.Repr))
      ensures var f := old(FreeSpans()); var i := FirstFit(f, length);
        if i == -1 then
          r == -1 &&
          freeList.Contents == old(freeList.Contents) &&
          allocatedList.Contents == old(allocatedList.Contents)
        else
          r == f[i].base &&
          FreeSpans() == MallocFree(f, length) &&
          AllocatedSpans() == old(AllocatedSpans()) + [Span(r, length)]
      ensures FirstFit(old(FreeSpans()), length) >= 0 ==>
        var a := old(allocatedList.Contents);
        |allocatedList.Contents| == |a| + 1 && allocatedList.Contents[..|a|] == a &&
        fresh(allocatedList.Contents[|a|])
    {
      var index, current := FindFit(length);
      if current == null {
        return -1;
      }
      ghost var a := allocatedList.Contents;
      var m := TakeFit(index, current.block, length);
      assert allocatedList.Contents[..|a|] == a;
      return m.baseAddress;
    }

    /** The fit itself, once the scan has found the block at position index: a
        new block of length words at its base goes to the end of the allocated
        list, and the free list loses those words as TakeAt says. */
    method TakeFit(index: int, found: MemoryBlock, length: int) returns (m: MemoryBlock)
      requires Valid()
      requires 0 <= index < |freeList.Contents| && freeList.Contents[index] == found
      requires index == FirstFit(FreeSpans(), length)
      modifies allocatedList.Repr, freeList.Repr
      ensures Valid()
      ensures fresh(allocatedList.Repr - old(allocatedList.Repr)) && fresh(freeList.Repr - old(freeList.Repr))
      ensures fresh(m) && m.baseAddress == found.baseAddress && m.length == length
      ensures allocatedList.Contents == old(allocatedList.Contents) + [m]
      ensures AllocatedSpans() == old(AllocatedSpans()) + [Span(found.baseAddress, length)]
      ensures FreeSpans() == MallocFree(old(FreeSpans()), length)
    {
      ghost var a := allocatedList.Contents;
      m := new MemoryBlock(found.baseAddress, length);
      AppendAllocated(m);
      TakeFree(index, found, length);
      SpansAppend(a, m);
    }

    /** The free-list half of the fit, as the code does it. */
    method TakeFree(index: int, found: MemoryBlock, length: int)
      requires Valid()
      requires 0 <= index < |freeList.Contents| && freeList.Contents[index] == found
      requires index == FirstFit(FreeSpans(), length)
      modifies freeList.Repr
      ensures Valid() && fresh(freeList.Repr - old(freeList.Repr))
      ensures allocatedList.Repr == old(allocatedList.Repr)
      ensures allocatedList.Contents == old(allocatedList.Contents)
      ensures FreeSpans() == MallocFree(old(FreeSpans()), length)
    {
      ghost var f := freeList.Contents;
      var b := SplitFreeBlock(index, found, length);
      SpansOfTake(f, length, index, b, freeList.Contents);
    }

    /** Malloc as its documentation describes it: like Malloc, except that an
        exact fit removes the found block from the free list. */
    method MallocIntended(length: int) returns (r: int)
      requires Valid()
      modifies allocatedList.Repr, freeList.Repr
      ensures Valid()
      ensures fresh(allocatedList.Repr - old(allocatedList.Repr)) && fresh(freeList.Repr - old(freeList.Repr))
      ensures var f := old(FreeSpans()); var i := FirstFit(f, length);
        if i == -1 then
          r == -1 &&
          freeList.Contents == old(freeList.Contents) &&
          allocatedList.Contents == old(allocatedList.Contents)
        else
          r == f[i].base &&
          FreeSpans() == MallocFreeIntended(f, length) &&
          AllocatedSpans() == old(AllocatedSpans()) + [Span(r, length)]
    {
      var index, current := FindFit(length);
      if current == null {
        return -1;
      }
      var m := TakeFitIntended(index, current.block, length);
      return m.baseAddress;
    }

    /** The fit of the documented malloc: like TakeFit, except that an exact
        fit unlinks the found block and inserts nothing. */
    method TakeFitIntended(index: int, found: MemoryBlock, length: int) returns (m: MemoryBlock)
      requires Valid()
      requires 0 <= index < |freeList.Contents| && freeList.Contents[index] == found
      requires index == FirstFit(FreeSpans(), length)
      modifies allocatedList.Repr, freeList.Repr
      ensures Valid()
      ensures fresh(allocatedList.Repr - old(allocatedList.Repr)) && fresh(freeList.Repr - old(freeList.Repr))
      ensures m.baseAddress == found.baseAddress
      ensures AllocatedSpans() == old(AllocatedSpans()) + [Span(found.baseAddress, length)]
      ensures FreeSpans() == MallocFreeIntended(old(FreeSpans()), length)
    {
      ghost var a := allocatedList.Contents;
      m := new MemoryBlock(found.baseAddress, length);
      AppendAllocated(m);
      TakeFreeIntended(index, found, length);
      SpansAppend(a, m);
    }

    /** The free-list half of the documented fit: an exact fit unlinks the
        found block, a strict fit splits it in place. */
    method TakeFreeIntended(index: int, found: MemoryBlock, length: int)
      requires Valid()
      requires 0 <= index < |freeList.Contents| && freeList.Contents[index] == found
      requires index == FirstFit(FreeSpans(), length)
      modifies freeList.Repr
      ensures Valid() && fresh(freeList.Repr - old(freeList.Repr))
      ensures allocatedList.Repr == old(allocatedList.Repr)
      ensures allocatedList.Contents == old(allocatedList.Contents)
      ensures FreeSpans() == MallocFreeIntended(old(FreeSpans()), length)
    {
      ghost var f := freeList.Contents;
      if found.length == length {
        UnlinkFree(index, found);
        SpansOfRemove(f, index);
      } else {
        var b := SplitFreeBlock(index, found, length);
        SpansOfTake(f, length, index, b, freeList.Contents);
      }
    }

    /** The scan of malloc: walks the free list from its head to the first
        block at least length words long. */
    method FindFit(length: int) returns (index: int, current: Node?)
      requires freeList.Valid()
      ensures index == FirstFit(FreeSpans(), length)
      ensures current == null <==> index == -1
      ensures current != null ==> current.block == freeList.Contents[index]
    {
      current := freeList.first;
      index := 0;
      while current != null
        invariant 0 <= index <= |freeList.Nodes|
        invariant current == freeList.NodeAt(index)
        invariant forall j :: 0 <= j < index ==> freeList.Contents[j].length < length
        decreases |freeList.Nodes| - index
      {
        if current.block.length >= length {
          return;
        }
        index := index + 1;
        current := current.next;
      }
      index := -1;
    }

    /** The allocated-list half of a fit: the new block goes to the end. */
    method AppendAllocated(m: MemoryBlock)
      requires Valid() && m !in allocatedList.Contents + freeList.Contents
      modifies allocatedList.Repr
      ensures Valid() && fresh(allocatedList.Repr - old(allocatedList.Repr))
      ensures freeList.Repr == old(freeList.Repr)
      ensures allocatedList.Contents == old(allocatedList.Contents) + [m]
      ensures freeList.Contents == old(freeList.Contents)
    {
      AppendKeepsDistinct(allocatedList.Contents, freeList.Contents, m);
      allocatedList.AddLast(m);
    }

    /** The free-list half of a fit at position index: the found block is
        unlinked and a block of its remaining words is inserted at the same
        position; when nothing remains, list position 0 is removed. */
    method SplitFreeBlock(index: int, found: MemoryBlock, length: int) returns (b: MemoryBlock)
      requires Valid()
      requires 0 <= index < |freeList.Contents| && freeList.Contents[index] == found
      modifies freeList.Repr
      ensures Valid() && fresh(freeList.Repr - old(freeList.Repr)) && fresh(b)
      ensures allocatedList.Repr == old(allocatedList.Repr)
      ensures allocatedList.Contents == old(allocatedList.Contents)
      ensures b.baseAddress == found.baseAddress + length && b.length == found.length - length
      ensures var split := old(freeList.Contents)[..index] + [b] + old(freeList.Contents)[index + 1..];
        freeList.Contents == if b.length == 0 then split[1..] else split
    {
      ghost var f := freeList.Contents;
      UnlinkFree(index, found);
      b := new MemoryBlock(found.baseAddress + length, found.length - length);
      InsertFree(index, b);
      RemoveThenInsert(f, index, b);
      if b.length == 0 {
        DropFree(0);
      }
    }

    /** Removes the block found, at free list position index (remove(MemoryBlock)
        of the list). */
    method UnlinkFree(index: int, found: MemoryBlock)
      requires Valid()
      requires 0 <= index < |freeList.Contents| && freeList.Contents[index] == found
      modifies freeList.Repr
      ensures Valid() && freeList.Repr == old(freeList.Repr)
      ensures allocatedList.Repr == old(allocatedList.Repr)
      ensures allocatedList.Contents == old(allocatedList.Contents)
      ensures freeList.Contents == old(freeList.Contents)[..index] + old(freeList.Contents)[index + 1..]
    {
      ghost var a, f := allocatedList.Contents, freeList.Contents;
      DistinctSplit(a, f);
      RemoveFirstDistinct(f, index);
      DropFreeKeepsDistinct(a, f, index);
      var _ := freeList.RemoveBlock(found);
    }

    /** Inserts the block b, which is in neither list, at free list position
        index (add(int, MemoryBlock) of the list). */
    method InsertFree(index: int, b: MemoryBlock)
      requires Valid() && 0 <= index <= |freeList.Contents|
      requires b !in allocatedList.Contents + freeList.Contents
      modifies freeList.Repr
      ensures Valid() && fresh(freeList.Repr - old(freeList.Repr))
      ensures allocatedList.Repr == old(allocatedList.Repr)
      ensures allocatedList.Contents == old(allocatedList.Contents)
      ensures freeList.Contents == old(freeList.Contents)[..index] + [b] + old(freeList.Contents)[index..]
    {
      ghost var a, f := allocatedList.Contents, freeList.Contents;
      InsertKeepsDistinct(a, f, index, b);
      var _ := freeList.Add(index, b);
    }

    /** Moves the first allocated block whose base address is address to the
        end of the free list. Throws when nothing is allocated; a miss on a
        non-empty list changes nothing and is not an error. */
    method Free(address: int) returns (r: Outcome)
      requires Valid()
      modifies allocatedList.Repr, freeList.Repr
      ensures Valid()
      ensures fresh(allocatedList.Repr - old(allocatedList.Repr)) && fresh(freeList.Repr - old(freeList.Repr))
      ensures r.IllegalArgument? <==> old(allocatedList.Contents) == []
      ensures var a, f := old(allocatedList.Contents), old(freeList.Contents);
        var k := AddressIndex(Spans(a), address);
        if k == -1 then
          allocatedList.Contents == a && freeList.Contents == f
        else
          allocatedList.Contents == a[..k] + a[k + 1..] && freeList.Contents == f + [a[k]]
    {
      var n := allocatedList.GetSize();
      if n == 0 {
        return IllegalArgument;
      }
      var current := allocatedList.first;
      var targetBlock: MemoryBlock? := null;
      ghost var k := 0;
      while current != null
        invariant 0 <= k <= |allocatedList.Nodes|
        invariant current == allocatedList.NodeAt(k)
        invariant targetBlock == null
        invariant forall j :: 0 <= j < k ==> allocatedList.Contents[j].baseAddress != address
        decreases |allocatedList.Nodes| - k
      {
        var newBlock := current.block;
        if newBlock.baseAddress == address {
          targetBlock := newBlock;
          break;
        }
        current := current.next;
        k := k + 1;
      }
      if targetBlock != null {
        assert AddressIndex(Spans(allocatedList.Contents), address) == k;
        MoveToFree(k, targetBlock);
      } else {
        assert AddressIndex(Spans(allocatedList.Contents), address) == -1;
      }
      return Done;
    }

    /** The list half of a hit: the block at allocated position k is removed
        from the allocated list (remove(MemoryBlock) of the list) and appended
        to the free list. */
    method MoveToFree(ghost k: int, target: MemoryBlock)
      requires Valid() && 0 <= k < |allocatedList.Contents| && allocatedList.Contents[k] == target
      modifies allocatedList.Repr, freeList.Repr
      ensures Valid()
      ensures fresh(allocatedList.Repr - old(allocatedList.Repr)) && fresh(freeList.Repr - old(freeList.Repr))
      ensures var a := old(allocatedList.Contents);
        allocatedList.Contents == a[..k] + a[k + 1..] &&
        freeList.Contents == old(freeList.Contents) + [target]
    {
      ghost var a, f := allocatedList.Contents, freeList.Contents;
      DistinctSplit(a, f);
      RemoveFirstDistinct(a, k);
      var _ := allocatedList.RemoveBlock(target);
      freeList.AddLast(target);
      FreeKeepsDistinct(a, f, k);
    }

    /** Merges the first two free blocks when they are adjacent, or the first
        three free blocks whether or not they are adjacent; the allocated list
        is never touched. */
    method Defrag()
      requires Valid()
      modifies allocatedList.Repr, freeList.Repr
      ensures Valid()
      ensures fresh(allocatedList.Repr - old(allocatedList.Repr)) && fresh(freeList.Repr - old(freeList.Repr))
      ensures allocatedList.Contents == old(allocatedList.Contents)
      ensures FreeSpans() == DefragSpans(old(FreeSpans()))
    {
      var size := freeList.GetSize();
      if size < 2 {
        return;
      }
      ghost var f := freeList.Contents;
      var head := freeList.GetFirst();
      var length1 := head.block.length;
      assert head.next == freeList.Nodes[1];
      var length2 := head.next.block.length;
      if size == 2 {
        if head.block.baseAddress + length1 == head.next.block.baseAddress {
          var m := new MemoryBlock(head.block.baseAddress, length1 + length2);
          MergeHead(m, 2);
          SpansOfDefrag(f, m);
        }
      } else if size > 2 {
        assert head.next.next == freeList.Nodes[2];
        var length3 := head.next.next.block.length;
        var m := new MemoryBlock(head.block.baseAddress, length1 + length2 + length3);
        MergeHead(m, 3);
        SpansOfDefrag(f, m);
      }
    }

    /** The list surgery of a merge: the head node takes the fresh block m, and
        the next count - 1 free entries are removed, the farther one first. */
    method MergeHead(m: MemoryBlock, count: int)
      requires Valid() && (count == 2 || count == 3) && count <= |freeList.Contents|
      requires m !in allocatedList.Contents + freeList.Contents
      modifies freeList.Repr
      ensures Valid() && freeList.Repr == old(freeList.Repr)
      ensures allocatedList.Repr == old(allocatedList.Repr)
      ensures freeList.Contents == [m] + old(freeList.Contents)[count..]
    {
      ReplaceHeadThenDrop(freeList.Contents, m, count);
      ReplaceHead(m);
      if count == 3 {
        DropFree(2);
      }
      DropFree(1);
    }

    /** Removes free list position k (remove(int) of the list). */
    method DropFree(k: int)
      requires Valid() && 0 <= k < |freeList.Contents|
      modifies freeList.Repr
      ensures Valid() && freeList.Repr == old(freeList.Repr)
      ensures allocatedList.Repr == old(allocatedList.Repr)
      ensures allocatedList.Contents == old(allocatedList.Contents)
      ensures freeList.Contents == old(freeList.Contents)[..k] + old(freeList.Contents)[k + 1..]
    {
      ghost var a, f := allocatedList.Contents, freeList.Contents;
      DistinctSplit(a, f);
      RemoveFirstDistinct(f, k);
      DropFreeKeepsDistinct(a, f, k);
      var _ := freeList.RemoveAt(k);
    }

    /** The head node of the free list is made to point at the fresh block m. */
    method ReplaceHead(m: MemoryBlock)
      requires Valid() && freeList.Contents != []
      requires m !in allocatedList.Contents + freeList.Contents
      modifies freeList.Nodes[0], freeList`Contents
      ensures Valid()
      ensures freeList.Contents == [m] + old(freeList.Contents)[1..]
    {
      ReplaceHeadKeepsDistinct(allocatedList.Contents, freeList.Contents, m);
      var head := freeList.first;
      head.block := m;
      freeList.Contents := [m] + freeList.Contents[1..];
    }
  }

  /** The round trip malloc(n) then free of the address it returned: when a
      block fits and no allocated block already starts at its base, the
      allocated list comes back as it was and the free list is the one malloc
      left with (base, n) appended. */
  method MallocThenFree(space: MemorySpace, n: int) returns (r: int)
    requires space.Valid()
    modifies space.allocatedList.Repr, space.freeList.Repr
    ensures space.Valid()
    ensures var f := old(space.FreeSpans()); var i := FirstFit(f, n);
      i >= 0 && AddressIndex(old(space.AllocatedSpans()), f[i].base) == -1 ==>
        r == f[i].base &&
        space.allocatedList.Contents == old(space.allocatedList.Contents) &&
        space.FreeSpans() == MallocFree(f, n) + [Span(r, n)]
  {
    ghost var a, f := space.allocatedList.Contents, space.FreeSpans();
    r := space.Malloc(n);
    ghost var am, fm := space.allocatedList.Contents, space.freeList.Contents;
    var _ := space.Free(r);
    if FirstFit(f, n) >= 0 && AddressIndex(Spans(a), r) == -1 {
      FreeUndoesAppend(a, am, fm, r, n);
    }
  }

  /** What free(addr) finds after malloc appended (addr, n) to an allocated
      list a holding no other block at addr: the appended block, whose removal
      gives a back and whose move appends (addr, n) to the free list. */
  lemma FreeUndoesAppend(a: seq<MemoryBlock>, am: seq<MemoryBlock>, fm: seq<MemoryBlock>, addr: int, n: int)
    requires |am| == |a| + 1 && am[..|a|] == a
    requires Spans(am) == Spans(a) + [Span(addr, n)]
    requires AddressIndex(Spans(a), addr) == -1
    ensures var k := AddressIndex(Spans(am), addr);
      k == |a| && am[..k] + am[k + 1..] == a && Spans(fm + [am[k]]) == Spans(fm) + [Span(addr, n)]
  {
    FreeFindsLastAllocated(Spans(a), addr, n);
    assert am[..|a|] + am[|a| + 1..] == a;
    assert Spans(am)[|a|] == Span(addr, n);
    SpansAppend(fm, am[|a|]);
  }

  /** Two allocations from a fresh space of 100 words: 20 words at 0, then 30
      words at 20, leaving the free block (50, 50). */
  method ScenarioTwoAllocations() returns (r1: int, r2: int, space: MemorySpace)
    ensures space.Valid() && fresh(space.allocatedList.Repr) && fresh(space.freeList.Repr)
    ensures r1 == 0 && r2 == 20
    ensures space.FreeSpans() == [Span(50, 50)]
    ensures space.AllocatedSpans() == [Span(0, 20), Span(20, 30)]
  {
    space := new MemorySpace(100);
    r1 := space.Malloc(20);
    assert [Span(20, 80)][1..] == [];
    r2 := space.Malloc(30);
  }

  /** Two exact halves of a space of 10 words: the second allocation leaves
      the empty leftover at the head, and malloc drops it, so no free block
      remains. */
  method ScenarioExactHalves() returns (r1: int, r2: int, space: MemorySpace)
    ensures space.Valid()
    ensures r1 == 0 && r2 == 5
    ensures space.FreeSpans() == []
  {
    space := new MemorySpace(10);
    r1 := space.Malloc(5);
    assert [Span(5, 5)][1..] == [];
    r2 := space.Malloc(5);
  }

  /** A freed block goes to the tail of the free list, so the next fit is
      found in list order, not address order: after freeing (0, 20), malloc(10)
      is served from (50, 50). */
  method ScenarioListOrder() returns (r: int, space: MemorySpace)
    ensures space.Valid()
    ensures r == 50
    ensures space.FreeSpans() == [Span(60, 40), Span(0, 20)]
    ensures space.AllocatedSpans() == [Span(20, 30), Span(50, 10)]
  {
    var r1, r2;
    r1, r2, space := ScenarioTwoAllocations();
    var _ := space.Free(0);
    assert space.FreeSpans() == [Span(50, 50), Span(0, 20)];
    r := space.Malloc(10);
  }
}
