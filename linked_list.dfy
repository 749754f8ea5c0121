/** A singly linked list of memory blocks with a cached tail pointer and a size
    counter. Blocks are objects: the list finds them by reference, never by
    the values of their fields. */
module LinkedLists {
  import opened Sequences

  /** A range of words [baseAddress, baseAddress + length). Its fields never
      change; two blocks are the same block only when they are the same object. */
  class MemoryBlock {
    const baseAddress: int
    const length: int

    constructor (baseAddress: int, length: int)
      ensures this.baseAddress == baseAddress && this.length == length
    {
      this.baseAddress := baseAddress;
      this.length := length;
    }
  }

  /** One link of the chain: the block it points to and its successor. */
  class Node {
    var block: MemoryBlock
    var next: Node?

    constructor (block: MemoryBlock)
      ensures this.block == block && next == null
    {
      this.block := block;
      next := null;
    }
  }

  /** How an operation that can throw IllegalArgumentException ended. */
  datatype Outcome = Done | IllegalArgument

  /** A value, or the IllegalArgumentException an operation threw instead. */
  datatype Result<T> = Ok(value: T) | Failure

  class LinkedList {
    var first: Node?
    var last: Node?
    var size: int

    /** The blocks in list order, the nodes holding them, and the objects the list owns. */
    ghost var Contents: seq<MemoryBlock>
    ghost var Nodes: seq<Node>
    ghost var Repr: set<object>

    /** The chain: Nodes is what is reachable from first, in order and without
        repeats, ending in a node whose next is null; size counts it. */
    ghost predicate Linked()
      reads this`first, this`size, this`Nodes, this`Contents, this`Repr, Repr - {this}
    {
      this in Repr &&
      |Nodes| == |Contents| == size &&
      (forall i :: 0 <= i < |Nodes| ==> Nodes[i] in Repr) &&
      (forall i :: 0 <= i < |Nodes| ==> Nodes[i].block == Contents[i]) &&
      (forall i :: 0 <= i < |Nodes| - 1 ==> Nodes[i].next == Nodes[i + 1]) &&
      Distinct(Nodes) &&
      (if Nodes == [] then first == null
       else first == Nodes[0] && Nodes[|Nodes| - 1].next == null)
    }

    /** Class invariant: the chain is well formed, and last is null exactly when
        the list is empty and otherwise the final node. */
    ghost predicate Valid()
      reads this, Repr
    {
      Linked() && last == (if Nodes == [] then null else Nodes[|Nodes| - 1])
    }

    /** The node at position k, or null one past the end. */
    ghost function NodeAt(k: int): Node?
      reads this
      requires 0 <= k <= |Nodes|
    {
      if k < |Nodes| then Nodes[k] else null
    }

    constructor ()
      ensures Valid() && fresh(Repr)
      ensures Contents == []
    {
      first := null;
      last := first;
      size := 0;
      Contents, Nodes := [], [];
      Repr := {this};
    }

    method GetFirst() returns (r: Node?)
      requires Valid()
      ensures r == NodeAt(0)
      ensures r == null <==> Contents == []
      ensures r != null ==> r.block == Contents[0]
    {
      r := first;
    }

    method GetLast() returns (r: Node?)
      requires Valid()
      ensures r == null <==> Contents == []
      ensures r != null ==> r == Nodes[|Nodes| - 1] && r.next == null && r.block == Contents[|Contents| - 1]
    {
      r := last;
    }

    method GetSize() returns (r: int)
      requires Valid()
      ensures r == |Contents|
    {
      r := size;
    }

    /** The node at position index; one past the end this is null. */
    method GetNode(index: int) returns (r: Result<Node?>)
      requires Valid()
      ensures r.Ok? <==> 0 <= index <= |Contents|
      ensures r.Ok? ==> r.value == NodeAt(index)
      ensures r.Ok? ==> (r.value == null <==> index == |Contents|)
      ensures r.Ok? && r.value != null ==> r.value.block == Contents[index]
    {
      if index < 0 || index > size {
        return Failure;
      }
      var current := first;
      var n := 0;
      if index == 0 {
        return Ok(current);
      }
      while n < index
        invariant 0 <= n <= index
        invariant current == NodeAt(n)
      {
        current := current.next;
        n := n + 1;
      }
      return Ok(current);
    }

    /** Inserts block before position index: at the head and at the tail in O(1). */
    method Add(index: int, block: MemoryBlock) returns (r: Outcome)
      requires Valid()
      modifies Repr
      ensures Valid() && fresh(Repr - old(Repr))
      ensures r.Done? <==> 0 <= index <= old(|Contents|)
      ensures r.Done? ==> Contents == old(Contents)[..index] + [block] + old(Contents)[index..]
      ensures r.IllegalArgument? ==> Contents == old(Contents)
    {
      if index < 0 || index > size {
        return IllegalArgument;
      }
      var newNode := new Node(block);
      if size == 0 {
        first := newNode;
        last := newNode;
        size := size + 1;
        Contents, Nodes := [block], [newNode];
        Repr := Repr + {newNode};
      } else if index == 0 {
        AddFirst(block);
      } else if index == size {
        AddLast(block);
      } else {
        var found := GetNode(index - 1);
        LinkAfter(found.value, newNode, index);
      }
      return Done;
    }

    /** The middle case of Add: splices newNode in between prev, at position
        index - 1, and its successor. */
    method LinkAfter(prev: Node, newNode: Node, index: int)
      requires Valid()
      requires 0 < index < |Nodes| && prev == Nodes[index - 1]
      requires newNode !in Repr
      modifies Repr, newNode
      ensures Valid() && Repr == old(Repr) + {newNode}
      ensures Contents == old(Contents)[..index] + [old(newNode.block)] + old(Contents)[index..]
    {
      ghost var nodes := Nodes[..index] + [newNode] + Nodes[index..];
      ghost var contents := Contents[..index] + [newNode.block] + Contents[index..];
      forall i | 0 <= i < |nodes|
        ensures nodes[i] in Repr + {newNode} && nodes[i].block == contents[i]
      {
        if i < index {
          assert nodes[i] == Nodes[i] && contents[i] == Contents[i];
        } else if index < i {
          assert nodes[i] == Nodes[i - 1] && contents[i] == Contents[i - 1];
        }
      }
      DistinctInsert(Nodes, index, newNode);
      newNode.next := prev.next;
      prev.next := newNode;
      size := size + 1;
      forall i | 0 <= i < |nodes| - 1
        ensures nodes[i].next == nodes[i + 1]
      {
        if i < index - 1 {
          assert nodes[i] == Nodes[i] != prev;
        } else if index < i {
          assert nodes[i] == Nodes[i - 1] != prev;
        }
      }
      Contents, Nodes := contents, nodes;
      Repr := Repr + {newNode};
    }

    method AddLast(block: MemoryBlock)
      requires Valid()
      modifies Repr
      ensures Valid() && fresh(Repr - old(Repr))
      ensures Contents == old(Contents) + [block]
      ensures last != null && last.block == block
    {
      size := size + 1;
      var newNode := new Node(block);
      if first == null {
        first := newNode;
        last := newNode;
      } else {
        last.next := newNode;
        last := newNode;
      }
      Contents, Nodes := Contents + [block], Nodes + [newNode];
      Repr := Repr + {newNode};
    }

    method AddFirst(block: MemoryBlock)
      requires Valid()
      modifies Repr
      ensures Valid() && fresh(Repr - old(Repr))
      ensures Contents == [block] + old(Contents)
      ensures first != null && first.block == block
    {
      var newNode := new Node(block);
      if size == 0 {
        first := newNode;
        last := newNode;
      } else {
        newNode.next := first;
        first := newNode;
      }
      size := size + 1;
      Contents, Nodes := [block] + Contents, [newNode] + Nodes;
      Repr := Repr + {newNode};
    }

    /** The block at position index. Index == size on a non-empty list would
        dereference null, so callers may not ask for it. */
    method GetBlock(index: int) returns (r: Result<MemoryBlock>)
      requires Valid()
      requires index == |Contents| ==> Contents == []
      ensures r.Ok? <==> 0 <= index < |Contents|
      ensures r.Ok? ==> r.value == Contents[index]
    {
      if (index < 0 || index > size) || size == 0 {
        return Failure;
      }
      var current := first;
      var i := 0;
      while i < index
        invariant 0 <= i <= index
        invariant current == NodeAt(i)
      {
        current := current.next;
        i := i + 1;
      }
      return Ok(current.block);
    }

    /** The least position holding this very block, or -1. */
    method IndexOf(block: MemoryBlock) returns (r: int)
      requires Valid()
      ensures r == -1 <==> block !in Contents
      ensures r != -1 ==> 0 <= r < |Contents| && Contents[r] == block && block !in Contents[..r]
    {
      var current := first;
      var i := 0;
      while current != null
        invariant 0 <= i <= |Nodes|
        invariant current == NodeAt(i)
        invariant block !in Contents[..i]
        decreases |Nodes| - i
      {
        if current.block == block {
          return i;
        }
        assert Contents[..i + 1] == Contents[..i] + [Contents[i]];
        current := current.next;
        i := i + 1;
      }
      assert Contents[..i] == Contents;
      return -1;
    }

    /** Unlinks the first node whose block is node's block (the same object),
        then finds the new tail by walking from the head. A block that is not
        in the list would dereference null, so callers may not pass one. */
    method RemoveNode(node: Node)
      requires Valid()
      requires node.block in Contents
      modifies Repr
      ensures Valid() && Repr == old(Repr)
      ensures Contents == RemoveFirst(old(Contents), old(node.block))
    {
      ghost var b := node.block;
      var prev: Node? := null;
      var current := first;
      ghost var k := 0;
      while current != null && current.block != node.block
        invariant 0 <= k <= |Nodes|
        invariant current == NodeAt(k)
        invariant prev == (if k == 0 then null else Nodes[k - 1])
        invariant b !in Contents[..k]
        decreases |Nodes| - k
      {
        assert Contents[..k + 1] == Contents[..k] + [Contents[k]];
        prev := current;
        current := current.next;
        k := k + 1;
      }
      FirstIndexAt(Contents, k);
      Unlink(prev, current, k);
      ResetLast();
    }

    /** The middle of a removal: bypasses current, the node at position k,
        whose predecessor is prev (null at the head), and counts one node fewer.
        The tail pointer is left for ResetLast. */
    method Unlink(prev: Node?, current: Node, ghost k: int)
      requires Valid()
      requires 0 <= k < |Nodes| && current == Nodes[k]
      requires prev == (if k == 0 then null else Nodes[k - 1])
      modifies Repr
      ensures Linked() && Repr == old(Repr)
      ensures Contents == old(Contents)[..k] + old(Contents)[k + 1..]
    {
      ghost var nodes := Nodes[..k] + Nodes[k + 1..];
      ghost var contents := Contents[..k] + Contents[k + 1..];
      forall i | 0 <= i < |nodes|
        ensures nodes[i] in Repr && nodes[i].block == contents[i]
      {
        if i < k {
          assert nodes[i] == Nodes[i] && contents[i] == Contents[i];
        } else {
          assert nodes[i] == Nodes[i + 1] && contents[i] == Contents[i + 1];
        }
      }
      DistinctRemoveAt(Nodes, k);
      if prev == null {
        first := first.next;
      } else {
        prev.next := current.next;
      }
      forall i | 0 <= i < |nodes| - 1
        ensures nodes[i].next == nodes[i + 1]
      {
        if i < k - 1 {
          assert nodes[i] == Nodes[i] != prev;
        } else if k <= i {
          assert nodes[i] == Nodes[i + 1] != prev;
        }
      }
      Contents, Nodes := contents, nodes;
      size := size - 1;
    }

    /** The end of a removal: with the chain already relinked, points last at
        the final node again, walking from the head when there are two or more. */
    method ResetLast()
      requires Linked()
      modifies this`last
      ensures Valid()
    {
      if size == 0 {
        last := null;
      } else if size == 1 {
        last := first;
      } else {
        var findLast := first;
        ghost var j := 0;
        while findLast.next != null
          invariant 0 <= j < |Nodes|
          invariant findLast == Nodes[j] && findLast.next == NodeAt(j + 1)
          decreases |Nodes| - j
        {
          findLast := findLast.next;
          j := j + 1;
        }
        last := findLast;
      }
    }

    /** Removes the first occurrence of the block stored at position index. */
    method RemoveAt(index: int) returns (r: Outcome)
      requires Valid()
      requires index == |Contents| ==> Contents == []
      modifies Repr
      ensures Valid() && Repr == old(Repr)
      ensures r.Done? <==> 0 <= index < old(|Contents|)
      ensures r.Done? ==> Contents == RemoveFirst(old(Contents), old(Contents)[index])
      ensures r.IllegalArgument? ==> Contents == old(Contents)
    {
      if index < 0 || index > size {
        return IllegalArgument;
      }
      var found := GetBlock(index);
      if found.Failure? {
        return IllegalArgument;
      }
      var newNode := new Node(found.value);
      RemoveNode(newNode);
      return Done;
    }

    /** Removes the first occurrence of this very block; throws when it is absent. */
    method RemoveBlock(block: MemoryBlock) returns (r: Outcome)
      requires Valid()
      modifies Repr
      ensures Valid() && Repr == old(Repr)
      ensures r.Done? <==> block in old(Contents)
      ensures r.Done? ==> Contents == RemoveFirst(old(Contents), block)
      ensures r.IllegalArgument? ==> Contents == old(Contents)
    {
      var current := first;
      var n := 0;
      ghost var i := 0;
      while current != null
        invariant 0 <= i <= |Nodes|
        invariant current == NodeAt(i)
        invariant n == 0 && block !in Contents[..i]
        decreases |Nodes| - i
      {
        if current.block == block {
          n := n + 1;
          break;
        }
        assert Contents[..i + 1] == Contents[..i] + [Contents[i]];
        current := current.next;
        i := i + 1;
      }
      if n == 0 {
        assert Contents[..i] == Contents;
        return IllegalArgument;
      }
      var newNode := new Node(block);
      RemoveNode(newNode);
      return Done;
    }
  }
}
