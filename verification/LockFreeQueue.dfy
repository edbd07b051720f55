/** The queue's code on real nodes, one call at a time: what each call does to the contents. */
module LockFreeQueue {
  import opened Bytes

  class BufferNode<T> {
    var data: Option<T>
    var next: BufferNode?<T>

    constructor (data: Option<T>)
      ensures this.data == data && next == null
    {
      this.data := data;
      next := null;
    }
  }

  class Queue<T> {
    var head: BufferNode<T>
    var tail: BufferNode<T>
    /** The nodes from `tail` to `head`; the first one is spent. */
    ghost var spine: seq<BufferNode<T>>
    /** The nodes that were deleted, in that order. */
    ghost var deleted: seq<BufferNode<T>>

    ghost predicate Valid()
      reads this, spine
    {
      && spine != [] && spine[0] == tail && spine[|spine| - 1] == head
      && (forall i, j :: 0 <= i < j < |spine| ==> spine[i] != spine[j])
      && (forall i, j :: 0 <= i < j < |deleted| ==> deleted[i] != deleted[j])
      && (forall i, j :: 0 <= i < |deleted| && 0 <= j < |spine| ==> deleted[i] != spine[j])
      && head.next == null
      && (forall i :: 0 < i < |spine| ==> spine[i - 1].next == spine[i] && spine[i].data.Some?)
    }

    ghost function Contents(): (r: seq<T>)
      requires Valid()
      reads this, spine
      ensures |r| == |spine| - 1
    {
      seq(|spine| - 1, i requires 0 <= i < |spine| - 1 && Valid() reads this, spine => spine[i + 1].data.value)
    }

    lemma TailLink()
      requires Valid()
      ensures tail.next == if |spine| == 1 then null else spine[1]
    {
      if |spine| > 1 {
        assert spine[1 - 1].next == spine[1];
      }
    }

    constructor ()
      ensures Valid() && Contents() == [] && fresh(spine) && deleted == []
    {
      var dummy := new BufferNode<T>(None);
      head := dummy;
      tail := dummy;
      spine := [dummy];
      deleted := [];
    }

    method Enqueue(input: T)
      requires Valid()
      modifies this, head
      ensures Valid() && Contents() == old(Contents()) + [input]
      ensures old(spine) <= spine && fresh(spine[|old(spine)|..]) && deleted == old(deleted)
    {
      var node := new BufferNode(Some(input));
      var prevhead := head;
      head := node;
      prevhead.next := node;
      spine := spine + [node];
    }

    /** Answers false and leaves `output` as it was when the queue is empty. */
    method Dequeue(output: T) returns (taken: bool, value: T)
      requires Valid()
      modifies this, tail.next
      ensures Valid() && head == old(head)
      ensures taken <==> old(Contents()) != []
      ensures if taken then value == old(Contents())[0] && Contents() == old(Contents())[1..] &&
              spine == old(spine)[1..] && deleted == old(deleted) + [old(tail)]
              else value == output && Contents() == old(Contents()) && spine == old(spine) && deleted == old(deleted)
    {
      TailLink();
      var next := tail.next;
      if next == null {
        return false, output;
      }
      value := next.data.value;
      next.data := None;
      deleted := deleted + [tail];
      tail := next;
      spine := spine[1..];
      return true, value;
    }

    method Empty() returns (r: bool)
      requires Valid()
      ensures r <==> Contents() == []
    {
      TailLink();
      r := tail.next == null;
    }

    lemma NothingBehind()
      requires Valid() && Contents() == []
      ensures spine == [head]
      ensures forall i, j :: 0 <= i < j <= |deleted| ==> (deleted + [head])[i] != (deleted + [head])[j]
    {
      assert |spine| == 1;
    }

    /** The destructor; `drained` is what its loop takes out, before the node that is left is deleted. */
    method Drain(output: T) returns (drained: seq<T>)
      requires Valid()
      modifies this, spine
      ensures drained == old(Contents())
      ensures deleted == old(deleted) + old(spine)
      ensures forall i, j :: 0 <= i < j < |deleted| ==> deleted[i] != deleted[j]
    {
      hide Valid, Contents;
      ghost var all, nodes, gone := Contents(), spine, deleted;
      drained := [];
      var taken, value := true, output;
      assert all[0..] == all && nodes[0..] == nodes;
      while taken
        modifies this, spine
        invariant Valid() && head == old(head)
        invariant |drained| <= |all| && drained == all[..|drained|] && Contents() == all[|drained|..]
        invariant |drained| <= |nodes| && spine == nodes[|drained|..] && deleted == gone + nodes[..|drained|]
        invariant !taken ==> Contents() == []
        decreases taken, |all| - |drained|
      {
        ghost var k := |drained|;
        TailIsThere();
        assert gone + nodes[..k] + [nodes[k]] == gone + (nodes[..k] + [nodes[k]]);
        taken, value := Dequeue(value);
        if taken {
          NextOf(all, nodes, k);
          drained := drained + [value];
        }
      }
      NothingBehind();
      deleted := deleted + [head];
      assert nodes == nodes[..|drained|] + [head];
    }

    lemma TailIsThere()
      requires Valid()
      ensures spine != [] && tail == spine[0] && (tail.next != null ==> tail.next in spine)
    {
      TailLink();
    }
  }

  lemma NextOf<S, T>(s: seq<S>, t: seq<T>, k: nat)
    requires k < |s| && k < |t|
    ensures s[k..][0] == s[k] && s[k..][1..] == s[k + 1..] && s[..k] + [s[k]] == s[..k + 1]
    ensures t[k..][1..] == t[k + 1..] && t[..k] + [t[k]] == t[..k + 1]
  {
  }
}
