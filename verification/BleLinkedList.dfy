/**
 The singly linked list that holds services, characteristics, descriptors and
 the attribute table. A node is shared by `root`, `last` and the `next` field of
 the node before it; the class refines a sequence.
 */
module BleLinkedList {

  /** What `get` returns: `T()` for an index past the end, the item otherwise. */
  datatype Lookup<T> = Default | Item(value: T)

  class Node<T> {
    var data: T
    var next: Node?<T>

    constructor (item: T)
      ensures data == item && next == null
    {
      data := item;
      next := null;
    }
  }

  class LinkedList<T> {
    var size: nat
    var root: Node?<T>
    var last: Node?<T>
    ghost var spine: seq<Node<T>>
    ghost var contents: seq<T>

    /** The chain from `root` visits `spine` in order, never meets a node twice,
        ends in `last`, and spells out `contents`. */
    ghost predicate Valid()
      reads this, spine
    {
      && size == |spine| == |contents|
      && (size == 0 ==> root == null && last == null)
      && (size > 0 ==> root == spine[0] && last == spine[size - 1] && spine[size - 1].next == null)
      && (forall i :: 0 <= i < size - 1 ==> spine[i].next == spine[i + 1])
      && (forall i, j :: 0 <= i < j < size ==> spine[i] != spine[j])
      && (forall i :: 0 <= i < size ==> spine[i].data == contents[i])
    }

    constructor ()
      ensures Valid() && contents == [] && spine == []
    {
      size, root, last := 0, null, null;
      spine, contents := [], [];
    }

    method Add(item: T)
      requires Valid()
      modifies this, last
      ensures Valid() && contents == old(contents) + [item]
      ensures last != null && fresh(last) && spine == old(spine) + [last]
    {
      var itemNode := new Node(item);
      if root == null {
        root := itemNode;
      } else {
        last.next := itemNode;
      }
      last := itemNode;
      size := size + 1;
      spine := spine + [itemNode];
      contents := contents + [item];
    }

    method Get(index: nat) returns (r: Lookup<T>)
      requires Valid()
      ensures r == if index < |contents| then Item(contents[index]) else Default
    {
      if index >= size {
        return Default;
      }
      var itemNode := root;
      for i := 0 to index
        invariant itemNode == spine[i]
      {
        itemNode := itemNode.next;
      }
      r := Item(itemNode.data);
    }

    /** Walks `size` links, releasing each node once, and forgets the chain. */
    method Clear() returns (ghost released: seq<Node<T>>)
      requires Valid()
      modifies this
      ensures Valid() && contents == [] && spine == []
      ensures released == old(spine)
    {
      var itemNode := root;
      released := [];
      for i := 0 to size
        invariant released == spine[..i]
        invariant itemNode == if i < size then spine[i] else null
      {
        var n := itemNode;
        itemNode := itemNode.next;
        released := released + [n];
      }
      size, root, last := 0, null, null;
      spine, contents := [], [];
    }
  }

  /** The operations of a run; `RunOps` and `AnswersOf` say what a sequence does with them. */
  datatype Op<T> = Add(item: T) | Get(index: nat) | Clear

  function RunOps<T>(ops: seq<Op<T>>): seq<T> {
    if ops == [] then []
    else
      var before := RunOps(ops[..|ops| - 1]);
      match ops[|ops| - 1]
      case Add(x) => before + [x]
      case Get(_) => before
      case Clear => []
  }

  function AnswersOf<T>(ops: seq<Op<T>>): seq<Lookup<T>> {
    if ops == [] then []
    else
      var held, op := RunOps(ops[..|ops| - 1]), ops[|ops| - 1];
      AnswersOf(ops[..|ops| - 1]) +
      if !op.Get? then [] else if op.index < |held| then [Item(held[op.index])] else [Default]
  }

  /** Every interleaving of additions, lookups and clears on the linked list answers as
      the same operations on a sequence, and leaves what they leave there. */
  method Run<T>(ops: seq<Op<T>>) returns (list: LinkedList<T>, answers: seq<Lookup<T>>)
    ensures fresh(list) && list.Valid() && list.contents == RunOps(ops)
    ensures answers == AnswersOf(ops)
  {
    list := new LinkedList<T>();
    answers := [];
    for i := 0 to |ops|
      invariant fresh(list) && list.Valid() && list.contents == RunOps(ops[..i])
      invariant answers == AnswersOf(ops[..i])
      invariant forall n :: n in list.spine ==> fresh(n)
    {
      assert ops[..i + 1][..i] == ops[..i];
      assert list.last != null ==> list.last in list.spine;
      match ops[i] {
        case Add(x) => list.Add(x);
        case Get(k) =>
          var item := list.Get(k);
          answers := answers + [item];
        case Clear => ghost var _ := list.Clear();
      }
    }
    assert ops[..|ops|] == ops;
  }
}
