/** The doubly linked deque of deque.js.

    `nodes` is the ghost list of the nodes from `head` to `tail` and
    `content` the items they hold, so every operation is stated on
    `content` while the code relinks the nodes as the source does. */
module Deques {
  import opened Wrappers

  /** `Node`: one item, never reassigned in the source, and its two links. */
  class Node<T> {
    const value: T
    var next: Node?<T>
    var prev: Node?<T>

    /** `constructor(value)`: an unlinked node. */
    constructor(value: T)
      ensures this.value == value && next == null && prev == null
    {
      this.value := value;
      next := null;
      prev := null;
    }
  }

  class Deque<T> {
    var head: Node?<T>
    var tail: Node?<T>
    var size: int
    ghost var nodes: seq<Node<T>>
    ghost var content: seq<T>
    ghost var Repr: set<object>

    /** The nodes are distinct and linked both ways in order, `head` and
        `tail` are the ends (both `null` exactly when the deque is
        empty), the ends' outer links are `null`, and `size` counts the
        nodes. */
    ghost predicate Valid()
      reads this, Repr
    {
      size == |nodes| == |content| &&
      (forall i :: 0 <= i < |nodes| ==> nodes[i] in Repr) &&
      (forall i, j :: 0 <= i < j < |nodes| ==> nodes[i] != nodes[j]) &&
      (forall i :: 0 <= i < |nodes| ==> nodes[i].value == content[i]) &&
      (forall i :: 0 <= i < |nodes| - 1 ==> nodes[i].next == nodes[i + 1]) &&
      (forall i :: 0 < i < |nodes| ==> nodes[i].prev == nodes[i - 1]) &&
      if nodes == [] then
        head == null && tail == null
      else
        head == nodes[0] && tail == nodes[|nodes| - 1] && head.prev == null && tail.next == null
    }

    /** `constructor()`: no nodes. */
    constructor()
      ensures Valid() && content == [] && fresh(Repr)
    {
      head, tail, size := null, null, 0;
      nodes, content, Repr := [], [], {};
    }

    /** `isEmpty()` tests `head`. */
    function IsEmpty(): (b: bool)
      reads this, Repr
      requires Valid()
      ensures b <==> content == []
    {
      head == null
    }

    /** `size()`. */
    function Size(): (n: int)
      reads this, Repr
      requires Valid()
      ensures n == |content|
    {
      size
    }

    /** `addFirst(item)`: `null` or `undefined` is refused and nothing
        changes; otherwise a new node goes in front. */
    method AddFirst(item: Option<T>) returns (o: Outcome)
      requires Valid()
      modifies this, Repr
      ensures Valid() && fresh(Repr - old(Repr))
      ensures item.None? ==> o == Fail(IllegalArgument) && content == old(content)
      ensures item.Some? ==> o == Pass && content == [item.value] + old(content)
    {
      if item.None? {
        return Fail(IllegalArgument);
      }
      var node := new Node(item.value);
      if head != null {
        node.next := head;
        head.prev := node;
        head := node;
      } else {
        tail, head := node, node;
      }
      size := size + 1;
      nodes, content, Repr := [node] + nodes, [item.value] + content, Repr + {node};
      return Pass;
    }

    /** `addLast(item)`: `null` or `undefined` is refused and nothing
        changes; otherwise a new node goes at the back. */
    method AddLast(item: Option<T>) returns (o: Outcome)
      requires Valid()
      modifies this, Repr
      ensures Valid() && fresh(Repr - old(Repr))
      ensures item.None? ==> o == Fail(IllegalArgument) && content == old(content)
      ensures item.Some? ==> o == Pass && content == old(content) + [item.value]
    {
      if item.None? {
        return Fail(IllegalArgument);
      }
      var node := new Node(item.value);
      if tail != null {
        tail.next := node;
        node.prev := tail;
        tail := node;
      } else {
        tail, head := node, node;
      }
      size := size + 1;
      nodes, content, Repr := nodes + [node], content + [item.value], Repr + {node};
      return Pass;
    }

    /** `removeFirst()`: fails on an empty deque; otherwise unlinks the
        front node and returns that node itself, not its item. */
    method RemoveFirst() returns (r: Result<Node<T>>)
      requires Valid()
      modifies this, Repr
      ensures Valid() && Repr == old(Repr)
      ensures old(content) == [] ==> r == Failure(NoSuchElement) && content == []
      ensures old(content) != [] ==>
        r.Success? && r.value == old(nodes[0]) && r.value.value == old(content[0]) &&
        content == old(content[1..])
    {
      if head == null {
        return Failure(NoSuchElement);
      }
      var node := head;
      assert |nodes| > 1 ==> head.next == nodes[1];
      head := head.next;
      if head != null {
        head.prev := null;
      } else {
        tail := null;
      }
      size := size - 1;
      nodes, content := nodes[1..], content[1..];
      return Success(node);
    }

    /** `removeLast()`: fails on an empty deque; otherwise unlinks the
        back node and returns that node itself, not its item. */
    method RemoveLast() returns (r: Result<Node<T>>)
      requires Valid()
      modifies this, Repr
      ensures Valid() && Repr == old(Repr)
      ensures old(content) == [] ==> r == Failure(NoSuchElement) && content == []
      ensures old(content) != [] ==>
        r.Success? && r.value == old(nodes[|nodes| - 1]) && r.value.value == old(content[|content| - 1]) &&
        content == old(content[..|content| - 1])
    {
      if tail == null {
        return Failure(NoSuchElement);
      }
      var node := tail;
      assert |nodes| > 1 ==> tail.prev == nodes[|nodes| - 2];
      tail := tail.prev;
      if tail != null {
        tail.next := null;
      } else {
        head := null;
      }
      size := size - 1;
      nodes, content := nodes[..|nodes| - 1], content[..|content| - 1];
      return Success(node);
    }

    /** `[Symbol.iterator]()`: a fresh cursor at `head`. */
    method Iterator() returns (it: DequeIterator<T>)
      requires Valid()
      ensures fresh(it) && it.Valid() && it.deque == this && it.index == 0
    {
      it := new DequeIterator(this);
    }

    /** Spreading the deque (`[...deque]`): call `next()` on a fresh
        iterator until it reports `done`; the items come out front to
        back. */
    method Spread() returns (out: seq<T>)
      requires Valid()
      ensures out == content
    {
      var it := Iterator();
      out := [];
      var step := it.Next();
      while step.Some?
        invariant it.Valid() && it.deque == this && 0 <= it.index <= |content|
        invariant step.Some? ==> it.index >= 1 && out + [step.value] == content[..it.index]
        invariant step.None? ==> out == content
        decreases |content| - it.index, step.Some?
      {
        out := out + [step.value];
        step := it.Next();
      }
    }
  }

  /** The object `[Symbol.iterator]()` returns: a cursor that starts at
      `head` and follows `next`; `index` is how many items it has handed
      out.  Each iterator keeps its own cursor. */
  class DequeIterator<T> {
    var pointer: Node?<T>
    ghost var deque: Deque<T>
    ghost var index: int

    /** The cursor is the node at `index`, or `null` past the tail. */
    ghost predicate Valid()
      reads this, deque, deque.Repr
    {
      deque.Valid() && this !in deque.Repr && 0 <= index <= |deque.nodes| &&
      pointer == if index < |deque.nodes| then deque.nodes[index] else null
    }

    constructor(d: Deque<T>)
      requires d.Valid()
      ensures Valid() && deque == d && index == 0
    {
      pointer := d.head;
      deque := d;
      index := 0;
    }

    /** `next()`: the next item and one step along, or `done` (`None`)
        once past the tail. */
    method Next() returns (r: Option<T>)
      requires Valid()
      modifies this
      ensures Valid() && deque == old(deque)
      ensures old(index) < |deque.content| ==> r == Some(deque.content[old(index)]) && index == old(index) + 1
      ensures old(index) == |deque.content| ==> r == None && index == old(index)
    {
      if pointer != null {
        var value := pointer.value;
        pointer := pointer.next;
        index := index + 1;
        return Some(value);
      }
      return None;
    }
  }

  /** The general walk-through: two items in, one out at each end, then
      the three refusals and the counts along the way. */
  method GeneralScenario() returns (sizes: seq<int>, first: Result<Node<int>>, last: Result<Node<int>>, refused: Result<Node<int>>, nulled: Outcome)
    ensures sizes == [0, 1, 2, 1, 0]
    ensures first.Success? && first.value.value == 5
    ensures last.Success? && last.value.value == 6
    ensures refused == Failure(NoSuchElement) && nulled == Fail(IllegalArgument)
  {
    var d := new Deque<int>();
    var s0 := d.Size();
    var o := d.AddFirst(Some(5));
    var s1 := d.Size();
    o := d.AddLast(Some(6));
    var s2 := d.Size();
    first := d.RemoveFirst();
    var s3 := d.Size();
    last, refused, nulled := Drain(d);
    sizes := [s0, s1, s2, s3, d.Size()];
  }

  /** From the deque holding just 6: remove it from the back, then fail
      to remove again and fail to add `null`. */
  method Drain(d: Deque<int>) returns (last: Result<Node<int>>, refused: Result<Node<int>>, nulled: Outcome)
    requires d.Valid() && d.content == [6]
    modifies d, d.Repr
    ensures d.Valid() && d.content == [] && d.IsEmpty()
    ensures last.Success? && last.value.value == 6
    ensures refused == Failure(NoSuchElement) && nulled == Fail(IllegalArgument)
  {
    last := d.RemoveLast();
    refused := d.RemoveLast();
    nulled := d.AddFirst(None);
  }

  /** The iterator walk-through: an iterator over the empty deque is
      done at once; after nine additions the spread lists 1 to 9, and of
      two iterators, the one moved twice yields 3 and the one moved once
      yields 2. */
  method IteratorScenario() returns (emptyStep: Option<int>, spread: seq<int>, second: Option<int>, first: Option<int>)
    ensures emptyStep == None
    ensures spread == [1, 2, 3, 4, 5, 6, 7, 8, 9]
    ensures second == Some(3) && first == Some(2)
  {
    var d := new Deque<int>();
    var it := d.Iterator();
    emptyStep := it.Next();
    FillNine(d);
    spread := d.Spread();
    second, first := TwoIterators(d);
  }

  /** The nine additions of the walk-through, in the source's order. */
  method FillNine(d: Deque<int>)
    requires d.Valid() && d.content == []
    modifies d, d.Repr
    ensures d.Valid() && d.content == [1, 2, 3, 4, 5, 6, 7, 8, 9]
  {
    var o := d.AddFirst(Some(5));
    o := d.AddLast(Some(6));
    o := d.AddLast(Some(7));
    AddBack(d, 8, 9);
    AddFront(d, 4, 3);
    AddFront(d, 2, 1);
  }

  /** `addLast(x)` then `addLast(y)`. */
  method AddBack(d: Deque<int>, x: int, y: int)
    requires d.Valid()
    modifies d, d.Repr
    ensures d.Valid() && d.content == old(d.content) + [x, y] && fresh(d.Repr - old(d.Repr))
  {
    var o := d.AddLast(Some(x));
    o := d.AddLast(Some(y));
  }

  /** `addFirst(x)` then `addFirst(y)`. */
  method AddFront(d: Deque<int>, x: int, y: int)
    requires d.Valid()
    modifies d, d.Repr
    ensures d.Valid() && d.content == [y, x] + old(d.content) && fresh(d.Repr - old(d.Repr))
  {
    var o := d.AddFirst(Some(x));
    o := d.AddFirst(Some(y));
  }

  /** One iterator stepped once and another stepped twice; then the
      second's next item and the first's next item. */
  method TwoIterators(d: Deque<int>) returns (second: Option<int>, first: Option<int>)
    requires d.Valid() && d.content == [1, 2, 3, 4, 5, 6, 7, 8, 9]
    ensures second == Some(3) && first == Some(2)
  {
    var i1 := d.Iterator();
    var step := i1.Next();
    var i2 := d.Iterator();
    step := i2.Next();
    step := i2.Next();
    second := i2.Next();
    first := i1.Next();
  }
}
