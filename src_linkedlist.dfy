/** The doubly-linked list of src/linkedlist.hpp: `head`, `tail` and
    `listSize` over `ListNode`s with `next` and `prev` links. The ghost
    sequence `Nodes` lists the nodes reachable from `head`, in order, and
    `Contents` their values. Two of the code's defects shape the invariant:
    `insert` never sets the new node's `prev`, so a `prev` link is either the
    predecessor or null; and `LinkedList(initVal)` leaves `listSize` at 0
    beside one node, so `listSize` may lag one behind the node count. Every
    operation keeps both. */
module SrcLinkedList {
  import opened Common

  class ListNode<T> {
    var data: T
    var next: ListNode?<T>
    var prev: ListNode?<T>

    /** `new ListNode<T>` followed by the assignment of `data`. */
    constructor (d: T)
      ensures data == d && next == null && prev == null
    {
      data := d;
      next := null;
      prev := null;
    }
  }

  class LinkedList<T> {
    var head: ListNode?<T>
    var tail: ListNode?<T>
    var listSize: nat
    ghost var Nodes: seq<ListNode<T>>
    ghost var Contents: seq<T>

    /** Node `i` holds value `i`. */
    ghost predicate DataAt(i: int)
      reads this, Nodes
    {
      0 <= i < |Nodes| && i < |Contents| && Nodes[i].data == Contents[i]
    }

    /** Node `i`'s `next` is node `i + 1`, or null on the last node. */
    ghost predicate NextAt(i: int)
      reads this, Nodes
    {
      0 <= i < |Nodes| && Nodes[i].next == (if i + 1 < |Nodes| then Nodes[i + 1] else null)
    }

    /** Node `i`'s `prev` is node `i - 1` (null on the first node), or null. */
    ghost predicate PrevAt(i: int)
      reads this, Nodes
    {
      0 <= i < |Nodes| &&
      (Nodes[i].prev == (if i == 0 then null else Nodes[i - 1]) || Nodes[i].prev == null)
    }

    /** Node `i`'s `prev` is node `i - 1`, or null on the first node. */
    ghost predicate LinkedAt(i: int)
      reads this, Nodes
    {
      0 <= i < |Nodes| && Nodes[i].prev == (if i == 0 then null else Nodes[i - 1])
    }

    /** The representation invariant the code keeps. */
    ghost predicate Valid()
      reads this, Nodes
    {
      && (forall i, j | 0 <= i < j < |Nodes| :: Nodes[i] != Nodes[j])
      && |Contents| == |Nodes|
      && (forall i | 0 <= i < |Nodes| :: DataAt(i) && NextAt(i) && PrevAt(i))
      && (if Nodes == [] then head == null && tail == null
          else head == Nodes[0] && tail == Nodes[|Nodes| - 1])
      && (listSize == |Nodes| || listSize + 1 == |Nodes|)
      && listSize <= UINT_MAX
    }

    /** Every `prev` link names the predecessor: the list is doubly linked. */
    ghost predicate BackLinked()
      reads this, Nodes
    {
      forall i | 0 <= i < |Nodes| :: LinkedAt(i)
    }

    /** `listSize` counts the nodes. */
    ghost predicate Counted()
      reads this
    {
      listSize == |Nodes|
    }

    /** `LinkedList()`: the empty list. */
    constructor ()
      ensures Valid() && BackLinked() && Counted()
      ensures Contents == [] && Nodes == [] && listSize == 0
    {
      head := null;
      tail := null;
      listSize := 0;
      Nodes := [];
      Contents := [];
    }

    /** `LinkedList(initVal)`: one node holding `initVal`, which is both head
        and tail; `listSize` is left at 0. */
    constructor WithValue(initVal: T)
      ensures Valid() && BackLinked() && |Nodes| == 1 && fresh(Nodes[0])
      ensures Contents == [initVal] && listSize == 0
    {
      var n := new ListNode(initVal);
      head := n;
      tail := n;
      listSize := 0;
      Nodes := [n];
      Contents := [initVal];
      new;
      assert DataAt(0) && NextAt(0) && PrevAt(0) && LinkedAt(0);
    }

    /** `LinkedList(initVal)` as intended: the one node is counted. */
    constructor WithValueCounted(initVal: T)
      ensures Valid() && BackLinked() && Counted() && |Nodes| == 1 && fresh(Nodes[0])
      ensures Contents == [initVal] && listSize == 1
    {
      var n := new ListNode(initVal);
      head := n;
      tail := n;
      listSize := 1;
      Nodes := [n];
      Contents := [initVal];
      new;
      assert DataAt(0) && NextAt(0) && PrevAt(0) && LinkedAt(0);
    }

    /** `clear()`: drops every node and resets head, tail and size. */
    method Clear()
      requires Valid()
      modifies this
      ensures Valid() && BackLinked() && Counted()
      ensures Contents == [] && Nodes == [] && head == null && tail == null && listSize == 0
    {
      head := null;
      tail := null;
      listSize := 0;
      Nodes := [];
      Contents := [];
    }

    /** `size()`: `listSize`, which is the length of the list unless the list
        was built by `LinkedList(initVal)`, where it is one less. */
    function Size(): (r: nat)
      reads this, Nodes
      requires Valid()
      ensures r <= |Contents| <= r + 1
      ensures Counted() ==> r == |Contents|
    {
      listSize
    }

    /** `front()`: the first value; throws on an empty list. */
    method Front() returns (r: Result<T>)
      requires Valid()
      ensures Contents == [] ==> r == Err(RuntimeError)
      ensures Contents != [] ==> r == Ok(Contents[0])
    {
      if head == null {
        return Err(RuntimeError);
      }
      assert DataAt(0);
      r := Ok(head.data);
    }

    /** `back()`: the last value; throws on an empty list. */
    method Back() returns (r: Result<T>)
      requires Valid()
      ensures Contents == [] ==> r == Err(RuntimeError)
      ensures Contents != [] ==> r == Ok(Contents[|Contents| - 1])
    {
      if tail == null {
        return Err(RuntimeError);
      }
      assert DataAt(|Nodes| - 1);
      r := Ok(tail.data);
    }

    /** `at(targetPos)`: throws when `targetPos >= listSize`, otherwise walks
        forward from `head` to the value at that position. */
    method At(targetPos: nat) returns (r: Result<T>)
      requires Valid()
      ensures targetPos >= listSize ==> r == Err(OutOfRange)
      ensures targetPos < listSize ==> r == Ok(Contents[targetPos])
    {
      if targetPos >= listSize {
        return Err(OutOfRange);
      }
      if listSize < listSize - targetPos {
        // the backward walk from `tail` is unreachable: with
        // targetPos < listSize the unsigned difference is at most listSize
        assert false;
      }
      var pos := 0;
      var curr := head;
      while pos != targetPos
        invariant pos <= targetPos
        invariant curr == Nodes[pos]
        decreases targetPos - pos
      {
        assert NextAt(pos);
        pos := pos + 1;
        curr := curr.next;
      }
      assert DataAt(pos);
      r := Ok(curr.data);
    }

    /** `pushBack(val)`: a new node after the tail, linked both ways. */
    method PushBack(val: T)
      requires Valid() && listSize < UINT_MAX
      modifies this, Nodes
      ensures Valid() && Nodes == old(Nodes) + [tail] && fresh(tail)
      ensures Contents == old(Contents) + [val] && listSize == old(listSize) + 1
      ensures tail.prev == old(tail) && (old(tail) != null ==> old(tail).next == tail)
      ensures forall i | 0 <= i < |old(Nodes)| :: old(Nodes)[i].prev == old(Nodes[i].prev)
      ensures old(BackLinked()) ==> BackLinked()
      ensures Counted() == old(Counted())
    {
      var newNode := new ListNode(val);
      if head == null {
        head := newNode;
        tail := newNode;
        listSize := listSize + 1;
        Nodes, Contents := [newNode], [val];
        assert DataAt(0) && NextAt(0) && PrevAt(0) && LinkedAt(0);
        return;
      }
      ghost var last := |Nodes| - 1;
      var prev := tail;
      tail := newNode;
      prev.next := tail;
      tail.prev := prev;
      listSize := listSize + 1;
      Nodes, Contents := Nodes + [newNode], Contents + [val];
      forall i | 0 <= i < |Nodes|
        ensures DataAt(i) && NextAt(i) && PrevAt(i) && (old(BackLinked()) ==> LinkedAt(i))
      {
        if i <= last {
          assert old(DataAt(i) && NextAt(i) && PrevAt(i));
          assert old(BackLinked()) ==> old(LinkedAt(i));
        }
      }
    }

    /** `pushFront(val)`: a new node before the head, linked both ways. */
    method PushFront(val: T)
      requires Valid() && listSize < UINT_MAX
      modifies this, Nodes
      ensures Valid() && Nodes == [head] + old(Nodes) && fresh(head)
      ensures Contents == [val] + old(Contents) && listSize == old(listSize) + 1
      ensures head.next == old(head) && (old(head) != null ==> old(head).prev == head)
      ensures forall i | 0 < i < |old(Nodes)| :: old(Nodes)[i].prev == old(Nodes[i].prev)
      ensures old(BackLinked()) ==> BackLinked()
      ensures Counted() == old(Counted())
    {
      var newNode := new ListNode(val);
      if head == null {
        head := newNode;
        tail := newNode;
        listSize := listSize + 1;
        Nodes, Contents := [newNode], [val];
        assert DataAt(0) && NextAt(0) && PrevAt(0) && LinkedAt(0);
        return;
      }
      var next := head;
      head := newNode;
      next.prev := head;
      head.next := next;
      listSize := listSize + 1;
      Nodes, Contents := [newNode] + Nodes, [val] + Contents;
      forall i | 0 <= i < |Nodes|
        ensures DataAt(i) && NextAt(i) && PrevAt(i) && (old(BackLinked()) ==> LinkedAt(i))
      {
        if 0 < i {
          assert old(DataAt(i - 1) && NextAt(i - 1) && PrevAt(i - 1));
          assert old(BackLinked()) ==> old(LinkedAt(i - 1));
        }
      }
    }

    /** `insert(val, targetPos)`: position 0 goes to `pushFront`, position
        `listSize` to `pushBack`, a larger one throws; otherwise the walk
        stops at the node before `targetPos` and a new node is spliced in
        after it. The new node's `prev` is never set. */
    method Insert(val: T, targetPos: nat) returns (r: Outcome)
      requires Valid() && listSize < UINT_MAX
      modifies this, Nodes
      ensures Valid()
      ensures targetPos == 0 ==>
        r == Done && Contents == [val] + old(Contents) && Nodes == [head] + old(Nodes) && fresh(head)
      ensures 0 < targetPos == old(listSize) ==>
        r == Done && Contents == old(Contents) + [val] && Nodes == old(Nodes) + [tail] && fresh(tail)
      ensures old(listSize) < targetPos ==> r == Fail(OutOfRange) && unchanged(this) && unchanged(Nodes)
      ensures 0 < targetPos < old(listSize) ==>
        r == Done && Contents == old(Contents)[..targetPos] + [val] + old(Contents)[targetPos..] &&
        Nodes == old(Nodes)[..targetPos] + [Nodes[targetPos]] + old(Nodes)[targetPos..] &&
        fresh(Nodes[targetPos]) && Nodes[targetPos].prev == null && Nodes[targetPos + 1].prev == Nodes[targetPos]
      ensures forall i | 0 <= i < |old(Nodes)| && i != targetPos :: old(Nodes)[i].prev == old(Nodes[i].prev)
      ensures r == Done ==> listSize == old(listSize) + 1
      ensures old(BackLinked()) && (targetPos == 0 || old(listSize) <= targetPos) ==> BackLinked()
      ensures Counted() == old(Counted())
    {
      if targetPos == 0 {
        PushFront(val);
        return Done;
      } else if targetPos == listSize {
        PushBack(val);
        return Done;
      }
      if targetPos > listSize {
        return Fail(OutOfRange);
      }
      if listSize < listSize - targetPos {
        // the backward walk from `tail` is unreachable, as in `at`
        assert false;
      }
      var pos := 0;
      var curr := head;
      while pos != targetPos - 1
        invariant pos <= targetPos - 1
        invariant curr == Nodes[pos]
        decreases targetPos - 1 - pos
      {
        assert NextAt(pos);
        pos := pos + 1;
        curr := curr.next;
      }
      assert NextAt(pos);
      var newNode := new ListNode(val);
      SpliceAfter(curr, newNode, targetPos);
      r := Done;
    }

    /** `insert` as intended: the same, but the spliced node's `prev` names
        its predecessor, so a doubly-linked list stays doubly linked. */
    method InsertLinked(val: T, targetPos: nat) returns (r: Outcome)
      requires Valid() && listSize < UINT_MAX
      modifies this, Nodes
      ensures Valid()
      ensures targetPos == 0 ==>
        r == Done && Contents == [val] + old(Contents) && Nodes == [head] + old(Nodes) && fresh(head)
      ensures 0 < targetPos == old(listSize) ==>
        r == Done && Contents == old(Contents) + [val] && Nodes == old(Nodes) + [tail] && fresh(tail)
      ensures old(listSize) < targetPos ==> r == Fail(OutOfRange) && unchanged(this) && unchanged(Nodes)
      ensures 0 < targetPos < old(listSize) ==>
        r == Done && Contents == old(Contents)[..targetPos] + [val] + old(Contents)[targetPos..] &&
        Nodes == old(Nodes)[..targetPos] + [Nodes[targetPos]] + old(Nodes)[targetPos..] &&
        fresh(Nodes[targetPos]) && Nodes[targetPos].prev == Nodes[targetPos - 1] &&
        Nodes[targetPos + 1].prev == Nodes[targetPos]
      ensures forall i | 0 <= i < |old(Nodes)| && i != targetPos :: old(Nodes)[i].prev == old(Nodes[i].prev)
      ensures r == Done ==> listSize == old(listSize) + 1
      ensures old(BackLinked()) ==> BackLinked()
      ensures Counted() == old(Counted())
    {
      if targetPos == 0 {
        PushFront(val);
        return Done;
      } else if targetPos == listSize {
        PushBack(val);
        return Done;
      }
      if targetPos > listSize {
        return Fail(OutOfRange);
      }
      var pos := 0;
      var curr := head;
      while pos != targetPos - 1
        invariant pos <= targetPos - 1
        invariant curr == Nodes[pos]
        decreases targetPos - 1 - pos
      {
        assert NextAt(pos);
        pos := pos + 1;
        curr := curr.next;
      }
      assert NextAt(pos);
      var newNode := new ListNode(val);
      newNode.prev := curr;
      SpliceAfter(curr, newNode, targetPos);
      r := Done;
    }

    /** The splice that ends `insert`: `newNode` goes between node
        `targetPos - 1` (`curr`) and node `targetPos`, whose `prev` now names
        it; `newNode`'s own `prev` is left as the caller set it. */
    method SpliceAfter(curr: ListNode<T>, newNode: ListNode<T>, targetPos: nat)
      requires Valid() && listSize < UINT_MAX
      requires 0 < targetPos < |Nodes| && curr == Nodes[targetPos - 1]
      requires newNode !in Nodes && (newNode.prev == null || newNode.prev == curr)
      modifies this, Nodes, newNode
      ensures Valid()
      ensures Nodes == old(Nodes)[..targetPos] + [newNode] + old(Nodes)[targetPos..]
      ensures Contents == old(Contents)[..targetPos] + [newNode.data] + old(Contents)[targetPos..]
      ensures listSize == old(listSize) + 1 && Counted() == old(Counted())
      ensures newNode.data == old(newNode.data) && newNode.prev == old(newNode.prev)
      ensures Nodes[targetPos + 1].prev == newNode
      ensures forall i | 0 <= i < |old(Nodes)| && i != targetPos :: old(Nodes)[i].prev == old(Nodes[i].prev)
      ensures old(BackLinked()) && newNode.prev == curr ==> BackLinked()
    {
      assert NextAt(targetPos - 1);
      var next := curr.next;
      next.prev := newNode;
      newNode.next := next;
      curr.next := newNode;
      listSize := listSize + 1;
      Nodes := Nodes[..targetPos] + [newNode] + Nodes[targetPos..];
      Contents := Contents[..targetPos] + [newNode.data] + Contents[targetPos..];
      forall i | 0 <= i < |Nodes|
        ensures DataAt(i) && NextAt(i) && PrevAt(i)
        ensures old(BackLinked()) && newNode.prev == curr ==> LinkedAt(i)
      {
        if i < targetPos {
          assert Nodes[i] == old(Nodes)[i];
          assert old(DataAt(i) && NextAt(i) && PrevAt(i));
          assert old(BackLinked()) ==> old(LinkedAt(i));
        } else if targetPos < i {
          assert Nodes[i] == old(Nodes)[i - 1];
          assert old(DataAt(i - 1) && NextAt(i - 1) && PrevAt(i - 1));
          assert old(BackLinked()) ==> old(LinkedAt(i - 1));
        }
      }
    }

    /** `popFront()`: throws on an empty list, otherwise unlinks the head and
        returns its value. On a one-node list the new head is null and
        clearing its `prev` dereferences null, so callers must not. */
    method PopFront() returns (r: Result<T>)
      requires Valid()
      requires head != null ==> head.next != null
      modifies this, Nodes
      ensures Valid()
      ensures old(Contents) == [] ==> r == Err(OutOfRange) && unchanged(this) && unchanged(Nodes)
      ensures old(Contents) != [] ==>
        r == Ok(old(Contents)[0]) && Contents == old(Contents)[1..] && Nodes == old(Nodes)[1..] &&
        listSize == old(listSize) - 1 && head != null && head.prev == null
      ensures forall i | 1 < i < |old(Nodes)| :: old(Nodes)[i].prev == old(Nodes[i].prev)
      ensures old(BackLinked()) ==> BackLinked()
      ensures Counted() == old(Counted())
    {
      if head == null {
        return Err(OutOfRange);
      }
      assert DataAt(0) && NextAt(0);
      var v := head.data;
      var tmp := head.next;
      head := tmp;
      head.prev := null;
      listSize := listSize - 1;
      Nodes, Contents := Nodes[1..], Contents[1..];
      r := Ok(v);
      forall i | 0 <= i < |Nodes|
        ensures DataAt(i) && NextAt(i) && PrevAt(i) && (old(BackLinked()) ==> LinkedAt(i))
      {
        assert old(DataAt(i + 1) && NextAt(i + 1) && PrevAt(i + 1));
        assert old(BackLinked()) ==> old(LinkedAt(i + 1));
      }
    }

    /** `popBack()`: throws on an empty list, otherwise makes the tail's
        `prev` the new tail and returns the old tail's value. That `prev` is
        null on a one-node list, and on a node placed by `insert`; clearing
        its `next` then dereferences null, so callers must not. */
    method PopBack() returns (r: Result<T>)
      requires Valid()
      requires tail != null ==> tail.prev != null
      modifies this, Nodes
      ensures Valid()
      ensures old(Contents) == [] ==> r == Err(OutOfRange) && unchanged(this) && unchanged(Nodes)
      ensures old(Contents) != [] ==>
        r == Ok(old(Contents)[|old(Contents)| - 1]) &&
        Contents == old(Contents)[..|old(Contents)| - 1] &&
        Nodes == old(Nodes)[..|old(Nodes)| - 1] && listSize == old(listSize) - 1
      ensures forall i | 0 <= i < |old(Nodes)| :: old(Nodes)[i].prev == old(Nodes[i].prev)
      ensures old(BackLinked()) ==> BackLinked()
      ensures Counted() == old(Counted())
    {
      if head == null {
        return Err(OutOfRange);
      }
      ghost var last := |Nodes| - 1;
      assert DataAt(last) && PrevAt(last);
      var v := tail.data;
      var tmp := tail.prev;
      tail := tmp;
      tail.next := null;
      listSize := listSize - 1;
      Nodes, Contents := Nodes[..last], Contents[..last];
      r := Ok(v);
      forall i | 0 <= i < |Nodes|
        ensures DataAt(i) && NextAt(i) && PrevAt(i) && (old(BackLinked()) ==> LinkedAt(i))
      {
        assert old(DataAt(i) && NextAt(i) && PrevAt(i));
        assert old(BackLinked()) ==> old(LinkedAt(i));
      }
    }

    /** `remove(targetPos)`: throws only when `targetPos > listSize`, then
        walks to the node and unlinks it from its neighbours. `head` and
        `tail` are never updated, so removing the first or last node leaves
        one of them naming the removed node, and `targetPos == listSize` on
        a counted list walks off the end; callers must stay strictly inside. */
    method Remove(targetPos: nat) returns (r: Outcome)
      requires Valid()
      requires listSize < targetPos || 0 < targetPos < |Nodes| - 1
      modifies this, Nodes
      ensures Valid()
      ensures old(listSize) < targetPos ==> r == Fail(OutOfRange) && unchanged(this) && unchanged(Nodes)
      ensures targetPos <= old(listSize) ==>
        r == Done && Contents == old(Contents)[..targetPos] + old(Contents)[targetPos + 1..] &&
        Nodes == old(Nodes)[..targetPos] + old(Nodes)[targetPos + 1..] &&
        listSize == old(listSize) - 1 && old(Nodes)[targetPos + 1].prev == old(Nodes[targetPos].prev)
      ensures forall i | 0 <= i < |old(Nodes)| && i != targetPos + 1 :: old(Nodes)[i].prev == old(Nodes[i].prev)
      ensures old(BackLinked()) ==> BackLinked()
      ensures Counted() == old(Counted())
    {
      if targetPos > listSize {
        return Fail(OutOfRange);
      }
      var pos := 0;
      var curr := head;
      var prev: ListNode?<T> := null;
      while pos != targetPos
        invariant pos <= targetPos
        invariant curr == Nodes[pos]
        invariant prev == if pos == 0 then null else Nodes[pos - 1]
        decreases targetPos - pos
      {
        assert NextAt(pos);
        prev := curr;
        curr := curr.next;
        pos := pos + 1;
      }
      assert NextAt(targetPos - 1) && NextAt(targetPos) && PrevAt(targetPos);
      assert prev != null && curr.next != null;
      if prev != null {
        prev.next := curr.next;
      }
      if curr.next != null {
        curr.next.prev := curr.prev;
      }
      listSize := listSize - 1;
      Nodes := Nodes[..targetPos] + Nodes[targetPos + 1..];
      Contents := Contents[..targetPos] + Contents[targetPos + 1..];
      r := Done;
      forall i | 0 <= i < |Nodes|
        ensures DataAt(i) && NextAt(i) && PrevAt(i) && (old(BackLinked()) ==> LinkedAt(i))
      {
        if i < targetPos {
          assert Nodes[i] == old(Nodes)[i];
          assert old(DataAt(i) && NextAt(i) && PrevAt(i));
          assert old(BackLinked()) ==> old(LinkedAt(i));
        } else {
          assert Nodes[i] == old(Nodes)[i + 1];
          assert old(DataAt(i + 1) && NextAt(i + 1) && PrevAt(i + 1));
          assert old(BackLinked()) ==> old(LinkedAt(i)) && old(LinkedAt(i + 1));
        }
      }
    }
  }

  /** Builds a list holding `s` by `pushBack`s onto an empty list. */
  method FromSeq<T>(s: seq<T>) returns (l: LinkedList<T>)
    requires |s| <= UINT_MAX
    ensures fresh(l) && forall k | 0 <= k < |l.Nodes| :: fresh(l.Nodes[k])
    ensures l.Valid() && l.BackLinked() && l.Counted() && l.Contents == s
  {
    l := new LinkedList<T>();
    var i := 0;
    while i < |s|
      invariant i <= |s|
      invariant fresh(l) && forall k | 0 <= k < |l.Nodes| :: fresh(l.Nodes[k])
      invariant l.Valid() && l.BackLinked() && l.Counted() && l.Contents == s[..i]
    {
      l.PushBack(s[i]);
      i := i + 1;
    }
  }

  /** Reads every position of a counted list with `at`, from the front. */
  method ReadAll<T>(l: LinkedList<T>) returns (read: seq<T>)
    requires l.Valid() && l.Counted()
    ensures read == l.Contents
  {
    read := [];
    var k := 0;
    while k < l.listSize
      invariant k <= l.listSize
      invariant read == l.Contents[..k]
    {
      var r := l.At(k);
      read := read + [r.value];
      k := k + 1;
    }
  }

  /** `pushBack` then `at`: the values pushed onto an empty list are read
      back in order. */
  method PushBackThenAt<T>(s: seq<T>) returns (read: seq<T>)
    requires |s| <= UINT_MAX
    ensures read == s
  {
    var l := FromSeq(s);
    read := ReadAll(l);
  }

  /** `insert(v, t)` strictly inside the list, then `remove(t)`: the list
      reads `s` with `v` at position `t`, and then `s` again. */
  method InsertThenRemove<T>(s: seq<T>, v: T, t: nat) returns (inserted: seq<T>, removed: seq<T>)
    requires 0 < t < |s| < UINT_MAX
    ensures inserted == s[..t] + [v] + s[t..] && removed == s
  {
    var l := FromSeq(s);
    var _ := l.Insert(v, t);
    inserted := ReadAll(l);
    var _ := l.Remove(t);
    removed := ReadAll(l);
    assert removed == s[..t] + s[t..];
  }

  /** `pushFront(v)` then `popFront()` on a non-empty list: the pop returns
      `v` and the list reads `s` again. */
  method PushFrontThenPopFront<T>(s: seq<T>, v: T) returns (popped: Result<T>, rest: seq<T>)
    requires 0 < |s| < UINT_MAX
    ensures popped == Ok(v) && rest == s
  {
    var l := FromSeq(s);
    l.PushFront(v);
    assert l.NextAt(0);
    popped := l.PopFront();
    rest := ReadAll(l);
  }

  /** `pushBack(v)` then `popBack()` on a non-empty list: the pop returns
      `v` and the list reads `s` again. */
  method PushBackThenPopBack<T>(s: seq<T>, v: T) returns (popped: Result<T>, rest: seq<T>)
    requires 0 < |s| < UINT_MAX
    ensures popped == Ok(v) && rest == s
  {
    var l := FromSeq(s);
    l.PushBack(v);
    popped := l.PopBack();
    rest := ReadAll(l);
  }

  /** Insert 9 at position 1 of [1, 2, 3], as written: the list reads
      [1, 9, 2, 3], and `popBack` twice returns 3 and 2, but the inserted
      node, now the tail, has a null `prev`, so a third `popBack` would
      dereference null. */
  method InsertLeavesPrevNull() returns (at1: Result<int>, popped: seq<int>, tailPrevMissing: bool)
    ensures at1 == Ok(9) && popped == [3, 2] && tailPrevMissing
  {
    var l := FromSeq([1, 2, 3]);
    assert l.LinkedAt(2);
    var _ := l.Insert(9, 1);
    at1 := l.At(1);
    var a := l.PopBack();
    var b := l.PopBack();
    popped := [a.value, b.value];
    tailPrevMissing := l.tail.prev == null;
  }

  /** The same scenario with the intended `insert`: the back links are
      whole, and popping from the back returns the values in reverse. */
  method InsertLinkedThenPopBack() returns (at1: Result<int>, popped: seq<int>)
    ensures at1 == Ok(9) && popped == [3, 2, 9]
  {
    var l := FromSeq([1, 2, 3]);
    var _ := l.InsertLinked(9, 1);
    at1 := l.At(1);
    assert l.LinkedAt(3);
    var a := l.PopBack();
    assert l.LinkedAt(2);
    var b := l.PopBack();
    assert l.LinkedAt(1);
    var c := l.PopBack();
    popped := [a.value, b.value, c.value];
  }

  /** `LinkedList(5)` as written: the value is there, but `size()` is 0
      and `at(0)` throws. */
  method InitValueUncounted() returns (size: nat, front: Result<int>, at0: Result<int>)
    ensures size == 0 && front == Ok(5) && at0 == Err(OutOfRange)
  {
    var l := new LinkedList<int>.WithValue(5);
    size := l.Size();
    front := l.Front();
    at0 := l.At(0);
  }

  /** The intended `LinkedList(5)`: one counted element, readable by `at`. */
  method InitValueCounted() returns (size: nat, front: Result<int>, at0: Result<int>)
    ensures size == 1 && front == Ok(5) && at0 == Ok(5)
  {
    var l := new LinkedList<int>.WithValueCounted(5);
    size := l.Size();
    front := l.Front();
    at0 := l.At(0);
  }
}
