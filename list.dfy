/**
 * The singly linked list used as the breadth-first and depth-first frontier.
 * Each list node holds one opaque data pointer; the list keeps a head pointer
 * and a size counter. The ghost `Spine` lists the linked nodes from the head,
 * and `Contents` their data, so that every operation can be stated on values.
 */
module LinkedList {

  /** `list_node_t` */
  class Node<T> {
    var next: Node?<T>
    var data: T

    constructor (data: T, next: Node?<T>)
      ensures this.data == data && this.next == next
    {
      this.data := data;
      this.next := next;
    }
  }

  /** Node `i` of `spine` holds `contents[i]` and links to node `i + 1`,
      the last one to null. */
  ghost predicate LinkedAt<T>(spine: seq<Node<T>>, contents: seq<T>, i: int)
    reads spine
    requires 0 <= i < |spine| == |contents|
  {
    spine[i].data == contents[i] &&
    spine[i].next == (if i + 1 < |spine| then spine[i + 1] else null)
  }

  /** `list_t` */
  class List<T> {
    var size: nat
    var head: Node?<T>

    ghost var Spine: seq<Node<T>>
    ghost var Contents: seq<T>
    ghost var Repr: set<object>

    ghost predicate Valid()
      reads this, Repr
    {
      && this in Repr
      && (forall i | 0 <= i < |Spine| :: Spine[i] in Repr)
      && |Contents| == |Spine| == size
      && head == (if Spine == [] then null else Spine[0])
      && (forall i | 0 <= i < |Spine| :: LinkedAt(Spine, Contents, i))
      && (forall i, j | 0 <= i < j < |Spine| :: Spine[i] != Spine[j])
    }

    /** The position of a node of the list. */
    ghost function IndexOf(n: Node<T>): (k: nat)
      reads this, Repr
      requires Valid() && n in Spine
      ensures k < |Spine| && Spine[k] == n
    {
      var k :| 0 <= k < |Spine| && Spine[k] == n; k
    }

    /** `list_create`: an empty list. */
    constructor Create()
      ensures Valid() && fresh(Repr)
      ensures Contents == [] && Spine == [] && head == null && size == 0
    {
      size := 0;
      head := null;
      Spine := [];
      Contents := [];
      Repr := {this};
    }

    /** `list_size`: the stored counter. */
    function Size(): (n: nat)
      reads this, Repr
      requires Valid()
      ensures n == |Contents|
    {
      size
    }

    /** `list_front` and `list_head`: the head node. */
    function Front(): (n: Node?<T>)
      reads this, Repr
      requires Valid()
      ensures n == null <==> Contents == []
      ensures n != null ==> n == Spine[0] && n.data == Contents[0]
    {
      if head == null then null else assert LinkedAt(Spine, Contents, 0); head
    }

    /** `list_is_empty`: `size <= 0`. */
    function IsEmpty(): (r: bool)
      reads this, Repr
      requires Valid()
      ensures r <==> Contents == []
    {
      size <= 0
    }

    /** `list_begin`: iteration starts at the head. */
    function Begin(): (n: Node?<T>)
      reads this, Repr
      requires Valid()
      ensures n == (if Spine == [] then null else Spine[0])
    {
      head
    }

    /** `list_insert_front`. `allocOk` is the allocator's answer: when it
        fails the list is left unchanged and `false` is returned. */
    method InsertFront(data: T, allocOk: bool) returns (ok: bool)
      requires Valid()
      modifies this
      ensures Valid() && fresh(Repr - old(Repr))
      ensures ok == allocOk
      ensures ok ==> Contents == [data] + old(Contents) && Spine[1..] == old(Spine)
      ensures !ok ==> Contents == old(Contents) && Spine == old(Spine)
    {
      if !allocOk {
        return false;
      }
      ghost var spine, contents := Spine, Contents;
      var node := new Node(data, head);
      head := node;
      size := size + 1;
      Spine := [node] + Spine;
      Contents := [data] + Contents;
      Repr := Repr + {node};
      forall i | 0 <= i < |Spine|
        ensures LinkedAt(Spine, Contents, i)
      {
        if i > 0 {
          assert old(LinkedAt(spine, contents, i - 1));
          assert Spine[i] == spine[i - 1] && Contents[i] == contents[i - 1];
        }
      }
      ok := true;
    }

    /** `list_remove_front`: the caller guarantees a non-empty list. */
    method RemoveFront() returns (ok: bool)
      requires Valid() && size >= 1
      modifies this
      ensures Valid() && Repr == old(Repr) && ok
      ensures Contents == old(Contents)[1..] && Spine == old(Spine)[1..]
    {
      ghost var spine, contents := Spine, Contents;
      assert LinkedAt(spine, contents, 0);
      head := head.next;
      size := size - 1;
      Spine := Spine[1..];
      Contents := Contents[1..];
      forall i | 0 <= i < |Spine|
        ensures LinkedAt(Spine, Contents, i)
      {
        assert old(LinkedAt(spine, contents, i + 1));
      }
      ok := true;
    }

    /** `list_insert_next`: links `data` in right after `node`. A null `node`
        falls back to `list_insert_front`. */
    method InsertNext(node: Node?<T>, data: T, allocOk: bool) returns (ok: bool)
      requires Valid() && (node == null || node in Spine)
      modifies this, node
      ensures Valid() && fresh(Repr - old(Repr))
      ensures ok == allocOk
      ensures !ok ==> Contents == old(Contents) && Spine == old(Spine)
      ensures ok && node == null ==> Contents == [data] + old(Contents)
      ensures ok && node != null ==>
                var k := old(IndexOf(node));
                Contents == old(Contents)[..k + 1] + [data] + old(Contents)[k + 1..]
    {
      if node == null {
        ok := InsertFront(data, allocOk);
        return;
      }
      if !allocOk {
        return false;
      }
      ghost var spine, contents := Spine, Contents;
      ghost var k := IndexOf(node);
      assert LinkedAt(spine, contents, k);
      var added := new Node(data, node.next);
      node.next := added;
      size := size + 1;
      Spine := spine[..k + 1] + [added] + spine[k + 1..];
      Contents := contents[..k + 1] + [data] + contents[k + 1..];
      Repr := Repr + {added};
      forall i | 0 <= i < |Spine|
        ensures LinkedAt(Spine, Contents, i)
      {
        if i < k {
          assert old(LinkedAt(spine, contents, i)) && spine[i] != node;
          assert Spine[i] == spine[i] && Spine[i + 1] == spine[i + 1];
        } else if i > k + 1 {
          assert old(LinkedAt(spine, contents, i - 1)) && spine[i - 1] != node;
          assert Spine[i] == spine[i - 1];
        }
      }
      forall i, j | 0 <= i < j < |Spine|
        ensures Spine[i] != Spine[j]
      {
        if j == k + 1 {
          assert Spine[i] == spine[i];
        } else if i == k + 1 {
          assert Spine[j] == spine[j - 1];
        } else {
          assert Spine[i] == spine[if i < k + 1 then i else i - 1];
          assert Spine[j] == spine[if j < k + 1 then j else j - 1];
        }
      }
      ok := true;
    }

    /** `list_remove_next`: unlinks the node right after `node`, which must
        exist. A null `node` falls back to `list_remove_front`. */
    method RemoveNext(node: Node?<T>) returns (ok: bool)
      requires Valid() && size >= 1
      requires node == null || (node in Spine && node.next != null)
      modifies this, node
      ensures Valid() && Repr == old(Repr) && ok
      ensures node == null ==> Contents == old(Contents)[1..]
      ensures node != null ==>
                var k := old(IndexOf(node));
                k + 1 < |old(Contents)| &&
                Contents == old(Contents)[..k + 1] + old(Contents)[k + 2..]
    {
      if node == null {
        ok := RemoveFront();
        return;
      }
      ghost var spine, contents := Spine, Contents;
      ghost var k := IndexOf(node);
      assert LinkedAt(spine, contents, k);
      var gone := node.next;
      assert gone == spine[k + 1] && LinkedAt(spine, contents, k + 1);
      node.next := gone.next;
      size := size - 1;
      Spine := spine[..k + 1] + spine[k + 2..];
      Contents := contents[..k + 1] + contents[k + 2..];
      forall i | 0 <= i < |Spine|
        ensures LinkedAt(Spine, Contents, i)
      {
        if i < k {
          assert old(LinkedAt(spine, contents, i)) && spine[i] != node;
          assert Spine[i] == spine[i] && Spine[i + 1] == spine[i + 1];
        } else if i > k {
          assert old(LinkedAt(spine, contents, i + 1)) && spine[i + 1] != node;
          assert Spine[i] == spine[i + 1];
        }
      }
      forall i, j | 0 <= i < j < |Spine|
        ensures Spine[i] != Spine[j]
      {
        assert Spine[i] == spine[if i <= k then i else i + 1];
        assert Spine[j] == spine[if j <= k then j else j + 1];
      }
      ok := true;
    }

    /** `list_clear`: removes from the front until the head is null. */
    method Clear()
      requires Valid()
      modifies this
      ensures Valid() && Repr == old(Repr)
      ensures Contents == [] && size == 0 && head == null
    {
      while head != null
        invariant Valid() && Repr == old(Repr)
        decreases |Spine|
      {
        var _ := RemoveFront();
      }
    }

    /** `list_destroy`: clears the list. */
    method Destroy()
      requires Valid()
      modifies this
      ensures Valid() && Repr == old(Repr)
      ensures Contents == [] && head == null
    {
      Clear();
    }

    /** `list_push`, an alias of `list_insert_front`: stack push. */
    method Push(data: T, allocOk: bool) returns (ok: bool)
      requires Valid()
      modifies this
      ensures Valid() && fresh(Repr - old(Repr))
      ensures ok == allocOk
      ensures Contents == if ok then [data] + old(Contents) else old(Contents)
    {
      ok := InsertFront(data, allocOk);
    }

    /** `list_pop`, an alias of `list_remove_front`: stack pop. */
    method Pop() returns (ok: bool)
      requires Valid() && size >= 1
      modifies this
      ensures Valid() && Repr == old(Repr) && ok
      ensures Contents == old(Contents)[1..]
    {
      ok := RemoveFront();
    }

    /** `list_insert_back`: called by the breadth-first driver but not defined
        by the list; here it appends after the last node. */
    method InsertBack(data: T, allocOk: bool) returns (ok: bool)
      requires Valid()
      modifies this, Repr
      ensures Valid() && fresh(Repr - old(Repr))
      ensures ok == allocOk
      ensures Contents == if ok then old(Contents) + [data] else old(Contents)
    {
      if head == null {
        ok := InsertFront(data, allocOk);
        return;
      }
      var last := head;
      ghost var k := 0;
      while last.next != null
        invariant 0 <= k < |Spine| && last == Spine[k]
        decreases |Spine| - k
      {
        assert LinkedAt(Spine, Contents, k);
        last := last.next;
        k := k + 1;
      }
      assert LinkedAt(Spine, Contents, k);
      assert IndexOf(last) == k == |Contents| - 1;
      ok := InsertNext(last, data, allocOk);
    }

    /** Walks the list with `list_begin` and `list_next`, collecting the data
        in visiting order. */
    method Elements() returns (elems: seq<T>)
      requires Valid()
      ensures elems == Contents
    {
      elems := [];
      var it := Begin();
      ghost var k := 0;
      while it != null
        invariant 0 <= k <= |Spine|
        invariant it == (if k < |Spine| then Spine[k] else null)
        invariant elems == Contents[..k]
        decreases |Spine| - k
      {
        assert LinkedAt(Spine, Contents, k);
        elems := elems + [it.data];
        it := Next(it);
        k := k + 1;
      }
    }
  }

  /** `list_next`: the node after `iter`. */
  function Next<T>(iter: Node<T>): (n: Node?<T>)
    reads iter
    ensures n == iter.next
  {
    iter.next
  }
}
