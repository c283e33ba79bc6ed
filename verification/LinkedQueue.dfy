/** The same queue one call at a time, on nodes linked in place. */
module LinkedQueue {

  class Node<T> {
    var value: T
    var next: Node?<T>

    constructor (value: T)
      ensures this.value == value && next == null
    {
      this.value, next := value, null;
    }
  }

  class ManyToOneConcurrentLinkedQueue<T(0)> {
    var head: Node<T>
    var tail: Node<T>
    ghost var spine: seq<Node<T>>
    ghost var contents: seq<T>

    ghost predicate Valid()
      reads this, spine
    {
      && spine != [] && head == spine[0] && tail == spine[|spine| - 1]
      && (forall i, j :: 0 <= i < j < |spine| ==> spine[i] != spine[j])
      && (forall i :: 0 <= i < |spine| - 1 ==> spine[i].next == spine[i + 1])
      && spine[|spine| - 1].next == null
      && |contents| == |spine| - 1
      && (forall i :: 0 <= i < |contents| ==> contents[i] == spine[i + 1].value)
    }

    constructor (initial: T)
      ensures Valid() && contents == [] && fresh(spine)
    {
      var sentinel := new Node(initial);
      head, tail := sentinel, sentinel;
      spine, contents := [sentinel], [];
    }

    method Enqueue(value: T)
      requires Valid()
      modifies this, spine
      ensures Valid() && contents == old(contents) + [value]
      ensures spine[..|spine| - 1] == old(spine) && fresh(spine[|spine| - 1])
    {
      var node := new Node(value);
      var prevTail := tail;
      tail := node;
      prevTail.next := node;
      spine, contents := spine + [node], contents + [value];
    }

    /** Takes the oldest value, or fails exactly when there is none. */
    method TryDequeue() returns (ok: bool, out: T)
      requires Valid()
      modifies this
      ensures Valid() && (ok <==> old(contents) != [])
      ensures ok ==> contents == old(contents)[1..] && out == old(contents)[0] && spine == old(spine)[1..]
      ensures !ok ==> contents == old(contents) && spine == old(spine)
    {
      var first := head;
      assert |spine| > 1 ==> spine[0].next == spine[1];
      var next := first.next;
      if next == null {
        out := first.value;
        return false, out;
      }
      assert next == spine[1];
      out := next.value;
      head := next;
      spine, contents := spine[1..], contents[1..];
      return true, out;
    }

    predicate Empty()
      requires Valid()
      reads this, spine
      ensures Empty() <==> contents == []
    {
      assert |spine| > 1 ==> spine[0].next == spine[1];
      head.next == null
    }
  }
}
