/** The linked lists of the client (`buffer_head_t`, `completion_head_t`): a head, a last
    element and `next` links, which stand for the sequences of the specification. */
module LinkedQueue {
  import opened Common

  class Node<T> {
    const value: T
    var next: Node?<T>

    constructor (value: T)
      ensures this.value == value && next == null
    {
      this.value, next := value, null;
    }
  }

  class Queue<T> {
    var head: Node?<T>
    var last: Node?<T>
    ghost var nodes: seq<Node<T>>
    ghost var Repr: set<object>

    ghost predicate Valid()
      reads this, Repr
    {
      && this in Repr && (forall i | 0 <= i < |nodes| :: nodes[i] in Repr)
      && (nodes == [] ==> head == null && last == null)
      && (nodes != [] ==> head == nodes[0] && last == nodes[|nodes| - 1] && nodes[|nodes| - 1].next == null)
      && (forall i {:trigger nodes[i].next} | 0 <= i < |nodes| - 1 :: nodes[i].next == nodes[i + 1])
      && (forall i, j | 0 <= i < j < |nodes| :: nodes[i] != nodes[j])
    }

    ghost function Contents(): seq<T>
      reads this
    {
      seq(|nodes|, i requires 0 <= i < |nodes| reads this => nodes[i].value)
    }

    constructor ()
      ensures Valid() && Contents() == [] && Repr == {this}
    {
      head, last, nodes, Repr := null, null, [], {this};
    }

    /** `queue_buffer` and `queue_completion_nolock`. */
    method Enqueue(value: T, addToFront: bool)
      requires Valid()
      modifies Repr
      ensures Valid() && old(Repr) <= Repr && fresh(Repr - old(Repr))
      ensures Contents() == if addToFront then [value] + old(Contents()) else old(Contents()) + [value]
    {
      var n := new Node(value);
      if head != null {
        if addToFront {
          n.next := head;
          head := n;
          nodes := [n] + nodes;
          assert forall i | 1 <= i < |nodes| :: nodes[i] == old(nodes)[i - 1];
        } else {
          last.next := n;
          last := n;
          nodes := nodes + [n];
        }
      } else {
        head, last := n, n;
        nodes := [n];
      }
      Repr := Repr + {n};
    }

    /** `dequeue_buffer` and `dequeue_completion`, with the assertion they make. */
    method Dequeue() returns (r: Option<T>)
      requires Valid()
      modifies this
      ensures Valid() && Repr == old(Repr) && (r == None <==> old(Contents()) == [])
      ensures r.Some? ==> old(Contents()) == [r.value] + Contents()
      ensures r == None ==> Contents() == []
    {
      if head == null { return None; }
      var n := head;
      assert n == nodes[0] && (if |nodes| == 1 then nodes[0].next == null else nodes[0].next == nodes[1]);
      head := n.next;
      if head == null {
        assert last == n;
        last := null;
      }
      nodes := nodes[1..];
      assert forall i | 0 <= i < |nodes| :: nodes[i] == old(nodes)[i + 1];
      r := Some(n.value);
    }

    /** The whole list moves to another list head, as `free_completions` does it. */
    method TakeAll() returns (q: Queue<T>)
      requires Valid()
      modifies this
      ensures Valid() && Contents() == [] && Repr == {this}
      ensures fresh(q) && q.Valid() && q.Contents() == old(Contents()) && q.Repr == old(Repr) - {this} + {q}
    {
      q := new Queue();
      q.head, q.last, q.nodes, q.Repr := head, last, nodes, Repr - {this} + {q};
      head, last, nodes, Repr := null, null, [], {this};
    }
  }
}
