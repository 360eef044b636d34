/**
 * The waitlist queue of lms.py: a singly linked chain of nodes with a
 * `front` and a `rear` reference.  The chain is a value here, and the rear
 * reference is modelled by the data of the node it designates.
 */
module Queues {
  import opened Wrappers

  /** The linked nodes reachable from `front`. */
  datatype Chain<T> = End | Link(data: T, next: Chain<T>)

  datatype Queue<T> = Queue(front: Chain<T>, rear: Option<T>)

  /** The items of a chain, front first. */
  function Items<T>(c: Chain<T>): seq<T>
  {
    match c
    case End => []
    case Link(d, n) => [d] + Items(n)
  }

  /** The items of a queue, the one waiting longest first. */
  function Contents<T>(q: Queue<T>): seq<T>
  {
    Items(q.front)
  }

  function Last<T>(c: Chain<T>): T
    requires c.Link?
  {
    if c.next.End? then c.data else Last(c.next)
  }

  /** Attaches a new node after the last node of the chain. */
  function Append<T>(c: Chain<T>, x: T): (r: Chain<T>)
    ensures Items(r) == Items(c) + [x]
    ensures Last(r) == x
  {
    match c
    case End => Link(x, End)
    case Link(d, n) => Link(d, Append(n, x))
  }

  /**
   * The representation invariant the class maintains: `rear` is absent
   * exactly when `front` is, and otherwise designates the last node.
   */
  ghost predicate Valid<T>(q: Queue<T>)
  {
    && (q.front.End? <==> q.rear.None?)
    && (q.front.Link? ==> q.rear == Some(Last(q.front)))
  }

  function Empty<T>(): (q: Queue<T>)
    ensures Valid(q)
    ensures Contents(q) == []
  {
    Queue(End, None)
  }

  /** `enqueue`: the item joins at the rear. */
  function Enqueue<T>(q: Queue<T>, x: T): (r: Queue<T>)
    ensures Valid(q) ==> Valid(r)
    ensures Valid(q) ==> Contents(r) == Contents(q) + [x]
  {
    if q.rear.None? then Queue(Link(x, End), Some(x))
    else Queue(Append(q.front, x), Some(x))
  }

  /**
   * `dequeue`: the front item leaves and is returned; an empty queue yields
   * None and stays as it is.  When the last node leaves, `rear` is reset.
   */
  function Dequeue<T>(q: Queue<T>): (r: (Option<T>, Queue<T>))
    ensures Valid(q) ==> Valid(r.1)
    ensures Contents(q) == [] ==> r.0 == None && r.1 == q
    ensures Contents(q) != [] ==> r.0 == Some(Contents(q)[0]) && Contents(r.1) == Contents(q)[1..]
    ensures |Contents(q)| == 1 ==> r.1.rear == None
  {
    match q.front
    case End => (None, q)
    case Link(d, n) => (Some(d), Queue(n, if n.End? then None else q.rear))
  }

  /** `is_empty`. */
  function IsEmpty<T>(q: Queue<T>): (b: bool)
    ensures b <==> Contents(q) == []
  {
    q.front.End?
  }

  /** Enqueues every item of `xs`, in order. */
  function EnqueueAll<T>(q: Queue<T>, xs: seq<T>): (r: Queue<T>)
    requires Valid(q)
    ensures Valid(r)
    decreases |xs|
  {
    if |xs| == 0 then q else EnqueueAll(Enqueue(q, xs[0]), xs[1..])
  }

  /** Dequeues until the queue is empty and lists what came out. */
  function DrainAll<T>(q: Queue<T>): seq<T>
    requires Valid(q)
    decreases |Contents(q)|
  {
    if IsEmpty(q) then []
    else
      var (x, q') := Dequeue(q);
      [x.value] + DrainAll(q')
  }

  lemma {:induction false} EnqueueAllContents<T>(q: Queue<T>, xs: seq<T>)
    requires Valid(q)
    ensures Contents(EnqueueAll(q, xs)) == Contents(q) + xs
    decreases |xs|
  {
    if |xs| != 0 {
      EnqueueAllContents(Enqueue(q, xs[0]), xs[1..]);
      assert [xs[0]] + xs[1..] == xs;
    }
  }

  lemma {:induction false} DrainAllContents<T>(q: Queue<T>)
    requires Valid(q)
    ensures DrainAll(q) == Contents(q)
    decreases |Contents(q)|
  {
    if !IsEmpty(q) {
      var (x, q') := Dequeue(q);
      DrainAllContents(q');
    }
  }

  /**
   * FIFO: whatever was waiting comes out first, followed by the enqueued
   * items in the order they were enqueued; an empty queue then reports empty.
   */
  lemma {:induction false} Fifo<T>(q: Queue<T>, xs: seq<T>)
    requires Valid(q)
    ensures DrainAll(EnqueueAll(q, xs)) == Contents(q) + xs
    ensures DrainAll(EnqueueAll(Empty(), xs)) == xs
  {
    EnqueueAllContents(q, xs);
    DrainAllContents(EnqueueAll(q, xs));
    EnqueueAllContents(Empty(), xs);
    DrainAllContents(EnqueueAll(Empty<T>(), xs));
  }
}
