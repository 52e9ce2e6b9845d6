/** The customer service requests: a singly linked FIFO queue with a front
    and a rear pointer (newbank.c, `serviceQueue`, `serviceQueueRear`,
    `enqueueRequest`, `dequeueRequest`). */
module ServiceQueue {

  datatype ServiceRequest = ServiceRequest(
    requestId: int,
    accountNo: int,
    requestType: string,
    description: string,
    isProcessed: bool,
    dateSubmitted: string,
    priority: int)

  /** The all-zero request `{0}` that a dequeue from an empty queue returns. */
  const ZeroRequest := ServiceRequest(0, 0, "", "", false, "", 0)

  /** A node of the queue, `struct RequestNode`. */
  class RequestNode {
    var data: ServiceRequest
    var next: RequestNode?

    constructor (data: ServiceRequest)
      ensures this.data == data && next == null
    {
      this.data := data;
      next := null;
    }
  }

  /** The queue: `front` is `serviceQueue`, `rear` is `serviceQueueRear`.
      `nodes` lists the linked nodes from front to rear and `contents` their
      requests, the queue as its users see it. */
  class RequestQueue {
    var front: RequestNode?
    var rear: RequestNode?
    ghost var nodes: seq<RequestNode>
    ghost var contents: seq<ServiceRequest>
    ghost var Repr: set<object>

    /** The nodes are distinct, each links to the next, the last to nothing;
        the front and the rear are the first and the last node, and both are
        null exactly when the queue is empty. */
    ghost predicate Valid()
      reads this, Repr
    {
      && this in Repr
      && (forall i :: 0 <= i < |nodes| ==> nodes[i] in Repr)
      && |contents| == |nodes|
      && (nodes == [] ==> front == null && rear == null)
      && (nodes != [] ==> front == nodes[0] && rear == nodes[|nodes| - 1] && rear.next == null)
      && (forall i :: 0 <= i < |nodes| ==> nodes[i].data == contents[i])
      && (forall i :: 0 <= i < |nodes| - 1 ==> nodes[i].next == nodes[i + 1])
      && (forall i, j :: 0 <= i < j < |nodes| ==> nodes[i] != nodes[j])
    }

    constructor ()
      ensures Valid() && fresh(Repr)
      ensures contents == []
    {
      front := null;
      rear := null;
      nodes := [];
      contents := [];
      Repr := {this};
    }

    /** `enqueueRequest`: links a new node after the rear, or makes it both
        front and rear of an empty queue. */
    method Enqueue(request: ServiceRequest)
      requires Valid()
      modifies Repr
      ensures Valid() && fresh(Repr - old(Repr))
      ensures contents == old(contents) + [request]
      ensures front != null && rear != null
    {
      var node := new RequestNode(request);
      if front == null {
        front := node;
        rear := node;
      } else {
        rear.next := node;
        rear := node;
      }
      nodes := nodes + [node];
      contents := contents + [request];
      Repr := Repr + {node};
    }

    /** `dequeueRequest`: unlinks and returns the front request; the rear is
        reset when the queue becomes empty, and an empty queue yields the
        zeroed request and stays empty. */
    method Dequeue() returns (request: ServiceRequest)
      requires Valid()
      modifies this
      ensures Valid() && Repr == old(Repr)
      ensures old(contents) == [] ==> request == ZeroRequest && contents == []
      ensures old(contents) != [] ==> request == old(contents)[0] && contents == old(contents)[1..]
      ensures (front == null) == (rear == null) == (contents == [])
    {
      request := ZeroRequest;
      if front == null {
        return;
      }
      var node := front;
      front := front.next;
      if front == null {
        rear := null;
      }
      request := node.data;
      nodes := nodes[1..];
      contents := contents[1..];
    }
  }

  /** The queue law: two requests enqueued behind the present ones come out
      after them, first in first out. */
  method EnqueueTwiceThenDequeue(queue: RequestQueue, first: ServiceRequest, second: ServiceRequest)
      returns (out: ServiceRequest)
    requires queue.Valid()
    modifies queue.Repr
    ensures queue.Valid()
    ensures old(queue.contents) == [] ==> out == first && queue.contents == [second]
    ensures old(queue.contents) != [] ==>
      out == old(queue.contents)[0] && queue.contents == old(queue.contents)[1..] + [first, second]
  {
    queue.Enqueue(first);
    queue.Enqueue(second);
    out := queue.Dequeue();
  }
}
