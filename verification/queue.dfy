/** The first-in first-out queue both table generators keep as a linked list
    of nodes with `front` and `back` pointers (`enqueue` / `dequeue`). Its
    contents are held as a sequence, front first. */
module Queues {
  import opened Common

  class Queue<T> {
    /** The queued items, the front of the queue first. */
    var contents: seq<T>

    /** An empty queue: `front` and `back` both NULL. */
    constructor ()
      ensures contents == []
    {
      contents := [];
    }

    predicate IsEmpty()
      reads this
    {
      contents == []
    }

    /** Links an item after the back of the queue; an empty queue gets it as
        both its front and its back. */
    method Enqueue(x: T)
      modifies this
      ensures contents == old(contents) + [x]
    {
      contents := contents + [x];
    }

    /** Unlinks and returns the front item, or nothing (NULL) when the queue
        is empty, in which case the queue is left as it is. */
    method Dequeue() returns (r: Option<T>)
      modifies this
      ensures old(contents) == [] ==> r == None && contents == []
      ensures old(contents) != [] ==> r == Some(old(contents)[0]) && contents == old(contents)[1..]
    {
      if contents == [] {
        r := None;
      } else {
        r := Some(contents[0]);
        contents := contents[1..];
      }
    }
  }
}
