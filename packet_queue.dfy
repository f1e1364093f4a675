/** The packet queue of PacketQueue.ts: packets waiting to be sent, added
    at the back or the front, taken from the front, with a 'readable'
    event for every packet added. */
module PacketQueues {
  import opened Wire

  /** A `packet` argument: any object (`typeof packet === 'object'`, which
      includes null), or a value of another kind. */
  datatype PacketArg<T> = Packet(value: T) | NotAnObject

  class PacketQueue<T> {
    var queue: seq<T>
    /** How many times 'readable' has been emitted. */
    var readable: nat

    constructor ()
      ensures queue == [] && readable == 0
    {
      queue := [];
      readable := 0;
    }

    /** `push(packet)`: the packet goes at the back and 'readable' is
        emitted once; anything but an object is rejected and nothing
        changes. */
    method Push(packet: PacketArg<T>) returns (r: Result<()>)
      modifies this
      ensures packet.NotAnObject? ==>
        r == Err(BadArgument("packet must be a valid object.")) && queue == old(queue) && readable == old(readable)
      ensures packet.Packet? ==> r.Ok? && queue == old(queue) + [packet.value] && readable == old(readable) + 1
    {
      if packet.NotAnObject? {
        return Err(BadArgument("packet must be a valid object."));
      }
      queue := queue + [packet.value];
      readable := readable + 1;
      r := Ok(());
    }

    /** `unshift(packet)`: the packet goes at the front and 'readable' is
        emitted once; anything but an object is rejected and nothing
        changes. */
    method Unshift(packet: PacketArg<T>) returns (r: Result<()>)
      modifies this
      ensures packet.NotAnObject? ==>
        r == Err(BadArgument("packet must be a valid object.")) && queue == old(queue) && readable == old(readable)
      ensures packet.Packet? ==> r.Ok? && queue == [packet.value] + old(queue) && readable == old(readable) + 1
    {
      if packet.NotAnObject? {
        return Err(BadArgument("packet must be a valid object."));
      }
      queue := [packet.value] + queue;
      readable := readable + 1;
      r := Ok(());
    }

    /** `shift()`: the front packet, removed, or undefined (None) when the
        queue is empty. */
    method Shift() returns (r: Option<T>)
      modifies this
      ensures |old(queue)| == 0 ==> r.None? && queue == old(queue)
      ensures |old(queue)| > 0 ==> r == Some(old(queue)[0]) && queue == old(queue)[1..]
      ensures readable == old(readable)
    {
      if |queue| == 0 {
        return None;
      }
      r := Some(queue[0]);
      queue := queue[1..];
    }
  }

  /** Shift undoes unshift: a packet put back at the front is the next
      one out, and the queue is as it was. */
  method UnshiftThenShift<T>(q: PacketQueue<T>, p: T) returns (r: Option<T>)
    modifies q
    ensures r == Some(p) && q.queue == old(q.queue) && q.readable == old(q.readable) + 1
  {
    var u := q.Unshift(Packet(p));
    r := q.Shift();
    assert ([p] + old(q.queue))[1..] == old(q.queue);
  }
}
