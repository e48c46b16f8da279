/** The ring queue of connections, an array with a head, a tail and a count. */
module ConnQueue {
  import opened Bits
  import opened Smtp

  const CAPACITY: nat := 512

  /** The slot `i` places behind `tail`. */
  function Slot(tail: nat, i: nat): nat
    requires tail < CAPACITY && i <= CAPACITY
  {
    if tail + i < CAPACITY then tail + i else tail + i - CAPACITY
  }

  class ConnectionQueue {
    const data: array<Connection>
    var head: nat
    var tail: nat
    var count: nat

    ghost predicate Valid()
      reads this
    {
      data.Length == CAPACITY && head < CAPACITY && tail < CAPACITY && count <= CAPACITY && head == Slot(tail, count)
    }

    /** The connections in the order in which they leave. */
    ghost function Contents(): (s: seq<Connection>)
      requires Valid()
      reads this, data
    {
      seq(count, i requires 0 <= i < count && Valid() reads this, data => data[Slot(tail, i)])
    }

    constructor ()
      ensures Valid() && fresh(data) && Contents() == []
    {
      data := new Connection[CAPACITY](_ => Connection(false, SMTP, Opened, 0, 0, 0, None));
      head, tail, count := 0, 0, 0;
    }

    /** Appends at the end, unless the queue is full. */
    method Enqueue(conn: Connection) returns (r: int)
      requires Valid()
      modifies this, data
      ensures Valid()
      ensures r == 0 <==> |old(Contents())| < CAPACITY
      ensures Contents() == if r == 0 then old(Contents()) + [conn] else old(Contents())
    {
      if count == CAPACITY {
        return 1;
      }
      data[head] := conn;
      head := (head + 1) % CAPACITY;
      count := count + 1;
      return 0;
    }

    /** Takes the first connection out, unless the queue is empty. */
    method Dequeue(empty: Connection) returns (r: int, conn: Connection)
      requires Valid()
      modifies this
      ensures Valid()
      ensures r == 0 <==> old(Contents()) != []
      ensures r == 0 ==> old(Contents()) == [conn] + Contents()
      ensures r != 0 ==> Contents() == [] && conn == empty
    {
      conn := empty;
      if count == 0 {
        return 1, conn;
      }
      conn := data[tail];
      tail := (tail + 1) % CAPACITY;
      count := count - 1;
      return 0, conn;
    }

    method Count() returns (n: nat)
      requires Valid()
      ensures n == |Contents()|
    {
      return count;
    }
  }
}
