/** The ring behind the keyboard and the pipes: 64 slots of which 63 can be in use, and
    what pipe_read and pipe_write do with it. */
module IoQueue {
  import opened Bytes

  const BUFSIZE := 64

  datatype Ring = Ring(buf: seq<byte>, head: nat, tail: nat)

  predicate RingOk(r: Ring) {
    |r.buf| == BUFSIZE && r.head < BUFSIZE && r.tail < BUFSIZE
  }

  function NextPos(pos: nat): nat {
    (pos + 1) % BUFSIZE
  }

  predicate Full(r: Ring) {
    NextPos(r.head) == r.tail
  }

  predicate Empty(r: Ring) {
    r.head == r.tail
  }

  /** ioq_length */
  function Length(r: Ring): nat
    requires RingOk(r)
  {
    if r.head >= r.tail then r.head - r.tail else BUFSIZE - (r.tail - r.head)
  }

  /** The bytes in the ring, the oldest first. */
  function Contents(r: Ring): (c: seq<byte>)
    requires RingOk(r)
  {
    seq(Length(r), i requires 0 <= i < Length(r) => r.buf[(r.tail + i) % BUFSIZE])
  }

  function Put(r: Ring, b: byte): Ring
    requires RingOk(r)
  {
    r.(buf := r.buf[r.head := b], head := NextPos(r.head))
  }

  function Got(r: Ring): Ring {
    r.(tail := NextPos(r.tail))
  }

  /** The ring is the queue of its contents: full at 63, empty at none, and what ioq_length
      computes by cases is how many there are. */
  lemma RingIsQueue(r: Ring)
    requires RingOk(r)
    ensures |Contents(r)| == Length(r) <= BUFSIZE - 1
    ensures Full(r) <==> |Contents(r)| == BUFSIZE - 1
    ensures Empty(r) <==> Contents(r) == []
    ensures forall b: byte :: !Full(r) ==> RingOk(Put(r, b)) && Contents(Put(r, b)) == Contents(r) + [b]
    ensures !Empty(r) ==> RingOk(Got(r)) && Contents(r) == [r.buf[r.tail]] + Contents(Got(r))
  {
    forall b: byte | !Full(r)
      ensures RingOk(Put(r, b)) && Contents(Put(r, b)) == Contents(r) + [b]
    {
      PutAppends(r, b);
    }
    if !Empty(r) {
      GotDrops(r);
    }
  }

  lemma PutAppends(r: Ring, b: byte)
    requires RingOk(r) && !Full(r)
    ensures RingOk(Put(r, b)) && Contents(Put(r, b)) == Contents(r) + [b]
  {
    var c, c' := Contents(r), Contents(Put(r, b));
    assert Length(Put(r, b)) == Length(r) + 1;
    forall i | 0 <= i < Length(r) + 1
      ensures c'[i] == (c + [b])[i]
    {
      Slot(r.head, r.tail, i);
    }
  }

  lemma Slot(head: nat, tail: nat, i: nat)
    requires head < BUFSIZE && tail < BUFSIZE && i < BUFSIZE
    ensures var len := if head >= tail then head - tail else BUFSIZE - (tail - head);
            (i < len ==> (tail + i) % BUFSIZE != head) && (i == len ==> (tail + i) % BUFSIZE == head)
  {
  }

  lemma GotDrops(r: Ring)
    requires RingOk(r) && !Empty(r)
    ensures RingOk(Got(r)) && Contents(r) == [r.buf[r.tail]] + Contents(Got(r))
  {
    var c, c' := Contents(r), Contents(Got(r));
    assert Length(Got(r)) == Length(r) - 1;
    forall i | 0 < i < Length(r)
      ensures c[i] == c'[i - 1]
    {
      assert (NextPos(r.tail) + (i - 1)) % BUFSIZE == (r.tail + i) % BUFSIZE;
    }
  }

  // ---- every interleaving ----

  /** What reaches the ring, in whatever order the tasks get to it: a byte put where there
      was room, a byte taken where there was one. Waiting and waking leave it alone. */
  datatype Event = Putchar(b: byte) | Getchar(b: byte)

  ghost predicate Happens(r: Ring, e: Event) {
    && RingOk(r)
    && match e
       case Putchar(_) => !Full(r)
       case Getchar(b) => !Empty(r) && b == r.buf[r.tail]
  }

  function After(r: Ring, e: Event): Ring
    requires RingOk(r)
  {
    match e case Putchar(b) => Put(r, b) case Getchar(_) => Got(r)
  }

  ghost predicate Run(rings: seq<Ring>, es: seq<Event>) {
    && |rings| == |es| + 1 && RingOk(rings[0])
    && forall i :: 0 <= i < |es| ==> Happens(rings[i], es[i]) && rings[i + 1] == After(rings[i], es[i])
  }

  function Sent(e: Event): seq<byte> {
    if e.Putchar? then [e.b] else []
  }

  function Taken(e: Event): seq<byte> {
    if e.Getchar? then [e.b] else []
  }

  function Produced(es: seq<Event>): seq<byte> {
    if es == [] then [] else Produced(es[..|es| - 1]) + Sent(es[|es| - 1])
  }

  function Consumed(es: seq<Event>): seq<byte> {
    if es == [] then [] else Consumed(es[..|es| - 1]) + Taken(es[|es| - 1])
  }

  /** First in, first out: what was in the ring and what was produced is what was consumed
      and what is in the ring. */
  lemma {:induction false} Conserved(rings: seq<Ring>, es: seq<Event>)
    requires Run(rings, es)
    ensures RingOk(rings[|es|])
    ensures Contents(rings[0]) + Produced(es) == Consumed(es) + Contents(rings[|es|])
    decreases |es|
  {
    hide RingOk, Contents, Put, Got, Full, Empty;
    if es != [] {
      var n := |es| - 1;
      Conserved(rings[..n + 1], es[..n]);
      OneEvent(rings[n], es[n], Contents(rings[0]) + Produced(es[..n]), Consumed(es[..n]));
      assert Contents(rings[0]) + (Produced(es[..n]) + Sent(es[n])) == Contents(rings[0]) + Produced(es[..n]) + Sent(es[n]);
    } else {
      assert [] + Contents(rings[0]) == Contents(rings[0]) + [];
    }
  }

  lemma OneEvent(r: Ring, e: Event, sent: seq<byte>, taken: seq<byte>)
    requires Happens(r, e) && sent == taken + Contents(r)
    ensures RingOk(After(r, e)) && sent + Sent(e) == taken + Taken(e) + Contents(After(r, e))
  {
    hide Contents, Put, Got;
    match e
    case Putchar(b) => PutAppends(r, b);
    case Getchar(b) => GotIsHead(r, b);
  }

  lemma GotIsHead(r: Ring, b: byte)
    requires Happens(r, Getchar(b))
    ensures RingOk(Got(r)) && Contents(r) == [b] + Contents(Got(r))
  {
    GotDrops(r);
  }

  // ---- in place ----

  class Queue {
    const buf: array<byte>
    var head: nat
    var tail: nat

    constructor ()
      ensures fresh(buf) && Valid() && Contents(R()) == []
    {
      buf := new byte[64](_ => 0);
      head, tail := 0, 0;
    }

    function R(): Ring
      reads this, buf
    {
      Ring(buf[..], head, tail)
    }

    predicate Valid()
      reads this, buf
    {
      RingOk(R())
    }

    /** ioq_putchar once it is past its loop. */
    method PutByte(b: byte)
      requires Valid() && !Full(R())
      modifies buf, `head
      ensures Valid() && R() == Put(old(R()), b)
      ensures Contents(R()) == old(Contents(R())) + [b]
    {
      PutAppends(R(), b);
      buf[head] := b;
      head := NextPos(head);
    }

    /** ioq_getchar once it is past its loop. */
    method GetByte() returns (b: byte)
      requires Valid() && !Empty(R())
      modifies `tail
      ensures Valid() && R() == Got(old(R()))
      ensures old(Contents(R())) == [b] + Contents(R())
    {
      GotDrops(R());
      b := buf[tail];
      tail := NextPos(tail);
    }

    /** pipe_read: what is there, up to `count`, without ever waiting. */
    method PipeRead(count: nat) returns (buffer: seq<byte>)
      requires Valid()
      modifies `tail
      ensures Valid()
      ensures |buffer| == if old(Length(R())) > count then count else old(Length(R()))
      ensures old(Contents(R())) == buffer + Contents(R())
    {
      RingIsQueue(R());
      ghost var c := Contents(R());
      var ioqLen := Length(R());
      var size := if ioqLen > count then count else ioqLen;
      buffer := [];
      while |buffer| < size
        invariant |buffer| <= size <= |c| && Valid() && buf[..] == old(buf[..])
        invariant c == buffer + Contents(R())
      {
        RingIsQueue(R());
        ghost var rest := Contents(R());
        var b := GetByte();
        assert buffer + rest == buffer + [b] + Contents(R());
        buffer := buffer + [b];
      }
    }

    /** pipe_write, to its end or to where it would wait for a reader. It takes the room to
        be 64 less the length, while the ring holds 63: so it comes to wait exactly when
        there is more to write than there is room, having filled the ring. */
    method PipeWrite(buffer: seq<byte>, count: nat) returns (written: nat, waits: bool)
      requires Valid() && count <= |buffer|
      modifies buf, `head
      ensures Valid() && written <= count
      ensures Contents(R()) == old(Contents(R())) + buffer[..written]
      ensures waits <==> count > BUFSIZE - 1 - old(Length(R()))
      ensures if waits then Full(R()) && Length(R()) == BUFSIZE - 1 else written == count
    {
      RingIsQueue(R());
      ghost var c := Contents(R());
      var ioqLeft := BUFSIZE - Length(R());
      var size := if ioqLeft > count then count else ioqLeft;
      written := 0;
      assert c + buffer[..0] == c;
      while written < size
        invariant written <= size <= count && Valid()
        invariant Contents(R()) == c + buffer[..written]
      {
        RingIsQueue(R());
        if Full(R()) {
          return written, true;
        }
        PutByte(buffer[written]);
        assert buffer[..written + 1] == buffer[..written] + [buffer[written]];
        assert c + buffer[..written] + [buffer[written]] == c + buffer[..written + 1];
        written := written + 1;
      }
      RingIsQueue(R());
      return written, false;
    }
  }

  /** What was written comes back in order, across the wrap of the ring and any wait: a
      write that stopped at n bytes and its rest make the same queue as one write would. */
  lemma WriteInParts(c: seq<byte>, buffer: seq<byte>, n: nat, taken: nat)
    requires n <= |buffer| && taken <= |c| + n
    ensures (c + buffer[..n])[taken..] + buffer[n..] == (c + buffer)[taken..]
    ensures (c + buffer[..n])[..taken] == (c + buffer)[..taken]
  {
    assert c + buffer == c + buffer[..n] + buffer[n..];
  }
}
