/** The buffered reader the HTTP proxy puts over its client: it takes from the socket whatever is there, up
    to its capacity, and what it has taken and not handed out is lost when the socket is taken back. */
module BufReaders {
  import opened Bytes
  import opened Sockets
  import Text

  const CAPACITY: nat := 8192

  /** What one fill gets, of `there` bytes that have arrived: as much as the segment brings. */
  function FillSize(segment: nat, there: nat): nat {
    Least(Least(segment + 1, CAPACITY), there)
  }

  /** Where the socket stands after `i` fills of an empty buffer, `early` bytes being there to take. */
  function FillEnd(segments: nat -> nat, early: nat, i: nat): (end: nat)
    ensures end <= early
  {
    if i == 0 then 0
    else
      var before := FillEnd(segments, early, i - 1);
      before + FillSize(segments(i - 1), early - before)
  }

  /** Where the socket can stand once `used` bytes were handed out: the end of the fill that brought the
      last of them. */
  ghost predicate TakenFor(segments: nat -> nat, early: nat, used: nat, taken: nat) {
    exists i: nat :: FillBrings(segments, early, used, taken, i)
  }

  predicate FillBrings(segments: nat -> nat, early: nat, used: nat, taken: nat, i: nat) {
    taken == FillEnd(segments, early, i) && used <= taken && if i == 0 then used == 0 else FillEnd(segments, early, i - 1) < used
  }

  /** A fill never takes a whole buffer more than was needed. */
  lemma TakenRange(segments: nat -> nat, early: nat, used: nat, taken: nat)
    requires TakenFor(segments, early, used, taken)
    ensures used <= taken <= early && (if used == 0 then taken == 0 else taken < used + 8192)
  {
    var i: nat :| FillBrings(segments, early, used, taken, i);
  }

  lemma {:induction false} FillsGrow(segments: nat -> nat, early: nat, i: nat, j: nat)
    requires i <= j
    ensures FillEnd(segments, early, i) <= FillEnd(segments, early, j)
  {
    if i < j { FillsGrow(segments, early, i, j - 1); }
  }

  /** What was taken is determined by how the stream arrived. */
  lemma TakenOnce(segments: nat -> nat, early: nat, used: nat, taken: nat, taken': nat)
    requires TakenFor(segments, early, used, taken) && TakenFor(segments, early, used, taken')
    ensures taken == taken'
  {
    var i: nat :| FillBrings(segments, early, used, taken, i);
    var j: nat :| FillBrings(segments, early, used, taken', j);
    hide FillEnd;
    if i < j { FillsGrow(segments, early, i, j - 1); }
    if j < i { FillsGrow(segments, early, j, i - 1); }
  }

  lemma {:induction false} ByteByByte(segments: nat -> nat, early: nat, i: nat)
    requires i <= early && forall k :: 0 <= k < i ==> segments(k) == 0
    ensures FillEnd(segments, early, i) == i
  {
    if i > 0 { ByteByByte(segments, early, i - 1); }
  }

  /** Bytes beyond those used are never taken, however the stream arrives, exactly when there are none. */
  lemma NothingExtraExactly(early: nat, used: nat)
    requires 0 < used <= early
    ensures (forall segments, taken :: TakenFor(segments, early, used, taken) ==> taken == used) <==> early == used
  {
    if early == used {
      forall segments, taken | TakenFor(segments, early, used, taken) ensures taken == used {
        TakenRange(segments, early, used, taken);
      }
    } else {
      var segments: nat -> nat := i => if i == used - 1 then 1 else 0;
      ByteByByte(segments, early, used - 1);
      assert FillEnd(segments, early, used) == used + 1;
      assert FillBrings(segments, early, used, used + 1, used);
      assert TakenFor(segments, early, used, used + 1);
    }
  }

  /** What arrives in one segment is taken whole. */
  lemma OneSegment(segments: nat -> nat, early: nat, used: nat)
    requires 0 < used <= early <= 8192 && segments(0) + 1 >= early
    ensures TakenFor(segments, early, used, early)
  {
    assert FillEnd(segments, early, 0) == 0;
    assert FillBrings(segments, early, used, early, 1);
  }

  class BufReader {
    const socket: Socket
    /** How much of its stream the client sends before it hears anything. */
    const early: nat
    /** How much each arriving segment brings, less one: no segment is empty. */
    const segments: nat -> nat
    var pos: nat
    var fills: nat

    constructor (socket: Socket, early: nat, segments: nat -> nat)
      ensures this.socket == socket && this.early == early && this.segments == segments
      ensures pos == 0 && fills == 0
    {
      this.socket := socket;
      this.early := early;
      this.segments := segments;
      pos := 0;
      fills := 0;
    }

    /** How much there is to take. */
    function Arrives(): nat {
      Least(early, |socket.input|)
    }

    /** With `p` bytes handed out, these were taken, and each fill was needed. */
    predicate FitsAt(p: nat)
      reads this`fills, socket`pos
    {
      && p <= socket.pos == FillEnd(segments, Arrives(), fills)
      && if fills == 0 then p == 0 else FillEnd(segments, Arrives(), fills - 1) < p
    }

    predicate Valid()
      reads this`pos, this`fills, socket`pos
    {
      FitsAt(pos)
    }

    lemma NewIsValid()
      requires pos == fills == socket.pos == 0
      ensures Valid()
    {
    }

    lemma ValidIsTaken()
      requires Valid()
      ensures TakenFor(segments, Arrives(), pos, socket.pos)
      ensures socket.pos <= Arrives() && socket.pos < pos + CAPACITY
    {
      assert FillBrings(segments, Arrives(), pos, socket.pos, fills);
    }

    /** `fill_buf`: one read when the buffer is empty. A client that has more to send and waits to be
        answered first leaves it waiting until the deadline. */
    method FillBuf() returns (ok: bool)
      requires !socket.interrupted && Valid()
      modifies this`fills, socket`pos, socket`awaits, socket`interrupted
      ensures ok == !socket.interrupted
      ensures pos <= socket.pos <= |socket.input|
      ensures ok && pos == socket.pos ==> Valid() && pos == |socket.input|
      ensures forall p :: pos < p <= socket.pos ==> FitsAt(p)
    {
      if pos < socket.pos {
        return true;
      }
      ok := socket.Pause();
      if !ok {
        return;
      }
      if socket.pos == Arrives() {
        if socket.pos < |socket.input| {
          socket.interrupted := true;
          ok := false;
        }
        return;
      }
      var n := FillSize(segments(fills), Arrives() - socket.pos);
      socket.pos := socket.pos + n;
      fills := fills + 1;
    }

    /** Hands out what is buffered, through the newline if there is one, at most `limit` bytes. */
    method Consume(limit: nat) returns (found: bool)
      requires limit > 0 && pos < socket.pos <= |socket.input|
      modifies this`pos
      ensures old(pos) < pos <= socket.pos && pos <= old(pos) + limit
      ensures forall k :: old(pos) <= k < pos - 1 ==> socket.input[k] != Text.NEWLINE
      ensures found <==> socket.input[pos - 1] == Text.NEWLINE
    {
      var available := socket.input[pos..Least(socket.pos, pos + limit)];
      var i := Text.IndexOf(available, Text.NEWLINE);
      found := i < |available|;
      forall k | pos <= k < pos + i ensures socket.input[k] != Text.NEWLINE {
        assert available[k - pos] != Text.NEWLINE;
      }
      pos := pos + if found then i + 1 else i;
    }

    /** `take(limit)`, then `read_until` the newline. */
    method ReadUntil(limit: nat) returns (r: Option<bytes>)
      requires !socket.interrupted && Valid() && pos <= |socket.input|
      modifies this`pos, this`fills, socket`pos, socket`awaits, socket`interrupted
      ensures r.Some? == !socket.interrupted
      ensures old(pos) <= pos <= |socket.input| && pos <= old(pos) + limit
      ensures pos <= socket.pos <= |socket.input|
      ensures r.Some? ==> Valid()
      ensures r.Some? ==> pos == old(pos) + Least(limit, LineSpan(socket.input[old(pos)..]))
                          && r.value == socket.input[old(pos)..pos]
    {
      hide FitsAt, LineSpan;
      ValidIsTaken();
      var start := pos;
      var found := false;
      while pos - start < limit && !found
        invariant !socket.interrupted && Valid() && start <= pos <= socket.pos <= |socket.input| && pos - start <= limit
        invariant forall k :: start <= k < pos - 1 ==> socket.input[k] != Text.NEWLINE
        invariant pos > start ==> (found <==> socket.input[pos - 1] == Text.NEWLINE)
        invariant found ==> pos > start
        decreases |socket.input| - pos
      {
        var ok := FillBuf();
        if !ok {
          return None;
        }
        if pos == socket.pos {
          break;
        }
        found := Consume(start + limit - pos);
      }
      SpanReached(socket.input[start..], pos - start, limit, found);
      return Some(socket.input[start..pos]);
    }
  }

  lemma SpanReached(line: bytes, n: nat, limit: nat, found: bool)
    requires n <= |line| && n <= limit
    requires forall k :: 0 <= k < n - 1 ==> line[k] != Text.NEWLINE
    requires n > 0 ==> (found <==> line[n - 1] == Text.NEWLINE)
    requires if found then n > 0 else n == limit || n == |line|
    ensures n == Least(limit, LineSpan(line))
  {
    if found {
      Text.IndexOfIs(line, Text.NEWLINE, n - 1);
    }
  }
}
