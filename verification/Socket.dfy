/** A client socket as the two proxies use it: what the client sends is read in order, what it is sent
    accumulates, and any single await may be the last. */
module Sockets {
  import opened Bytes
  import Text

  function Least(a: nat, b: nat): nat {
    if a < b then a else b
  }

  /** Length of the line at the front, its newline included; a line may also end with the stream. */
  function LineSpan(s: bytes): (n: nat)
    ensures n <= |s|
    ensures n == 0 <==> s == []
    ensures forall k :: 0 <= k < n - 1 ==> s[k] != Text.NEWLINE
    ensures n < |s| ==> s[n - 1] == Text.NEWLINE
  {
    Least(Text.IndexOf(s, Text.NEWLINE) + 1, |s|)
  }

  /** One client socket. The stream is what the client ever sends, then end of file; the await number
      `cut` is the one at which the deadline passes or the socket fails, after `partial` of its bytes. */
  class Socket {
    const input: bytes
    const cut: nat
    const partial: nat
    var pos: nat
    var out: bytes
    var awaits: nat
    var interrupted: bool

    constructor (input: bytes, cut: nat, partial: nat)
      ensures this.input == input && pos == 0 && out == [] && !interrupted
      ensures this.cut == cut && awaits == 0
    {
      this.input := input;
      this.cut := cut;
      this.partial := partial;
      pos := 0;
      out := [];
      awaits := 0;
      interrupted := false;
    }

    /** One suspension point: it completes, or this is the one that is cut. */
    method Pause() returns (ok: bool)
      requires !interrupted
      modifies `awaits, `interrupted
      ensures ok == !interrupted
      ensures interrupted <==> old(awaits) == cut
    {
      interrupted := awaits == cut;
      awaits := awaits + 1;
      ok := !interrupted;
    }

    /** `read_exact`. */
    method ReadExact(n: nat) returns (r: Option<bytes>)
      requires !interrupted && pos <= |input|
      modifies `pos, `awaits, `interrupted
      ensures old(pos) <= pos <= |input| && pos <= old(pos) + n
      ensures r.Some? ==> !interrupted && pos == old(pos) + n && r.value == input[old(pos)..pos]
      ensures r.None? && !interrupted ==> pos == |input| && |input| < old(pos) + n
    {
      var ok := Pause();
      var left := |input| - pos;
      if !ok {
        pos := pos + Least(partial, Least(n, left));
        return None;
      }
      if left < n {
        pos := |input|;
        return None;
      }
      r := Some(input[pos..pos + n]);
      pos := pos + n;
    }

    /** `write_all` and `flush`. */
    method WriteFrame(frame: bytes) returns (ok: bool)
      requires !interrupted
      modifies `out, `awaits, `interrupted
      ensures old(out) <= out <= old(out) + frame
      ensures ok == !interrupted
      ensures ok ==> out == old(out) + frame
    {
      ok := Pause();
      if !ok {
        out := out + frame[..Least(partial, |frame|)];
        return;
      }
      out := out + frame;
      ok := Pause();
    }
  }
}
