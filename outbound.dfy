/** The foreground loop that sends each line typed on standard input to the
    peer, then closes its handle on the connection. Lines arrive already split
    (terminators removed) as their UTF-8 bytes; each is paired with what the
    socket write of that line would report, consulted only if the write is
    made. */
module Outbound {
  import opened Io

  /** The result of `stream.write_all(line)`. On failure an unknown number of
      the line's bytes may already have reached the socket; `delivered` is that
      number. */
  datatype WriteOutcome = Written | WriteFailed(delivered: nat, kind: ErrorKind)

  /** One line read from standard input, or a failed read. */
  datatype LineEvent = Line(bytes: seq<byte>, write: WriteOutcome) | LineReadFailed

  /** Why the loop ended: an empty line, end of input, a failed line read, or a
      failed socket write. */
  datatype OutboundStop = EmptyLine | EndOfInput | InputError | WriteError(kind: ErrorKind)

  /** The bytes of `line` that reach the socket under write outcome `w`.
      `write_all` fails only while bytes are still unwritten, so a failed write
      of a non-empty line delivers a strict prefix of it. */
  function Delivered(line: seq<byte>, w: WriteOutcome): (d: seq<byte>)
    ensures d <= line
    ensures w.Written? ==> d == line
    ensures w.WriteFailed? && line != [] ==> |d| == Min(w.delivered, |line| - 1) < |line|
  {
    match w
    case Written => line
    case WriteFailed(n, _) => if line == [] then [] else line[..Min(n, |line| - 1)]
  }

  /** The input items that end the loop. */
  predicate Ends(e: LineEvent)
  {
    e.LineReadFailed? || e.bytes == [] || e.write.WriteFailed?
  }

  /** Index of the item that ends the loop, or `|events|` if input runs out. */
  function StopIndex(events: seq<LineEvent>): nat
  {
    FirstIndex(events, Ends)
  }

  /** What the item that ends the loop still puts on the socket: only a line
      whose write failed, and then only what got through. */
  function FinalBytes(e: LineEvent): (d: seq<byte>)
    requires Ends(e)
    ensures e.Line? ==> d <= e.bytes
    ensures e.Line? && e.bytes != [] ==> |d| < |e.bytes|
    ensures e.LineReadFailed? || e.bytes == [] ==> d == []
  {
    if e.Line? && e.bytes != [] then Delivered(e.bytes, e.write) else []
  }

  /** The reason the item that ends the loop gives. */
  function StopFor(e: LineEvent): OutboundStop
    requires Ends(e)
  {
    if e.LineReadFailed? then InputError
    else if e.bytes == [] then EmptyLine
    else WriteError(e.write.kind)
  }

  /** The bytes the loop puts on the socket. */
  function Sent(events: seq<LineEvent>): (r: seq<byte>)
    ensures r <= JoinedLines(events)
    decreases |events|
  {
    if events == [] then []
    else if Ends(events[0]) then FinalBytes(events[0])
    else events[0].bytes + Sent(events[1..])
  }

  /** The reason the loop ends. */
  function Stop(events: seq<LineEvent>): (r: OutboundStop)
    ensures r == InputError ==> LineReadFailed in events
    ensures r != EndOfInput ==> events != []
    decreases |events|
  {
    if events == [] then EndOfInput
    else if Ends(events[0]) then StopFor(events[0])
    else Stop(events[1..])
  }

  /** Reference definition: the lines' bytes back to back, with no separator;
      a failed read contributes nothing. */
  function JoinedLines(events: seq<LineEvent>): seq<byte>
    decreases |events|
  {
    if events == [] then []
    else (if events[0].Line? then events[0].bytes else []) + JoinedLines(events[1..])
  }

  /** The write half of the TCP connection, as the outbound loop owns it. */
  class Connection {
    /** Every byte handed to the socket so far. */
    var sent: seq<byte>
    /** How many times this handle has been closed. */
    var closes: nat

    constructor ()
      ensures sent == [] && closes == 0
    {
      sent := [];
      closes := 0;
    }

    /** `stream.write_all(bytes)`, on an open handle. */
    method WriteAll(bytes: seq<byte>, outcome: WriteOutcome) returns (r: Result<(), ErrorKind>)
      requires closes == 0
      modifies this
      ensures sent == old(sent) + Delivered(bytes, outcome)
      ensures closes == old(closes)
      ensures r.Ok? <==> outcome.Written?
      ensures r.Err? ==> r.error == outcome.kind
    {
      sent := sent + Delivered(bytes, outcome);
      r := if outcome.Written? then Ok(()) else Err(outcome.kind);
    }

    /** `drop(stream)`: closing the handle sends nothing more. */
    method Close()
      modifies this
      ensures sent == old(sent)
      ensures closes == old(closes) + 1
    {
      closes := closes + 1;
    }
  }

  /** One turn of the loop: an item that ends the loop yields its reason; a
      non-empty line is written first, and a failed write ends the loop. */
  method Turn(conn: Connection, e: LineEvent) returns (stop: Option<OutboundStop>)
    requires conn.closes == 0
    modifies conn
    ensures conn.closes == 0
    ensures conn.sent == old(conn.sent) + (if Ends(e) then FinalBytes(e) else e.bytes)
    ensures stop == if Ends(e) then Some(StopFor(e)) else None
  {
    match e {
      case LineReadFailed =>
        stop := Some(InputError);
      case Line(input, outcome) =>
        if input == [] {
          stop := Some(EmptyLine);
          return;
        }
        var r := conn.WriteAll(input, outcome);
        if r.Err? {
          stop := Some(WriteError(r.error));
        } else {
          stop := None;
        }
    }
  }

  /** Regrouping of concatenations, stated once so that the loop in
      `SendLines` names the two regroupings it needs instead of leaving the
      solver to search for them; without these steps its proof is several
      times costlier and unstable across solver seeds. */
  lemma Assoc(a: seq<byte>, b: seq<byte>, c: seq<byte>)
    ensures (a + b) + c == a + (b + c)
  {
  }

  /** `Sent` and `Stop` from position `i` on, one item at a time. The loop in
      `SendLines` uses it to unfold both at the current item in one step,
      which keeps that proof cheap. */
  lemma Unroll(events: seq<LineEvent>, i: nat)
    requires i < |events|
    ensures Sent(events[i..]) ==
              if Ends(events[i]) then FinalBytes(events[i]) else events[i].bytes + Sent(events[i + 1..])
    ensures Stop(events[i..]) ==
              if Ends(events[i]) then StopFor(events[i]) else Stop(events[i + 1..])
  {
    assert events[i..][0] == events[i] && events[i..][1..] == events[i + 1..];
  }

  /** The main thread after connecting: send each line until an empty line, a
      failed read or a failed write, or the end of input; then close the
      connection and return `Ok(())` whatever the reason. */
  method SendLines(conn: Connection, events: seq<LineEvent>)
    returns (stop: OutboundStop, status: Result<(), ErrorKind>)
    requires conn.closes == 0
    modifies conn
    ensures conn.sent == old(conn.sent) + Sent(events)
    ensures stop == Stop(events)
    ensures conn.closes == 1
    ensures status == Ok(())
  {
    ghost var done: seq<byte> := [];
    stop := EndOfInput;
    var i := 0;
    while i < |events|
      invariant 0 <= i <= |events|
      invariant conn.closes == 0
      invariant conn.sent == old(conn.sent) + done
      invariant Sent(events) == done + Sent(events[i..])
      invariant Stop(events) == Stop(events[i..])
    {
      Unroll(events, i);
      ghost var step := if Ends(events[i]) then FinalBytes(events[i]) else events[i].bytes;
      var turn := Turn(conn, events[i]);
      Assoc(old(conn.sent), done, step);
      if turn.Some? {
        done := done + step;
        stop := turn.value;
        break;
      }
      Assoc(done, step, Sent(events[i + 1..]));
      done := done + step;
      i := i + 1;
    }
    conn.Close();
    status := Ok(());
  }

  // ---------------------------------------------------------------------------
  // What the loop promises.

  /** The socket receives the lines before the one that ends the loop, back
      to back, followed by whatever part of a line whose write failed got
      through. */
  lemma {:induction false} SentIsLinesBeforeStop(events: seq<LineEvent>)
    ensures var k := StopIndex(events);
            Sent(events) == JoinedLines(events[..k]) + (if k < |events| then FinalBytes(events[k]) else [])
    decreases |events|
  {
    if events != [] && !Ends(events[0]) {
      var k := StopIndex(events);
      var rest := events[1..];
      SentIsLinesBeforeStop(rest);
      assert StopIndex(rest) == k - 1;
      assert events[..k][1..] == rest[..k - 1];
      assert JoinedLines(events[..k]) == events[0].bytes + JoinedLines(rest[..k - 1]);
      assert k < |events| ==> rest[k - 1] == events[k];
      var tail := if k < |events| then FinalBytes(events[k]) else [];
      assert Sent(rest) == JoinedLines(rest[..k - 1]) + tail;
      assert Sent(events) == events[0].bytes + (JoinedLines(rest[..k - 1]) + tail);
    }
  }

  /** When failed writes deliver nothing, exactly the lines before the stop
      are sent, with no separator. */
  lemma NoPartialWrites(events: seq<LineEvent>)
    requires forall i :: 0 <= i < |events| && events[i].Line? && events[i].write.WriteFailed?
               ==> events[i].write.delivered == 0
    ensures Sent(events) == JoinedLines(events[..StopIndex(events)])
  {
    SentIsLinesBeforeStop(events);
  }

  /** The loop stops for the item at `StopIndex`, and ends for end of input
      only when there is no such item. */
  lemma {:induction false} StopMatchesStopIndex(events: seq<LineEvent>)
    ensures var k := StopIndex(events);
            Stop(events) == if k == |events| then EndOfInput
                            else if events[k].LineReadFailed? then InputError
                            else if events[k].bytes == [] then EmptyLine
                            else WriteError(events[k].write.kind)
    decreases |events|
  {
    if events != [] && !Ends(events[0]) {
      StopMatchesStopIndex(events[1..]);
    }
  }

  /** Nothing after the item that ends the loop is ever sent, not even a
      non-empty line. */
  lemma {:induction false} IgnoresAfterStop(events: seq<LineEvent>, later: seq<LineEvent>)
    requires StopIndex(events) < |events|
    ensures Sent(events + later) == Sent(events)
    ensures Stop(events + later) == Stop(events)
    decreases |events|
  {
    assert (events + later)[0] == events[0];
    if !Ends(events[0]) {
      assert (events + later)[1..] == events[1..] + later;
      IgnoresAfterStop(events[1..], later);
    }
  }
}
