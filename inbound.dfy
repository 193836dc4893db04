/** The background pump that copies what the peer sends to standard output.
    The socket is non-blocking, so each read returns data, end of stream
    (zero bytes), "would block", or another error; the sequence of those
    outcomes is the pump's input. */
module Inbound {
  import opened Io

  /** Size of the scratch buffer every read fills. */
  const BufferSize: nat := 1024

  /** One call of `read` on the socket: `Received(c)` is `Ok(|c|)` with `c` the
      bytes placed at the front of the buffer; `Received([])` is `Ok(0)`. */
  datatype ReadEvent = Received(chunk: seq<byte>) | ReadFailed(kind: ErrorKind)

  /** Why the pump is no longer copying: the peer closed, a read failed, or the
      reads observed so far left it still polling. */
  datatype InboundStop = PeerClosed | ReadError(kind: ErrorKind) | Polling

  /** A read never reports more bytes than the buffer holds. */
  predicate ReadsFit(events: seq<ReadEvent>)
  {
    forall i :: 0 <= i < |events| && events[i].Received? ==> |events[i].chunk| <= BufferSize
  }

  /** The read results that end the loop: `Ok(0)` and any error other than
      `WouldBlock`. */
  predicate Ends(e: ReadEvent)
  {
    e == Received([]) || (e.ReadFailed? && e.kind != WouldBlock)
  }

  /** Index of the read that ends the loop, or `|events|` if none does. */
  function StopIndex(events: seq<ReadEvent>): nat
  {
    FirstIndex(events, Ends)
  }

  /** The `write_all` calls on standard output, in order, one per read. */
  function Writes(events: seq<ReadEvent>): (r: seq<seq<byte>>)
    ensures |r| <= |events|
    ensures forall w :: w in r ==> w != []
    decreases |events|
  {
    if events == [] then []
    else match events[0]
      case Received(c) => if c == [] then [] else [c] + Writes(events[1..])
      case ReadFailed(k) => if k == WouldBlock then Writes(events[1..]) else []
  }

  /** The reason the pump stopped. */
  function Stop(events: seq<ReadEvent>): (r: InboundStop)
    ensures r.ReadError? ==> r.kind != WouldBlock
    ensures r != Polling ==> events != []
    decreases |events|
  {
    if events == [] then Polling
    else match events[0]
      case Received(c) => if c == [] then PeerClosed else Stop(events[1..])
      case ReadFailed(k) => if k == WouldBlock then Stop(events[1..]) else ReadError(k)
  }

  /** Reference definition: all bytes the reads delivered, in order; a failed
      read delivers nothing. */
  function Payload(events: seq<ReadEvent>): seq<byte>
    decreases |events|
  {
    if events == [] then []
    else (if events[0].Received? then events[0].chunk else []) + Payload(events[1..])
  }

  /** Reference definition: the bytes of each read that returned data, one
      entry per such read, in order. */
  function Chunks(events: seq<ReadEvent>): seq<seq<byte>>
    decreases |events|
  {
    if events == [] then []
    else (if events[0].Received? && events[0].chunk != [] then [events[0].chunk] else []) + Chunks(events[1..])
  }

  // ---------------------------------------------------------------------------
  // The pump as the program runs it.

  /** One socket read into the buffer: the bytes of this read land at the front
      of the buffer and their count is returned. */
  method Fill(buffer: array<byte>, chunk: seq<byte>) returns (n: nat)
    requires |chunk| <= buffer.Length
    modifies buffer
    ensures n == |chunk| && buffer[..n] == chunk
  {
    forall j | 0 <= j < |chunk| {
      buffer[j] := chunk[j];
    }
    n := |chunk|;
  }

  /** The reading thread: read into one reused 1024-byte buffer until a read
      returns zero bytes or fails with anything but `WouldBlock`, writing each
      non-empty read's bytes to standard output. Returns those writes and why
      the loop ended. */
  method Pump(events: seq<ReadEvent>) returns (stdout: seq<seq<byte>>, stop: InboundStop)
    requires ReadsFit(events)
    ensures stdout == Writes(events) && stop == Stop(events)
    ensures forall w :: w in stdout ==> 1 <= |w| <= BufferSize
  {
    var buffer := new byte[BufferSize];
    stdout := [];
    var i := 0;
    while i < |events|
      invariant 0 <= i <= |events|
      invariant buffer.Length == BufferSize
      invariant Writes(events) == stdout + Writes(events[i..])
      invariant forall w :: w in stdout ==> 1 <= |w| <= BufferSize
      invariant Stop(events) == Stop(events[i..])
    {
      assert events[i..][1..] == events[i + 1..];
      match events[i] {
        case Received(chunk) =>
          var n := Fill(buffer, chunk);
          if n == 0 {
            stop := PeerClosed;
            return;
          }
          stdout := stdout + [buffer[..n]];
        case ReadFailed(kind) =>
          if kind != WouldBlock {
            stop := ReadError(kind);
            return;
          }
      }
      i := i + 1;
    }
    stop := Polling;
  }

  // ---------------------------------------------------------------------------
  // What the pump promises.

  /** Every write to standard output carries between 1 and 1024 bytes. */
  lemma {:induction false} WritesAreBufferSized(events: seq<ReadEvent>)
    requires ReadsFit(events)
    ensures forall w :: w in Writes(events) ==> 1 <= |w| <= BufferSize
    decreases |events|
  {
    if events != [] {
      assert ReadsFit(events[1..]) by {
        forall i | 0 <= i < |events[1..]| && events[1..][i].Received?
          ensures |events[1..][i].chunk| <= BufferSize
        {
          assert events[1..][i] == events[i + 1];
        }
      }
      WritesAreBufferSized(events[1..]);
    }
  }

  /** Standard output receives exactly the bytes of the reads before the one
      that ends the loop, in order; a `WouldBlock` adds nothing. */
  lemma {:induction false} OutputIsPayloadBeforeStop(events: seq<ReadEvent>)
    ensures Concat(Writes(events)) == Payload(events[..StopIndex(events)])
    decreases |events|
  {
    var k := StopIndex(events);
    if events != [] && !Ends(events[0]) {
      OutputIsPayloadBeforeStop(events[1..]);
      assert events[..k][1..] == events[1..][..k - 1];
      if events[0].Received? {
        assert Writes(events) == [events[0].chunk] + Writes(events[1..]);
        assert Concat(Writes(events)) == events[0].chunk + Concat(Writes(events[1..]));
      }
    }
  }

  /** Standard output gets one write per read that returned data before the
      read that ends the loop, holding exactly that read's bytes, in order:
      reads are neither merged nor split. */
  lemma {:induction false} WritesAreChunksBeforeStop(events: seq<ReadEvent>)
    ensures Writes(events) == Chunks(events[..StopIndex(events)])
    decreases |events|
  {
    var k := StopIndex(events);
    if events != [] && !Ends(events[0]) {
      WritesAreChunksBeforeStop(events[1..]);
      assert events[..k][1..] == events[1..][..k - 1];
      assert events[..k][0] == events[0];
    }
  }

  /** The pump stops for the read at `StopIndex`: `Ok(0)` means the peer closed,
      another error is reported; with no such read it is still polling. */
  lemma {:induction false} StopMatchesStopIndex(events: seq<ReadEvent>)
    ensures var k := StopIndex(events);
            Stop(events) == if k == |events| then Polling
                            else if events[k].Received? then PeerClosed
                            else ReadError(events[k].kind)
    decreases |events|
  {
    if events != [] && !Ends(events[0]) {
      StopMatchesStopIndex(events[1..]);
    }
  }

  /** Reads after the one that ends the loop are never looked at. */
  lemma {:induction false} IgnoresAfterStop(events: seq<ReadEvent>, later: seq<ReadEvent>)
    requires StopIndex(events) < |events|
    ensures Writes(events + later) == Writes(events)
    ensures Stop(events + later) == Stop(events)
    decreases |events|
  {
    assert (events + later)[0] == events[0];
    if !Ends(events[0]) {
      assert (events + later)[1..] == events[1..] + later;
      IgnoresAfterStop(events[1..], later);
    }
  }

  /** An extra `WouldBlock` anywhere changes neither the output nor the reason
      the pump stops. */
  lemma {:induction false} WouldBlockIsInvisible(events: seq<ReadEvent>, i: nat)
    requires i <= |events|
    ensures var more := events[..i] + [ReadFailed(WouldBlock)] + events[i..];
            Writes(more) == Writes(events) && Stop(more) == Stop(events)
    decreases i
  {
    var more := events[..i] + [ReadFailed(WouldBlock)] + events[i..];
    if i == 0 {
      assert more[1..] == events;
    } else {
      assert more[0] == events[0];
      if !Ends(events[0]) {
        assert more[1..] == events[1..][..i - 1] + [ReadFailed(WouldBlock)] + events[1..][i - 1..];
        WouldBlockIsInvisible(events[1..], i - 1);
      }
    }
  }
}
