# Interactive TCP client — a Dafny model

The client connects to `host:port` with a connect timeout taken from the
`--timeout` option, then relays bytes in both directions: a background thread
copies what the peer sends to standard output, and the main thread sends each
line typed on standard input to the peer until an empty line, end of input, a
failed read or a failed write, and then closes its handle and exits
successfully.

The model keeps the rules under that plumbing, with every socket and terminal
call replaced by a sequence of its outcomes:

- `TimeoutOption` (`timeout.dfy`): the option parse:
  strip every trailing `'s'`, parse the rest as a `u64`, use 10 on failure. Rust's `u64` parse is
  modelled as one optional leading `'+'`, then one or more ASCII digits, with a
  value at most 2^64−1. Its digit loop (`Accumulate`, multiply by ten and add,
  failing on the first non-digit or as soon as the running value exceeds
  2^64−1) is proved to agree with the positional value of the digits.
- `Connector` (`connector.dfy`): first-address selection and the single
  `connect_timeout` attempt, with the resolution result and the connect result
  as inputs.
- `Inbound` (`inbound.dfy`): the reading thread, a method with a loop that
  fills one 1024-byte `array` per read. Its input is the sequence of read
  results: `Received(chunk)` (`Ok(n)`, `Ok(0)` being the empty chunk) or
  `ReadFailed(kind)`. It returns the writes made to standard output and the
  reason it stopped. If the given reads run out before a stopping read, the
  reason is `Polling`: the thread would go on polling.
- `Outbound` (`outbound.dfy`): the main loop over the lines of
  standard input. Each line is given as its UTF-8 bytes, paired with
  the outcome its `write_all` would report. A `Connection` class holds the
  write handle's state: the bytes handed to the socket and how often the handle
  was closed. A failed `write_all` may already have pushed part of the line
  onto the socket. The model lets a failure deliver any strict prefix of the line;
  `NoPartialWrites` gives the plain reading, where a failed write delivers
  nothing.

The two pumps are separate: nothing the outbound loop does depends on how the
inbound pump ended, and the reverse.

Three points where the code's behaviour is easy to misread:

- An empty resolution fails with `io::ErrorKind::InvalidInput`. There is no
  separate resolution error kind.
- The timeout option accepts more than "an integer followed by a unit": every
  trailing `'s'` is stripped, `"5sss"` means 5 seconds, and one leading `'+'`
  is accepted.
- `drop(stream)` closes only the outbound loop's handle. The clone held by the
  reading thread is dropped when that thread's loop ends. The connection
  therefore stays open after `drop(stream)` only while the reading thread is
  still running.

## Model

| member | source | states |
|---|---|---|
| TimeoutOption.TrimTrailingS | src/main.rs:24 | the result is a prefix of the option, everything removed is `'s'`, and the result does not end in `'s'` (all trailing `'s'` are removed, not just one) |
| TimeoutOption.AccumulateDigits | src/main.rs:24 | the `u64` digit loop over ASCII digits yields the positional value of the digits exactly when that value is at most 2^64−1, and fails otherwise |
| TimeoutOption.AccumulateRejects | src/main.rs:24 | the digit loop fails whenever any character is not an ASCII digit |
| TimeoutOption.Accumulate | src/main.rs:24 | the `u64` parse's digit loop: a success never decreases the running value and never exceeds 2^64−1 |
| TimeoutOption.ParseU64 | src/main.rs:24 | `parse::<u64>`: a success always fits in a `u64`, and nothing left after skipping one `'+'` (the empty string or a lone `'+'`) fails |
| TimeoutOption.ParseU64Correct | src/main.rs:24 | `parse::<u64>` succeeds if and only if the string is one optional `'+'` then at least one digit with value at most 2^64−1, and then it returns that value |
| TimeoutOption.ParseTimeout | src/main.rs:24-26 | parsing the timeout never fails, and its result always fits in a `u64` |
| TimeoutOption.ParseTimeoutCorrect | src/main.rs:24-26 | the timeout is the value of the remainder once trailing `'s'` are stripped if that remainder is well formed and in range, and 10 otherwise |
| TimeoutOption.ParseTimeoutFallback | src/main.rs:24-26 | an empty remainder, any character other than digits and one leading `'+'`, or a value above 2^64−1 gives exactly 10 |
| TimeoutOption.ParseTimeoutAppendS | src/main.rs:24 | appending an `'s'` never changes the parsed timeout |
| TimeoutOption.ParseTimeoutDigits | src/main.rs:24 | decimal digits followed by any number of `'s'` give the digits' value whenever it is at most 2^64−1 |
| TimeoutOption.PlusSignAccepted | src/main.rs:24 | a single leading `'+'` before the digits is accepted and leaves the value unchanged |
| TimeoutOption.NegativeFallsBack | src/main.rs:24 | an option starting with `'-'` is never accepted and gives 10 |
| TimeoutOption.DefaultIsTenSeconds | src/main.rs:10 | the default option `"10s"` gives 10 seconds |
| Connector.SelectAddress | src/main.rs:33-39 | the first resolved address when there is one; an `InvalidInput` error exactly when there is none |
| Connector.Connect | src/main.rs:24-43 | at most one connect attempt, made only when resolution produced an address, on the first address with the parsed timeout; success exactly when that attempt succeeds; a resolution error, an empty resolution (`InvalidInput`) and a connect error each end setup with their own error |
| Io.FirstIndex | src/main.rs:53-88 | the position where each relay loop stops: the first item that ends it (for the reading thread `Ok(0)` or an error other than `WouldBlock`; for the line loop an empty line, a line-read error or a failed write), with no earlier item ending it, or the end of the input if none does |
| Inbound.Writes | src/main.rs:53-69 | the loop's writes to standard output: never empty, and at most one per read |
| Inbound.Stop | src/main.rs:53-69 | the loop's stop reason: a read error is never `WouldBlock`, and any reason other than still polling needs at least one read |
| Inbound.Fill | src/main.rs:54 | a read places its bytes at the front of the buffer and returns their count |
| Inbound.Pump | src/main.rs:51-70 | the reading loop over a reused 1024-byte buffer makes exactly the writes of `Writes` and stops for the reason `Stop` gives; every write holds 1 to 1024 bytes |
| Inbound.WritesAreBufferSized | src/main.rs:52-57 | every chunk written to standard output has between 1 and 1024 bytes |
| Inbound.WritesAreChunksBeforeStop | src/main.rs:53-69 | one write to standard output per read that returned data before the stopping read, holding exactly that read's bytes, in order: reads are neither merged nor split |
| Inbound.OutputIsPayloadBeforeStop | src/main.rs:53-69 | standard output receives, in order, all bytes of the reads before the first stopping read, and nothing else |
| Inbound.StopMatchesStopIndex | src/main.rs:54-67 | the pump reports that the peer closed for `Ok(0)`, a read error for any other non-`WouldBlock` error, and keeps polling when no stopping read occurs |
| Inbound.IgnoresAfterStop | src/main.rs:53-69 | reads after the stopping read change neither the output nor the stop reason |
| Inbound.WouldBlockIsInvisible | src/main.rs:61-63 | inserting a `WouldBlock` anywhere changes neither the output nor the stop reason |
| Outbound.Delivered | src/main.rs:81 | a successful write delivers the whole line; a failed write of a non-empty line delivers a strict prefix of it, of the length the outcome names, capped below the line's length |
| Outbound.FinalBytes | src/main.rs:78-86 | the item that ends the loop puts nothing on the socket unless it is a line whose write failed, and then only a strict prefix of that line |
| Outbound.Turn | src/main.rs:76-87 | one turn of the loop: a line-read error or an empty line ends it without writing; a non-empty line is written and the loop ends exactly when that write fails |
| Outbound.Stop | src/main.rs:75-88 | the loop's stop reason: an input error needs a failed line read among the items, and any reason other than end of input needs at least one item |
| Outbound.Connection.WriteAll | src/main.rs:81-84 | writing is only possible on an open handle, appends the delivered bytes to what was sent, and reports an error exactly when the write fails |
| Outbound.Connection.Close | src/main.rs:92 | closing counts one close and sends nothing |
| Outbound.SendLines | src/main.rs:74-95 | the loop sends exactly `Sent(events)`, stops for the reason `Stop` gives, closes the handle exactly once after the loop whatever the reason, never writes after closing, and returns `Ok(())` |
| Outbound.SentIsLinesBeforeStop | src/main.rs:75-88 | the bytes sent are the lines before the stopping item, back to back with no separator, followed by whatever part of a failed write got through |
| Outbound.Sent | src/main.rs:75-88 | the bytes the loop puts on the socket: always a prefix of the typed lines joined with no separator |
| Outbound.NoPartialWrites | src/main.rs:75-88 | when failed writes deliver nothing, exactly the lines before the first empty line, read error or failed write are sent |
| Outbound.StopMatchesStopIndex | src/main.rs:75-88 | the loop ends for an empty line, a read error or a write error at the stopping item, and for end of input only when there is none |
| Outbound.IgnoresAfterStop | src/main.rs:75-88 | nothing after the stopping item is ever sent, not even a non-empty line, and the stop reason is unchanged |

## Left out

- Name resolution, `TcpStream::connect_timeout`, `set_nonblocking`, socket reads and writes are foreign network calls. They appear only as given sequences of outcomes.
- `try_clone` (src/main.rs:48) is a foreign call. Its failure, which would end the program before the relay starts, is not modelled.
- What `Duration::from_secs` and `connect_timeout` do with the parsed value, a zero timeout included, is library behaviour and is not modelled.
- The reading thread, and the interleaving between the two pumps, are not modelled. The pumps are modelled separately, with no ordering between them.
- `structopt` argument parsing and the `u16` port parse are not modelled. The option string is taken as given.
- `lines()` splitting and terminator removal are not modelled. Lines are taken already split, as their UTF-8 bytes.
- Progress and diagnostic messages (`println!`, `eprintln!`) are terminal output and are not modelled.
- The `unwrap()` panics when standard output cannot be written or flushed are not modelled. Standard output writes always succeed in the model.
- Endless polling: the reading thread would go on polling for ever, while the model stops at the end of the given reads with `Polling`.
