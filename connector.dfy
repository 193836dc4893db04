/** Choosing the address to dial and the single connect attempt. Name
    resolution and the TCP handshake are foreign calls: their outcomes are
    inputs here. */
module Connector {
  import opened Io
  import TimeoutOption

  /** One call of `TcpStream::connect_timeout`: where to and with what deadline. */
  datatype Attempt<A> = Attempt(addr: A, timeoutSeconds: nat)

  /** What happened before the relay starts: the connect calls made, and either
      the address connected to or the error that ends the program. */
  datatype Setup<A> = Setup(attempts: seq<Attempt<A>>, outcome: Result<A, ErrorKind>)

  /** The first resolved address, or an `InvalidInput` error when resolution
      produced none. */
  function SelectAddress<A>(resolved: seq<A>): (r: Result<A, ErrorKind>)
    ensures r.Ok? <==> |resolved| > 0
    ensures r.Ok? ==> r.value == resolved[0]
    ensures r.Err? ==> r.error == InvalidInput
  {
    if |resolved| == 0 then Err(InvalidInput) else Ok(resolved[0])
  }

  /** Everything from parsing the timeout to the established connection.
      `resolution` is the result of `to_socket_addrs`; `dial` is what the one
      `connect_timeout` call reports, consulted only if it is made. */
  function Connect<A>(timeoutOption: string, resolution: Result<seq<A>, ErrorKind>,
                      dial: Result<(), ErrorKind>): (s: Setup<A>)
    // At most one address is ever dialled, and only if resolution produced one.
    ensures |s.attempts| <= 1
    ensures s.attempts != [] <==> resolution.Ok? && |resolution.value| > 0
    // The address dialled is the first one, with the parsed timeout.
    ensures s.attempts != [] ==>
              s.attempts[0] == Attempt(resolution.value[0], TimeoutOption.ParseTimeout(timeoutOption))
    // Success exactly when that attempt succeeds, and then on that address.
    ensures s.outcome.Ok? <==> s.attempts != [] && dial.Ok?
    ensures s.outcome.Ok? ==> s.outcome.value == s.attempts[0].addr
    // Each way of failing reports its own cause.
    ensures resolution.Err? ==> s.outcome == Err(resolution.error)
    ensures resolution == Ok([]) ==> s.outcome == Err(InvalidInput)
    ensures s.attempts != [] && dial.Err? ==> s.outcome == Err(dial.error)
  {
    var timeout := TimeoutOption.ParseTimeout(timeoutOption);
    match resolution
    case Err(e) => Setup([], Err(e))
    case Ok(addrs) =>
      match SelectAddress(addrs)
      case Err(e) => Setup([], Err(e))
      case Ok(addr) =>
        Setup([Attempt(addr, timeout)], if dial.Ok? then Ok(addr) else Err(dial.error))
  }
}
