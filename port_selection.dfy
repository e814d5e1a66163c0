/**
  The loopback port search of src/util.rs: `select_random_tcp_port` tries
  the ports 15000 to 28999 in increasing order and takes the first one that
  `try_bind_tcp_port` can bind. Whether `127.0.0.1:<port>` can be bound is
  an oracle `canBind`; the listener of a successful probe is dropped at
  once, so a probe changes nothing.
*/
module PortSelection {
  import opened Wrappers

  const FirstPort := 15000
  /** One past the last port tried. */
  const EndPort := 29000

  const NoPortAvailable := "No port available"

  /** `try_bind_tcp_port`: a failed bind reads as "not available"; it never returns an error. */
  function TryBindTcpPort(canBind: int -> bool, port: int): (r: Result<bool, string>)
    ensures r.Ok?
    ensures r.value <==> canBind(port)
  {
    if !canBind(port) then Ok(false) else Ok(true)
  }

  /** The first bindable port at or after `from`, or the error when none below `EndPort` is. */
  function FirstBindable(canBind: int -> bool, from: int): (r: Result<int, string>)
    requires FirstPort <= from <= EndPort
    ensures r.Ok? ==> from <= r.value < EndPort && canBind(r.value)
    decreases EndPort - from
  {
    if from == EndPort then Err(NoPortAvailable)
    else if canBind(from) then Ok(from)
    else FirstBindable(canBind, from + 1)
  }

  /** `select_random_tcp_port`: a first-fit loop with an early return. */
  method SelectRandomTcpPort(canBind: int -> bool) returns (r: Result<int, string>)
    ensures r == FirstBindable(canBind, FirstPort)
  {
    for port := FirstPort to EndPort
      invariant FirstBindable(canBind, port) == FirstBindable(canBind, FirstPort)
    {
      var bound := TryBindTcpPort(canBind, port);
      if bound.value {
        return Ok(port);
      }
    }
    return Err(NoPortAvailable);
  }

  /** The search finds the least bindable port of the range, and fails exactly when no port there is bindable. */
  lemma {:induction false} FirstBindableIsLeast(canBind: int -> bool, from: int)
    requires FirstPort <= from <= EndPort
    ensures FirstBindable(canBind, from).Ok? ==>
      forall q :: from <= q < FirstBindable(canBind, from).value ==> !canBind(q)
    ensures FirstBindable(canBind, from).Err? <==> forall q :: from <= q < EndPort ==> !canBind(q)
    ensures FirstBindable(canBind, from).Err? ==> FirstBindable(canBind, from).error == NoPortAvailable
    decreases EndPort - from
  {
    if from < EndPort && !canBind(from) {
      FirstBindableIsLeast(canBind, from + 1);
    }
  }
}
