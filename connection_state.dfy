/** The six lifecycle states of a QUIC connection and their capability predicates. */
module ConnectionStates {

  datatype ConnectionState = New | Handshaking | Connected | Closing | Draining | Closed
  {
    /** The enum's backing string (`->value`). */
    function Value(): string
    {
      match this
      case New => "new"
      case Handshaking => "handshaking"
      case Connected => "connected"
      case Closing => "closing"
      case Draining => "draining"
      case Closed => "closed"
    }

    predicate IsActive() { this == New || this == Handshaking || this == Connected }

    predicate CanSendData() { this == Connected }

    predicate CanReceiveData() { this == Handshaking || this == Connected }

    predicate IsClosing() { this == Closing || this == Draining }

    predicate IsClosed() { this == Closed }
  }

  /** All six states, in declaration order. */
  const AllStates: seq<ConnectionState> := [New, Handshaking, Connected, Closing, Draining, Closed]

  lemma AllStatesComplete(s: ConnectionState)
    ensures s in AllStates
  {
  }

  /** Every state is exactly one of active, closing and closed. */
  lemma LifecyclePartition(s: ConnectionState)
    ensures s.IsActive() || s.IsClosing() || s.IsClosed()
    ensures !(s.IsActive() && s.IsClosing())
    ensures !(s.IsActive() && s.IsClosed())
    ensures !(s.IsClosing() && s.IsClosed())
  {
  }

  /** Sending needs receiving, and receiving needs an active connection. */
  lemma CapabilitiesNested(s: ConnectionState)
    ensures s.CanSendData() ==> s.CanReceiveData()
    ensures s.CanReceiveData() ==> s.IsActive()
    ensures s.IsActive() && !s.CanReceiveData() <==> s == New
  {
  }

  /** The backing strings identify the states. */
  lemma ValueInjective(s: ConnectionState, t: ConnectionState)
    ensures s.Value() == t.Value() <==> s == t
  {
  }
}
