/** src/flow/tcp_state.py: the TCP state of a flow after one more packet. */
module TcpState {
  import opened Common
  import opened FlowKey

  datatype Flag = SYN | ACK | FIN | RST | PSH | URG | ECE | CWR

  datatype State = HANDSHAKE | ESTABLISHED | CLOSING | CLOSED | RESET | ACTIVE

  /** The entries of the `ctx` dict. */
  datatype Context = Context(
    synackSeen: bool,
    synackDir: Option<Direction>,
    finFwd: bool,
    finBwd: bool,
    midstream: bool)

  predicate Terminal(s: State) {
    s == CLOSED || s == RESET
  }

  /** The state and context after a packet, by priority RST > SYN > FIN > ACK. */
  function Transition(needsFinalAck: bool, s: State, flags: set<Flag>, dir: Direction, c: Context, first: bool)
    : (State, Context)
  {
    if Terminal(s) then (s, c)
    else if RST in flags then (RESET, c)
    else if SYN in flags then
      if first then
        (HANDSHAKE, if ACK in flags then c.(midstream := true, synackSeen := true, synackDir := Some(dir)) else c)
      else if s == HANDSHAKE && ACK in flags && dir == Backward then
        (HANDSHAKE, c.(synackSeen := true, synackDir := Some(dir)))
      else (s, c)
    else if FIN in flags then
      var m := c.(midstream := c.midstream || first);
      var d := if dir == Forward then m.(finFwd := true) else m.(finBwd := true);
      (if d.finFwd && d.finBwd && !needsFinalAck then CLOSED else CLOSING, d)
    else if first then (ESTABLISHED, c.(midstream := true))
    else if ACK in flags && s == HANDSHAKE && c.synackSeen && c.synackDir != Some(dir) then (ESTABLISHED, c)
    else if ACK in flags && s == CLOSING && c.finFwd && c.finBwd && needsFinalAck then (CLOSED, c)
    else (s, c)
  }

  /** The mutable `ctx` dict. */
  class TcpContext {
    var c: Context

    constructor (c: Context)
      ensures this.c == c
    {
      this.c := c;
    }

    /** next_state: the source's branches in the source's order, writing the context as it goes. */
    method NextState(needsFinalAck: bool, s: State, flags: set<Flag>, dir: Direction, first: bool) returns (r: State)
      modifies this
      ensures (r, c) == Transition(needsFinalAck, s, flags, dir, old(c), first)
    {
      if s == CLOSED || s == RESET { return s; }
      if RST in flags { return RESET; }
      if SYN in flags {
        if first {
          if ACK in flags {
            c := c.(midstream := true);
            c := c.(synackSeen := true);
            c := c.(synackDir := Some(dir));
          }
          return HANDSHAKE;
        }
        if s == HANDSHAKE && ACK in flags && dir == Backward {
          c := c.(synackSeen := true);
          c := c.(synackDir := Some(dir));
          return HANDSHAKE;
        }
        return s;
      }
      if FIN in flags {
        if first { c := c.(midstream := true); }
        if dir == Forward { c := c.(finFwd := true); } else { c := c.(finBwd := true); }
        if c.finFwd && c.finBwd {
          if !needsFinalAck { return CLOSED; }
        }
        return CLOSING;
      }
      if ACK in flags {
        if first {
          c := c.(midstream := true);
          return ESTABLISHED;
        }
        if s == HANDSHAKE && c.synackSeen && Some(dir) != c.synackDir { return ESTABLISHED; }
        if s == CLOSING {
          if c.finFwd && c.finBwd && needsFinalAck { return CLOSED; }
        }
        return s;
      }
      if first {
        c := c.(midstream := true);
        return ESTABLISHED;
      }
      return s;
    }
  }

  /** HANDSHAKE < ESTABLISHED < CLOSING < CLOSED and RESET. */
  function Rank(s: State): int {
    match s
    case ESTABLISHED => 1
    case CLOSING => 2
    case CLOSED => 3
    case RESET => 3
    case _ => 0
  }
}
