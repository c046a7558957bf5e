/** The TCP state of a flow read off the flags of its packets, with no state machine. */
module TcpLives {
  import opened Common
  import opened FlowKey
  import opened TcpState
  import opened FlowRecord
  import opened TcpRuns

  // ---------------------------------------------------------------- what the packets show

  /** A FIN that no SYN or RST in the same packet outranks. */
  predicate IsFin(p: Packet) {
    FIN in p.flags && SYN !in p.flags && RST !in p.flags
  }

  predicate IsBareAck(p: Packet) {
    ACK in p.flags && SYN !in p.flags && FIN !in p.flags && RST !in p.flags
  }

  predicate HasRst(h: seq<Packet>) {
    exists i :: 0 <= i < |h| && RST in h[i].flags
  }

  /** The endpoint that opened the flow, or the other one, has sent a FIN. */
  predicate HasFin(h: seq<Packet>, fromA: bool) {
    exists i :: 0 <= i < |h| && IsFin(h[i]) && (h[i].src == h[0].src) == fromA
  }

  predicate BothFins(h: seq<Packet>) {
    HasFin(h, true) && HasFin(h, false)
  }

  /** Packet k - 1 completes the close: before any RST it brings the second endpoint's FIN or, if the
      option asks for it, a bare ACK after both. */
  predicate ClosesAt(cfg: Config, h: seq<Packet>, k: nat)
    requires 0 < k <= |h|
  {
    if cfg.needsFinalAck then !HasRst(h[..k - 1]) && BothFins(h[..k - 1]) && IsBareAck(h[k - 1])
    else !HasRst(h[..k]) && BothFins(h[..k])
  }

  predicate IsClosed(cfg: Config, h: seq<Packet>) {
    exists k :: 0 < k <= |h| && ClosesAt(cfg, h, k)
  }

  /** The second endpoint has sent a SYN/ACK before packet j. */
  predicate AnsweredBefore(h: seq<Packet>, j: nat)
    requires j <= |h|
  {
    exists i :: 0 < i < j && SYN in h[i].flags && ACK in h[i].flags && h[i].src != h[0].src
  }

  /** Packet j acknowledges the newest SYN/ACK of the other side: the second endpoint's if it has sent one,
      else the one that opened the flow. */
  predicate Acknowledges(h: seq<Packet>, j: nat)
    requires 0 < j < |h|
  {
    && ACK in h[j].flags && SYN !in h[j].flags
    && if h[j].src == h[0].src then AnsweredBefore(h, j) else ACK in h[0].flags && !AnsweredBefore(h, j)
  }

  predicate IsAcknowledged(h: seq<Packet>) {
    exists j :: 0 < j < |h| && Acknowledges(h, j)
  }

  /** The state these amount to. */
  function StateShown(cfg: Config, h: seq<Packet>): State
    requires h != []
  {
    if IsClosed(cfg, h) then CLOSED
    else if HasRst(h) then RESET
    else if HasFin(h, true) || HasFin(h, false) then CLOSING
    else if SYN in h[0].flags && !IsAcknowledged(h) then HANDSHAKE
    else ESTABLISHED
  }

  // ---------------------------------------------------------------- one more packet

  lemma RstGrows(h: seq<Packet>)
    requires h != []
    ensures HasRst(h) <==> HasRst(h[..|h| - 1]) || RST in h[|h| - 1].flags
  {
    var n := |h| - 1;
    var g := h[..n];
    if i :| 0 <= i < |h| && RST in h[i].flags {
      assert i < n ==> RST in g[i].flags;
    }
    if i :| 0 <= i < |g| && RST in g[i].flags {
      assert RST in h[i].flags;
    }
  }

  lemma FinGrows(h: seq<Packet>, fromA: bool)
    requires h != []
    ensures HasFin(h, fromA)
            <==> HasFin(h[..|h| - 1], fromA) || (IsFin(h[|h| - 1]) && (h[|h| - 1].src == h[0].src) == fromA)
  {
    var n := |h| - 1;
    var g := h[..n];
    if i :| 0 <= i < |h| && IsFin(h[i]) && (h[i].src == h[0].src) == fromA {
      assert i < n ==> IsFin(g[i]) && (g[i].src == g[0].src) == fromA;
    }
    if i :| 0 <= i < |g| && IsFin(g[i]) && (g[i].src == g[0].src) == fromA {
      assert IsFin(h[i]) && (h[i].src == h[0].src) == fromA;
    }
  }

  lemma ClosesInPrefix(cfg: Config, h: seq<Packet>, k: nat)
    requires 0 < k < |h|
    ensures ClosesAt(cfg, h[..|h| - 1], k) <==> ClosesAt(cfg, h, k)
  {
    hide HasRst, HasFin;
    var g := h[..|h| - 1];
    assert g[..k] == h[..k] && g[..k - 1] == h[..k - 1];
  }

  lemma ClosedGrows(cfg: Config, h: seq<Packet>)
    requires h != []
    ensures IsClosed(cfg, h) <==> IsClosed(cfg, h[..|h| - 1]) || ClosesAt(cfg, h, |h|)
  {
    hide ClosesAt;
    var g := h[..|h| - 1];
    if k :| 0 < k <= |h| && ClosesAt(cfg, h, k) {
      if k < |h| {
        ClosesInPrefix(cfg, h, k);
      }
    }
    if k :| 0 < k <= |g| && ClosesAt(cfg, g, k) {
      ClosesInPrefix(cfg, h, k);
    }
  }

  lemma AnswerInPrefix(h: seq<Packet>, j: nat)
    requires j < |h|
    ensures AnsweredBefore(h[..|h| - 1], j) <==> AnsweredBefore(h, j)
  {
    var g := h[..|h| - 1];
    if i :| 0 < i < j && SYN in h[i].flags && ACK in h[i].flags && h[i].src != h[0].src {
      assert SYN in g[i].flags && ACK in g[i].flags && g[i].src != g[0].src;
    }
    if i :| 0 < i < j && SYN in g[i].flags && ACK in g[i].flags && g[i].src != g[0].src {
      assert SYN in h[i].flags && ACK in h[i].flags && h[i].src != h[0].src;
    }
  }

  lemma AnswerGrows(h: seq<Packet>)
    requires |h| > 1
    ensures var p := h[|h| - 1];
            AnsweredBefore(h, |h|)
            <==> AnsweredBefore(h, |h| - 1) || (SYN in p.flags && ACK in p.flags && p.src != h[0].src)
  {
  }

  lemma AcknowledgedGrows(h: seq<Packet>)
    requires |h| > 1
    ensures IsAcknowledged(h) <==> IsAcknowledged(h[..|h| - 1]) || Acknowledges(h, |h| - 1)
  {
    hide AnsweredBefore;
    var g := h[..|h| - 1];
    forall j | 0 < j < |g|
      ensures Acknowledges(g, j) <==> Acknowledges(h, j)
    {
      AnswerInPrefix(h, j);
    }
    if j :| 0 < j < |h| && Acknowledges(h, j) {
      assert j < |g| ==> Acknowledges(g, j);
    }
    if j :| 0 < j < |g| && Acknowledges(g, j) {
      assert Acknowledges(h, j);
    }
  }

  // ---------------------------------------------------------------- the machine shows what the packets show

  /** The marks of the machine while the flow is not over. */
  ghost predicate MarksAgree(cfg: Config, h: seq<Packet>)
    requires h != []
  {
    var e, s := EntryOf(cfg, h), RecordOf(cfg, h).state;
    && (!Terminal(s) ==> e.finFwd == HasFin(h, true) && e.finBwd == HasFin(h, false))
    && (s == HANDSHAKE ==>
          && e.synackSeen == (ACK in h[0].flags || AnsweredBefore(h, |h|))
          && (e.synackSeen ==> e.synackDir == Some(if AnsweredBefore(h, |h|) then Backward else Forward)))
  }

  lemma FirstShows(cfg: Config, h: seq<Packet>)
    requires TcpFlow(h) && |h| == 1
    ensures RecordOf(cfg, h).state == StateShown(cfg, h) && MarksAgree(cfg, h)
  {
    hide EntryOf, RecordOf, HasFin, HasRst, IsClosed;
    MachineStep(cfg, h);
    assert h[..0] == [];
    NothingShown(cfg);
    RstGrows(h);
    FinGrows(h, true);
    FinGrows(h, false);
    ClosedGrows(cfg, h);
    assert h[..1] == h;
  }

  lemma NothingShown(cfg: Config)
    ensures !HasRst([]) && !HasFin([], true) && !HasFin([], false) && !IsClosed(cfg, [])
  {
  }

  /** While the flow is not over, the last packet closes it exactly when the machine says so. */
  lemma ClosesNow(cfg: Config, h: seq<Packet>)
    requires |h| > 1 && !HasRst(h[..|h| - 1])
    ensures var g, p := h[..|h| - 1], h[|h| - 1];
            ClosesAt(cfg, h, |h|)
            <==> if cfg.needsFinalAck then BothFins(g) && IsBareAck(p) else RST !in p.flags && BothFins(h)
  {
    hide HasFin, HasRst;
    RstGrows(h);
    assert h[..|h|] == h;
  }

  lemma NextShows(cfg: Config, h: seq<Packet>)
    requires TcpFlow(h) && |h| > 1
    requires RecordOf(cfg, h[..|h| - 1]).state == StateShown(cfg, h[..|h| - 1]) && MarksAgree(cfg, h[..|h| - 1])
    requires !Terminal(RecordOf(cfg, h[..|h| - 1]).state)
    requires cfg.needsFinalAck || !BothFins(h[..|h| - 1])
    ensures RecordOf(cfg, h).state == StateShown(cfg, h) && MarksAgree(cfg, h)
  {
    hide EntryOf, RecordOf, HasFin, HasRst, IsClosed, ClosesAt, AnsweredBefore, IsAcknowledged;
    MachineStep(cfg, h);
    RstGrows(h);
    FinGrows(h, true);
    FinGrows(h, false);
    ClosedGrows(cfg, h);
    ClosesNow(cfg, h);
    AnswerInPrefix(h, |h| - 1);
    AnswerGrows(h);
    AcknowledgedGrows(h);
  }

  lemma OverStays(cfg: Config, h: seq<Packet>)
    requires TcpFlow(h) && |h| > 1
    requires RecordOf(cfg, h[..|h| - 1]).state == StateShown(cfg, h[..|h| - 1])
    requires Terminal(RecordOf(cfg, h[..|h| - 1]).state)
    ensures RecordOf(cfg, h).state == StateShown(cfg, h) && MarksAgree(cfg, h)
  {
    hide EntryOf, RecordOf, HasFin, IsClosed;
    MachineStep(cfg, h);
    RstGrows(h);
    ClosedGrows(cfg, h);
    var n := |h| - 1;
    assert HasRst(h[..n]) ==> HasRst(h[..n + 1]);
    assert h[..|h|] == h;
  }

  lemma {:induction false} LivesShow(cfg: Config, h: seq<Packet>)
    requires TcpFlow(h)
    ensures RecordOf(cfg, h).state == StateShown(cfg, h) && MarksAgree(cfg, h)
  {
    hide EntryOf, RecordOf, BothFins, HasFin, HasRst, IsClosed, IsAcknowledged, MarksAgree;
    if |h| == 1 {
      FirstShows(cfg, h);
    } else {
      var g := h[..|h| - 1];
      LivesShow(cfg, g);
      if Terminal(RecordOf(cfg, g).state) {
        OverStays(cfg, h);
      } else {
        if BothFins(g) && !cfg.needsFinalAck {
          FinsClose(cfg, g);
        }
        NextShows(cfg, h);
      }
    }
  }

  /** Without the final-ACK option two FINs close a flow that has seen no RST. */
  lemma FinsClose(cfg: Config, g: seq<Packet>)
    requires g != [] && BothFins(g) && !HasRst(g) && !cfg.needsFinalAck
    ensures IsClosed(cfg, g)
  {
    hide HasFin, HasRst;
    assert g[..|g|] == g;
    assert ClosesAt(cfg, g, |g|);
  }

  // ---------------------------------------------------------------- what follows

  /** A flow was picked up midstream exactly when its first packet is neither a bare SYN nor an RST. */
  lemma MidstreamExactly(cfg: Config, h: seq<Packet>)
    requires TcpFlow(h)
    ensures RecordOf(cfg, h).midstream
            <==> RST !in h[0].flags && (SYN !in h[0].flags || ACK in h[0].flags)
  {
    hide EntryOf;
    MachineStep(cfg, h[..1]);
    RankIsMonotone(cfg, h, 1);
  }

  /** Without RST and FIN, a flow opened by a bare SYN is ESTABLISHED exactly when the three-way handshake
      took place, and else in HANDSHAKE. */
  lemma EstablishedIffOpened(cfg: Config, h: seq<Packet>)
    requires TcpFlow(h) && SYN in h[0].flags && ACK !in h[0].flags
    requires forall i :: 0 <= i < |h| ==> RST !in h[i].flags && !IsFin(h[i])
    ensures RecordOf(cfg, h).state == if Opened(h) then ESTABLISHED else HANDSHAKE
  {
    hide RecordOf, MarksAgree;
    LivesShow(cfg, h);
    if j :| 0 < j < |h| && Acknowledges(h, j) {
      var i :| 0 < i < j && SYN in h[i].flags && ACK in h[i].flags && h[i].src != h[0].src;
      assert SynAckFromB(h, i) && AckFromA(h, j);
    }
    if Opened(h) {
      var i, j :| 0 < i < j < |h| && SynAckFromB(h, i) && AckFromA(h, j);
      assert Acknowledges(h, j);
    }
  }

  /** A flow opened by a SYN/ACK waits for an ACK of the other endpoint ... */
  lemma EstablishedIffOtherAcks(cfg: Config, h: seq<Packet>)
    requires TcpFlow(h) && SYN in h[0].flags && ACK in h[0].flags && !AnsweredBefore(h, |h|)
    requires forall i :: 0 <= i < |h| ==> RST !in h[i].flags && !IsFin(h[i])
    ensures RecordOf(cfg, h).state
            == if exists j :: 0 < j < |h| && ACK in h[j].flags && SYN !in h[j].flags && h[j].src != h[0].src
               then ESTABLISHED else HANDSHAKE
  {
    hide RecordOf, MarksAgree;
    LivesShow(cfg, h);
    if j :| 0 < j < |h| && ACK in h[j].flags && SYN !in h[j].flags && h[j].src != h[0].src {
      assert Acknowledges(h, j);
    }
  }

  /** ... unless that endpoint sends a SYN/ACK itself: then its own ACK leaves the flow in HANDSHAKE. */
  lemma SecondSynAckTurnsRound(cfg: Config, a: Packet, b: Packet, c: Packet)
    requires a.protocol == b.protocol == c.protocol == TCP && a.src != b.src == c.src
    requires a.flags == b.flags == {SYN, ACK} && c.flags == {ACK}
    ensures RecordOf(cfg, [a, b, c]).state == HANDSHAKE
  {
    hide RecordOf, MarksAgree;
    var h := [a, b, c];
    LivesShow(cfg, h);
    assert AnsweredBefore(h, 2) by {
      assert SYN in h[1].flags && ACK in h[1].flags && h[1].src != h[0].src;
    }
    assert !Acknowledges(h, 1) && !Acknowledges(h, 2);
  }
}
