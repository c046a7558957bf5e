/** What the TCP state of a flow says about the packets the flow has seen. */
module TcpRuns {
  import opened Common
  import opened FlowKey
  import opened TcpState
  import opened FlowRecord

  ghost predicate TcpFlow(h: seq<Packet>) {
    h != [] && forall i :: 0 <= i < |h| ==> h[i].protocol == TCP
  }

  predicate FromA(h: seq<Packet>, i: nat)
    requires i < |h|
  {
    h[i].src == h[0].src
  }

  /** The state packet i found: it was processed by a flow that was not over. */
  predicate Live(cfg: Config, h: seq<Packet>, i: nat)
    requires i < |h|
  {
    i == 0 || !Terminal(RecordOf(cfg, h[..i]).state)
  }

  lemma LiveInPrefix(cfg: Config, h: seq<Packet>, n: nat, i: nat)
    requires i < n <= |h|
    ensures h[..n][i] == h[i] && Live(cfg, h[..n], i) == Live(cfg, h, i)
  {
    assert h[..n][..i] == h[..i];
  }

  /** The state machine's part of an entry, one packet at a time. */
  lemma MachineStep(cfg: Config, h: seq<Packet>)
    requires h != [] && h[|h| - 1].protocol == TCP
    ensures var n := |h| - 1;
            (RecordOf(cfg, h).state, ContextOf(EntryOf(cfg, h)))
            == if n == 0 then Transition(cfg.needsFinalAck, HANDSHAKE, h[0].flags, Forward,
                                         Context(false, None, false, false, false), true)
               else Transition(cfg.needsFinalAck, RecordOf(cfg, h[..n]).state, h[n].flags,
                               if FromA(h, n) then Forward else Backward, ContextOf(EntryOf(cfg, h[..n])), false)
  {
    if |h| > 1 {
      RecordIdentity(cfg, h[..|h| - 1]);
    }
  }

  lemma CounterStep(cfg: Config, h: seq<Packet>)
    requires h != [] && h[|h| - 1].protocol == TCP
    ensures var n := |h| - 1;
            var f := RecordOf(cfg, h);
            && f.flags.syn == (if n == 0 then 0 else RecordOf(cfg, h[..n]).flags.syn) + One(SYN in h[n].flags)
            && f.flags.ack == (if n == 0 then 0 else RecordOf(cfg, h[..n]).flags.ack) + One(ACK in h[n].flags)
            && f.flags.fin == (if n == 0 then 0 else RecordOf(cfg, h[..n]).flags.fin) + One(FIN in h[n].flags)
            && f.flags.rst == (if n == 0 then 0 else RecordOf(cfg, h[..n]).flags.rst) + One(RST in h[n].flags)
  {
  }

  // ---------------------------------------------------------------- rank and midstream

  /** One more packet never lowers the rank of the state, never leaves CLOSED or RESET, and never
      changes midstream. */
  lemma StateNeverDrops(cfg: Config, h: seq<Packet>, p: Packet)
    requires h != []
    ensures Rank(RecordOf(cfg, h).state) <= Rank(RecordOf(cfg, h + [p]).state)
    ensures Terminal(RecordOf(cfg, h).state) ==> RecordOf(cfg, h + [p]).state == RecordOf(cfg, h).state
    ensures RecordOf(cfg, h + [p]).midstream == RecordOf(cfg, h).midstream
  {
    Snoc(cfg, h, p);
    RecordIdentity(cfg, h);
  }

  /** Over a whole life: of two moments of one flow, the later has the higher rank and the same midstream. */
  lemma {:induction false} RankIsMonotone(cfg: Config, h: seq<Packet>, n: nat)
    requires 0 < n <= |h|
    ensures Rank(RecordOf(cfg, h[..n]).state) <= Rank(RecordOf(cfg, h).state)
    ensures RecordOf(cfg, h).midstream == RecordOf(cfg, h[..n]).midstream
    decreases |h| - n
  {
    if n < |h| {
      assert h[..n + 1] == h[..n] + [h[n]];
      StateNeverDrops(cfg, h[..n], h[n]);
      RankIsMonotone(cfg, h, n + 1);
    } else {
      assert h[..n] == h;
    }
  }

  // ---------------------------------------------------------------- RESET

  predicate ResetAt(cfg: Config, h: seq<Packet>, i: nat)
    requires i < |h|
  {
    RST in h[i].flags && Live(cfg, h, i)
  }

  /** A flow is RESET exactly when an RST reached it before it was over; until it is over it has seen none. */
  lemma {:induction false} ResetIffRst(cfg: Config, h: seq<Packet>)
    requires TcpFlow(h)
    ensures RecordOf(cfg, h).state == RESET <==> exists i :: 0 <= i < |h| && ResetAt(cfg, h, i)
    ensures !Terminal(RecordOf(cfg, h).state) ==> RecordOf(cfg, h).flags.rst == 0
  {
    hide EntryOf, RecordOf, Absorb;
    MachineStep(cfg, h);
    CounterStep(cfg, h);
    var n := |h| - 1;
    if n == 0 {
      assert RecordOf(cfg, h).state == RESET <==> ResetAt(cfg, h, 0);
    } else {
      var g := h[..n];
      ResetIffRst(cfg, g);
      forall i | 0 <= i < n
        ensures ResetAt(cfg, g, i) == ResetAt(cfg, h, i)
      {
        LiveInPrefix(cfg, h, n, i);
      }
      assert ResetAt(cfg, h, n) <==> RST in h[n].flags && !Terminal(RecordOf(cfg, g).state);
      if i :| 0 <= i < n && ResetAt(cfg, h, i) {
        assert ResetAt(cfg, g, i);
      }
      if i :| 0 <= i < n && ResetAt(cfg, g, i) {
        assert ResetAt(cfg, h, i);
      }
    }
  }

  // ---------------------------------------------------------------- CLOSED

  /** Packet i is a FIN that counts: no RST or SYN takes priority and the flow is not over. */
  predicate FinAt(cfg: Config, h: seq<Packet>, fromA: bool, i: nat)
    requires i < |h|
  {
    FIN in h[i].flags && SYN !in h[i].flags && RST !in h[i].flags && Live(cfg, h, i) && FromA(h, i) == fromA
  }

  ghost predicate FinFrom(cfg: Config, h: seq<Packet>, fromA: bool) {
    exists i :: 0 <= i < |h| && FinAt(cfg, h, fromA, i)
  }

  lemma FinFromGrows(cfg: Config, h: seq<Packet>, fromA: bool)
    requires |h| > 1
    ensures FinFrom(cfg, h, fromA) <==> FinFrom(cfg, h[..|h| - 1], fromA) || FinAt(cfg, h, fromA, |h| - 1)
  {
    var n := |h| - 1;
    var g := h[..n];
    forall i | 0 <= i < n
      ensures FinAt(cfg, g, fromA, i) == FinAt(cfg, h, fromA, i)
    {
      LiveInPrefix(cfg, h, n, i);
    }
    if i :| 0 <= i < |h| && FinAt(cfg, h, fromA, i) {
      assert i < n ==> FinAt(cfg, g, fromA, i);
    }
    if i :| 0 <= i < |g| && FinAt(cfg, g, fromA, i) {
      assert FinAt(cfg, h, fromA, i);
    }
  }

  /** The two FIN marks say which endpoints have sent a FIN that counts. */
  lemma {:induction false} FinMarks(cfg: Config, h: seq<Packet>)
    requires TcpFlow(h)
    ensures EntryOf(cfg, h).finFwd <==> FinFrom(cfg, h, true)
    ensures EntryOf(cfg, h).finBwd <==> FinFrom(cfg, h, false)
    ensures RecordOf(cfg, h).flags.fin >= One(EntryOf(cfg, h).finFwd) + One(EntryOf(cfg, h).finBwd)
  {
    hide EntryOf, RecordOf, Absorb;
    MachineStep(cfg, h);
    CounterStep(cfg, h);
    var n := |h| - 1;
    if n == 0 {
      assert EntryOf(cfg, h).finFwd <==> FinAt(cfg, h, true, 0);
      assert !FinAt(cfg, h, false, 0);
    } else {
      FinMarks(cfg, h[..n]);
      FinFromGrows(cfg, h, true);
      FinFromGrows(cfg, h, false);
      assert Live(cfg, h, n) <==> !Terminal(RecordOf(cfg, h[..n]).state);
    }
  }

  /** CLOSED needs FINs from both endpoints; without the final-ACK option it needs nothing else. */
  lemma {:induction false} ClosedNeedsBothFins(cfg: Config, h: seq<Packet>)
    requires TcpFlow(h)
    ensures RecordOf(cfg, h).state == CLOSED ==> EntryOf(cfg, h).finFwd && EntryOf(cfg, h).finBwd
    ensures RecordOf(cfg, h).state == CLOSING ==> EntryOf(cfg, h).finFwd || EntryOf(cfg, h).finBwd
    ensures RecordOf(cfg, h).state != ACTIVE
    ensures RecordOf(cfg, h).state in {HANDSHAKE, ESTABLISHED} ==> !EntryOf(cfg, h).finFwd && !EntryOf(cfg, h).finBwd
    ensures EntryOf(cfg, h).finFwd && EntryOf(cfg, h).finBwd && !cfg.needsFinalAck ==> RecordOf(cfg, h).state == CLOSED
  {
    hide EntryOf, RecordOf, Absorb;
    MachineStep(cfg, h);
    if |h| > 1 {
      ClosedNeedsBothFins(cfg, h[..|h| - 1]);
    }
  }

  /** The flow is CLOSED only if both endpoints sent a FIN that counts, and then fin_count >= 2; with
      the default configuration this is an equivalence. */
  lemma ClosedIffBothFins(cfg: Config, h: seq<Packet>)
    requires TcpFlow(h)
    ensures RecordOf(cfg, h).state == CLOSED ==>
              FinFrom(cfg, h, true) && FinFrom(cfg, h, false) && RecordOf(cfg, h).flags.fin >= 2
    ensures !cfg.needsFinalAck ==>
              (RecordOf(cfg, h).state == CLOSED <==> FinFrom(cfg, h, true) && FinFrom(cfg, h, false))
  {
    FinMarks(cfg, h);
    ClosedNeedsBothFins(cfg, h);
  }

  /** Packet j is a bare ACK that reaches a flow which is not over and has seen a FIN that counts from
      each endpoint. */
  ghost predicate FinalAckAt(cfg: Config, h: seq<Packet>, j: nat)
    requires j < |h|
  {
    && ACK in h[j].flags && SYN !in h[j].flags && FIN !in h[j].flags && RST !in h[j].flags && Live(cfg, h, j)
    && FinFrom(cfg, h[..j], true) && FinFrom(cfg, h[..j], false)
  }

  lemma FinalAckInPrefix(cfg: Config, h: seq<Packet>, j: nat)
    requires j < |h| - 1
    ensures FinalAckAt(cfg, h[..|h| - 1], j) <==> FinalAckAt(cfg, h, j)
  {
    hide FinFrom, Live;
    LiveInPrefix(cfg, h, |h| - 1, j);
    assert h[..|h| - 1][..j] == h[..j];
  }

  /** The last packet closes the flow exactly when it is the final ACK. */
  lemma ClosesIffFinalAck(cfg: Config, h: seq<Packet>)
    requires TcpFlow(h) && cfg.needsFinalAck
    ensures RecordOf(cfg, h).state == CLOSED
            <==> (|h| > 1 && RecordOf(cfg, h[..|h| - 1]).state == CLOSED) || FinalAckAt(cfg, h, |h| - 1)
  {
    hide EntryOf, RecordOf, Absorb, FinFrom;
    MachineStep(cfg, h);
    if |h| > 1 {
      FinMarks(cfg, h[..|h| - 1]);
      ClosedNeedsBothFins(cfg, h[..|h| - 1]);
    } else {
      NoFinsYet(cfg);
      assert h[..0] == [];
    }
  }

  lemma NoFinsYet(cfg: Config)
    ensures !FinFrom(cfg, [], true) && !FinFrom(cfg, [], false)
  {
  }

  /** When the final ACK is required, the flow is CLOSED exactly when it has come. */
  lemma {:induction false} ClosedIffFinalAck(cfg: Config, h: seq<Packet>)
    requires TcpFlow(h) && cfg.needsFinalAck
    ensures RecordOf(cfg, h).state == CLOSED <==> exists j :: 0 <= j < |h| && FinalAckAt(cfg, h, j)
  {
    hide EntryOf, RecordOf, FinalAckAt;
    ClosesIffFinalAck(cfg, h);
    if |h| > 1 {
      var g := h[..|h| - 1];
      ClosedIffFinalAck(cfg, g);
      if j :| 0 <= j < |g| && FinalAckAt(cfg, g, j) {
        FinalAckInPrefix(cfg, h, j);
      }
      if j :| 0 <= j < |h| && FinalAckAt(cfg, h, j) {
        if j < |g| {
          FinalAckInPrefix(cfg, h, j);
          assert FinalAckAt(cfg, g, j);
        }
      }
    }
  }

  // ---------------------------------------------------------------- ESTABLISHED

  predicate SynAckFromB(h: seq<Packet>, i: nat)
    requires i < |h|
  {
    SYN in h[i].flags && ACK in h[i].flags && !FromA(h, i)
  }

  predicate AckFromA(h: seq<Packet>, j: nat)
    requires j < |h|
  {
    ACK in h[j].flags && SYN !in h[j].flags && FromA(h, j)
  }

  /** The flow opened with a bare SYN, and endpoint_b answered with a SYN/ACK. */
  ghost predicate Answered(h: seq<Packet>)
    requires h != []
  {
    SYN in h[0].flags && ACK !in h[0].flags && exists i :: 0 < i < |h| && SynAckFromB(h, i)
  }

  /** ... and endpoint_a then acknowledged it. */
  ghost predicate Opened(h: seq<Packet>)
    requires h != []
  {
    SYN in h[0].flags && ACK !in h[0].flags
    && exists i, j :: 0 < i < j < |h| && SynAckFromB(h, i) && AckFromA(h, j)
  }

  lemma OpeningGrows(h: seq<Packet>)
    requires |h| > 1
    ensures Answered(h[..|h| - 1]) ==> Answered(h)
    ensures Opened(h[..|h| - 1]) ==> Opened(h)
    ensures Answered(h[..|h| - 1]) && AckFromA(h, |h| - 1) ==> Opened(h)
  {
    var n := |h| - 1;
    var g := h[..n];
    if Answered(g) {
      var i :| 0 < i < |g| && SynAckFromB(g, i);
      assert SynAckFromB(h, i);
    }
    if Opened(g) {
      var i, j :| 0 < i < j < |g| && SynAckFromB(g, i) && AckFromA(g, j);
      assert SynAckFromB(h, i) && AckFromA(h, j);
    }
  }

  /** The handshake marks of a flow that was not picked up midstream. */
  lemma {:induction false} HandshakeMarks(cfg: Config, h: seq<Packet>)
    requires TcpFlow(h) && !RecordOf(cfg, h).midstream
    ensures var e := EntryOf(cfg, h);
            && e.flow.state != ACTIVE
            && (e.flow.state == HANDSHAKE ==> SYN in h[0].flags && ACK !in h[0].flags && e.flow.flags.syn >= 1)
            && (e.synackSeen ==>
                  e.synackDir == Some(Backward) && Answered(h) && e.flow.flags.syn >= 2 && e.flow.flags.ack >= 1)
            && (e.flow.state == ESTABLISHED ==> Opened(h) && e.flow.flags.syn >= 2 && e.flow.flags.ack >= 2)
  {
    hide EntryOf, Absorb;
    MachineStep(cfg, h);
    CounterStep(cfg, h);
    var n := |h| - 1;
    if n > 0 {
      var g := h[..n];
      HandshakeMarks(cfg, g);
      OpeningGrows(h);
      if SynAckFromB(h, n) && SYN in h[0].flags && ACK !in h[0].flags {
        assert Answered(h);
      }
    }
  }

  /** A flow that is ESTABLISHED and not midstream went through the three-way handshake. */
  lemma EstablishedMeansHandshake(cfg: Config, h: seq<Packet>)
    requires TcpFlow(h) && RecordOf(cfg, h).state == ESTABLISHED && !RecordOf(cfg, h).midstream
    ensures Opened(h) && RecordOf(cfg, h).flags.syn >= 2 && RecordOf(cfg, h).flags.ack >= 2
  {
    HandshakeMarks(cfg, h);
  }
}
