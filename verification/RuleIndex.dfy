/** src/rules/repository.py and src/rules/indexer.py. */
module RuleIndex {
  import opened Common
  import opened Rules

  // ---------------------------------------------------------------- the repository

  datatype AddResult = Order(order: nat) | Frozen | DuplicateSid

  class RuleRepository {
    var rules: seq<Rule>
    var bySid: map<int, (nat, Rule)>
    var frozen: bool
    var snapshot: Option<seq<Rule>>

    constructor ()
      ensures Valid() && rules == [] && !frozen
    {
      rules, bySid, frozen, snapshot := [], map[], false, None;
    }

    /** The sid table is the inverse of the rule list, so sids are unique; a frozen repository's
        snapshot is its rules. */
    ghost predicate Valid()
      reads this
    {
      && (forall i :: 0 <= i < |rules| ==> rules[i].sid in bySid && bySid[rules[i].sid] == (i, rules[i]))
      && (forall sid :: sid in bySid ==>
            bySid[sid].0 < |rules| && rules[bySid[sid].0] == bySid[sid].1 && bySid[sid].1.sid == sid)
      && snapshot == (if frozen then Some(rules) else None)
    }

    method Add(rule: Rule) returns (r: AddResult)
      requires Valid()
      modifies this
      ensures Valid() && frozen == old(frozen)
      ensures r == if old(frozen) then Frozen
                   else if exists i :: 0 <= i < |old(rules)| && old(rules)[i].sid == rule.sid then DuplicateSid
                   else Order(|old(rules)|)
      ensures rules == if r.Order? then old(rules) + [rule] else old(rules)
    {
      if frozen { return Frozen; }
      if rule.sid in bySid { return DuplicateSid; }
      r := Order(|rules|);
      bySid := bySid[rule.sid := (|rules|, rule)];
      rules := rules + [rule];
    }

    method Freeze()
      requires Valid()
      modifies this
      ensures Valid() && frozen && rules == old(rules)
    {
      if !frozen {
        snapshot := Some(rules);
      }
      frozen := true;
    }

    method All() returns (r: seq<Rule>)
      requires Valid()
      ensures r == rules
    {
      r := if snapshot.Some? then snapshot.value else rules;
    }

    method OrderOf(sid: int) returns (r: Option<nat>)
      requires Valid()
      ensures r.Some? <==> exists i :: 0 <= i < |rules| && rules[i].sid == sid
      ensures r.Some? ==> r.value < |rules| && rules[r.value].sid == sid
    {
      r := if sid in bySid then Some(bySid[sid].0) else None;
    }
  }

  // ---------------------------------------------------------------- the index

  class Bucket {
    var exact: map<int, seq<nat>>
    var ranges: seq<(int, int, nat)>
    var anyPort: seq<nat>

    constructor ()
      ensures forall o, q :: !Stored(o, q)
    {
      exact, ranges, anyPort := map[], [], [];
    }

    /** The bucket holds order o for a packet going to port q. */
    ghost predicate Stored(o: nat, q: int)
      reads this
    {
      || (q in exact && o in exact[q])
      || (exists i :: 0 <= i < |ranges| && ranges[i].0 <= q <= ranges[i].1 && ranges[i].2 == o)
      || o in anyPort
    }

    method Register(port: PortSpec, order: nat)
      modifies this
      ensures forall o: nat, q :: 0 <= q <= PORT_MAX ==>
                (Stored(o, q) <==> old(Stored(o, q)) || (o == order && PortIn(port, q)))
    {
      if port.lo == 0 && port.hi == PORT_MAX {
        anyPort := anyPort + [order];
      } else if port.lo == port.hi {
        exact := exact[port.lo := (if port.lo in exact then exact[port.lo] else []) + [order]];
      } else {
        ranges := ranges + [(port.lo, port.hi, order)];
        assert ranges[|ranges| - 1] == (port.lo, port.hi, order);
        assert forall i :: 0 <= i < |old(ranges)| ==> ranges[i] == old(ranges)[i];
      }
    }

    /** Adds to `into` the orders stored for the port. */
    method Collect(port: int, into: set<nat>) returns (r: set<nat>)
      ensures forall o: nat :: o in r <==> o in into || Stored(o, port)
    {
      r := into;
      if port in exact {
        r := r + set o | o in exact[port];
      }
      r := r + set i | 0 <= i < |ranges| && ranges[i].0 <= port <= ranges[i].1 :: ranges[i].2;
      r := r + set o | o in anyPort;
    }
  }

  /** The ports rule r is filed under: its destination, and for `<>` also its source. */
  predicate FiledUnder(r: Rule, q: int) {
    PortIn(r.dstPort, q) || (r.direction == BothWays && PortIn(r.srcPort, q))
  }

  /** The protocol-and-port filter the index implements. An absent name is an unknown protocol. */
  predicate IsCandidate(r: Rule, name: Option<RuleProtocol>, port: Option<int>) {
    name.Some? && ValidPort(port) && (r.protocol == name.value || r.protocol == Ip) && FiledUnder(r, port.value)
  }

  /** The naive scan: the candidates among the rules, in repository order. */
  function CandidatesOf(rules: seq<Rule>, name: Option<RuleProtocol>, port: Option<int>): seq<Rule> {
    if rules == [] then []
    else
      CandidatesOf(rules[..|rules| - 1], name, port)
      + if IsCandidate(rules[|rules| - 1], name, port) then [rules[|rules| - 1]] else []
  }

  /** sorted(): the members of s below n in increasing order. */
  function SortedBelow(s: set<nat>, n: nat): seq<nat> {
    if n == 0 then [] else SortedBelow(s, n - 1) + if n - 1 in s then [n - 1] else []
  }

  function Pick(rules: seq<Rule>, orders: seq<nat>): seq<Rule>
    requires forall i :: 0 <= i < |orders| ==> orders[i] < |rules|
  {
    seq(|orders|, i requires 0 <= i < |orders| => rules[orders[i]])
  }

  lemma {:induction false} SortedBelowIsSorted(s: set<nat>, n: nat)
    ensures forall i :: 0 <= i < |SortedBelow(s, n)| ==> SortedBelow(s, n)[i] < n && SortedBelow(s, n)[i] in s
    ensures forall i, j :: 0 <= i < j < |SortedBelow(s, n)| ==> SortedBelow(s, n)[i] < SortedBelow(s, n)[j]
    ensures forall o :: o in s && o < n ==> o in SortedBelow(s, n)
  {
    if n > 0 {
      SortedBelowIsSorted(s, n - 1);
    }
  }

  /** Picking the sorted orders of the candidates is the naive scan. */
  lemma {:induction false} PickIsScan(rules: seq<Rule>, n: nat, s: set<nat>, name: Option<RuleProtocol>,
          port: Option<int>)
    requires n <= |rules| && forall o: nat :: o < |rules| ==> (o in s <==> IsCandidate(rules[o], name, port))
    ensures forall i :: 0 <= i < |SortedBelow(s, n)| ==> SortedBelow(s, n)[i] < |rules|
    ensures Pick(rules, SortedBelow(s, n)) == CandidatesOf(rules[..n], name, port)
  {
    SortedBelowIsSorted(s, n);
    if n > 0 {
      PickIsScan(rules, n - 1, s, name, port);
      assert rules[..n][..n - 1] == rules[..n - 1];
    }
  }

  class RuleIndexer {
    const rules: seq<Rule>
    const tcp: Bucket
    const udp: Bucket
    const ip: Bucket

    /** Every bucket holds exactly the rules of its protocol, under the ports they are filed under. */
    ghost predicate Holds(b: Bucket, p: RuleProtocol, n: nat)
      requires n <= |rules|
      reads b
    {
      forall o: nat, q :: 0 <= q <= PORT_MAX ==>
        (b.Stored(o, q) <==> o < n && rules[o].protocol == p && FiledUnder(rules[o], q))
    }

    ghost predicate Valid()
      reads tcp, udp, ip
    {
      Holds(tcp, Tcp, |rules|) && Holds(udp, Udp, |rules|) && Holds(ip, Ip, |rules|)
    }

    constructor (repository: RuleRepository)
      requires repository.Valid() && repository.frozen
      ensures Valid() && rules == repository.rules && fresh(tcp) && fresh(udp) && fresh(ip)
    {
      var all := repository.All();
      rules := all;
      tcp := new Bucket();
      udp := new Bucket();
      ip := new Bucket();
      new;
      hide Bucket.Stored, FiledUnder;
      var order := 0;
      while order < |rules|
        invariant 0 <= order <= |rules| && tcp != udp && udp != ip && tcp != ip
        invariant fresh(tcp) && fresh(udp) && fresh(ip)
        invariant Holds(tcp, Tcp, order) && Holds(udp, Udp, order) && Holds(ip, Ip, order)
      {
        hide Holds;
        FileNext(order);
        order := order + 1;
      }
    }

    /** File the rule of one order in the bucket of its protocol. */
    method FileNext(order: nat)
      requires order < |rules| && tcp != udp && udp != ip && tcp != ip
      requires Holds(tcp, Tcp, order) && Holds(udp, Udp, order) && Holds(ip, Ip, order)
      modifies tcp, udp, ip
      ensures Holds(tcp, Tcp, order + 1) && Holds(udp, Udp, order + 1) && Holds(ip, Ip, order + 1)
    {
      hide Bucket.Stored, FiledUnder;
      var rule := rules[order];
      var bucket := match rule.protocol case Tcp => tcp case Udp => udp case Ip => ip;
      FileRule(bucket, rule, order);
    }

    /** Put a rule in its bucket. */
    static method FileRule(bucket: Bucket, rule: Rule, order: nat)
      modifies bucket
      ensures forall o: nat, q :: 0 <= q <= PORT_MAX ==>
                (bucket.Stored(o, q) <==> old(bucket.Stored(o, q)) || (o == order && FiledUnder(rule, q)))
    {
      hide Bucket.Stored;
      bucket.Register(rule.dstPort, order);
      if rule.direction == BothWays {
        bucket.Register(rule.srcPort, order);
      }
    }

    /** candidates(): without duplicates and in repository order, exactly the naive filter. */
    method Candidates(name: Option<RuleProtocol>, port: Option<int>) returns (r: seq<Rule>)
      requires Valid()
      ensures r == CandidatesOf(rules, name, port)
    {
      if name.None? || !ValidPort(port) {
        NoCandidates(rules, name, port);
        return [];
      }
      var orders: set<nat> := {};
      match name.value {
        case Tcp => orders := tcp.Collect(port.value, orders);
        case Udp => orders := udp.Collect(port.value, orders);
        case Ip => orders := ip.Collect(port.value, orders);
      }
      if name.value != Ip {
        orders := ip.Collect(port.value, orders);
      }
      PickIsScan(rules, |rules|, orders, name, port);
      assert rules[..|rules|] == rules;
      r := Pick(rules, SortedBelow(orders, |rules|));
    }
  }

  lemma {:induction false} NoCandidates(rules: seq<Rule>, name: Option<RuleProtocol>, port: Option<int>)
    requires name.None? || !ValidPort(port)
    ensures CandidatesOf(rules, name, port) == []
  {
    if rules != [] {
      NoCandidates(rules[..|rules| - 1], name, port);
    }
  }

  function NameOfEvent(e: Event): Option<RuleProtocol> {
    if e.protocol.None? then None else Some(NameOf(e.protocol.value))
  }

  /** The index never drops a rule that can match: a rule whose header fits the packet, forwards or,
      for `<>`, reversed, is a candidate for it. */
  lemma HeaderMatchIsCandidate(r: Rule, e: Event)
    requires MatchHeader(r, e)
    ensures IsCandidate(r, NameOfEvent(e), e.dstPort)
  {
  }

  const ANY := IpSpec(true, 0, 0)

  /** ... and keeps no other rule than it must: a candidate is a rule whose header, addresses aside, some
      packet of that protocol to that port fits. */
  lemma CandidateExactly(r: Rule, name: Option<RuleProtocol>, port: Option<int>)
    requires name != Some(Ip)
    ensures IsCandidate(r, name, port)
            <==> exists e: Event :: NameOfEvent(e) == name && e.dstPort == port
                                    && MatchHeader(r.(srcIp := ANY, dstIp := ANY), e)
  {
    var free := r.(srcIp := ANY, dstIp := ANY);
    if IsCandidate(r, name, port) {
      var src := if PortIn(r.dstPort, port.value) then r.srcPort.lo else r.dstPort.lo;
      var p := if name == Some(Tcp) then FlowKey.TCP else FlowKey.UDP;
      var e := Event(Some(p), Some(0), Some(src), Some(0), port, None, [], false, false);
      assert NameOfEvent(e) == name && MatchHeader(free, e);
    }
    if e: Event :| NameOfEvent(e) == name && e.dstPort == port && MatchHeader(free, e) {
      HeaderMatchIsCandidate(free, e);
    }
  }
}
