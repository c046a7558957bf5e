/** The tracker driven over a whole session: src/pipeline/pipeline.py calls update for every event and
    flush at the end, and sweep may be called at any time. */
module FlowSession {
  import opened Common
  import opened FlowRecord
  import opened FlowHistories
  import opened FlowRuns
  import FT = FlowTracker

  datatype Call = UpdateCall(e: FT.Event) | SweepCall(now: Option<real>) | FlushCall

  /** What the calls amount to: an event the tracker skips is no command. */
  function CommandsOf(calls: seq<Call>): seq<Command> {
    if calls == [] then []
    else
      CommandsOf(calls[..|calls| - 1])
      + match calls[|calls| - 1]
        case UpdateCall(e) => if FT.PacketOf(e).Some? then [Arrival(FT.PacketOf(e).value)] else []
        case SweepCall(now) => [SweepAt(now)]
        case FlushCall => [FlushAll]
  }

  /** The tag update() leaves on each event. */
  ghost function TagsOf(cfg: Config, calls: seq<Call>): seq<Option<Tag>> {
    if calls == [] then []
    else
      var before := calls[..|calls| - 1];
      TagsOf(cfg, before)
      + match calls[|calls| - 1]
        case UpdateCall(e) =>
          var p := FT.PacketOf(e);
          [if p.None? then None else Some(TagFor(cfg, Run(cfg, CommandsOf(before)), p.value))]
        case _ => []
  }

  lemma OneMoreCall(cfg: Config, calls: seq<Call>, i: nat)
    requires i < |calls|
    ensures var before, after := CommandsOf(calls[..i]), CommandsOf(calls[..i + 1]);
            match calls[i]
            case UpdateCall(e) =>
              var p := FT.PacketOf(e);
              && Run(cfg, after) == (if p.None? then Run(cfg, before) else Update(cfg, Run(cfg, before), p.value))
              && TagsOf(cfg, calls[..i + 1])
                 == TagsOf(cfg, calls[..i]) + [if p.None? then None else Some(TagFor(cfg, Run(cfg, before), p.value))]
            case SweepCall(now) =>
              && Run(cfg, after) == Sweep(cfg, Run(cfg, before), if now.Some? then now.value
                 else Run(cfg, before).clock)
              && TagsOf(cfg, calls[..i + 1]) == TagsOf(cfg, calls[..i])
            case FlushCall =>
              && Run(cfg, after) == Flush(cfg, Run(cfg, before))
              && TagsOf(cfg, calls[..i + 1]) == TagsOf(cfg, calls[..i])
  {
    hide Update, Sweep, Flush, WellFormed, TagFor;
    var before := CommandsOf(calls[..i]);
    assert calls[..i + 1][..i] == calls[..i];
    assert before + [] == before;
    match calls[i]
    case UpdateCall(e) =>
      if FT.PacketOf(e).Some? {
        RunSnoc(cfg, before, Arrival(FT.PacketOf(e).value));
      }
    case SweepCall(now) => RunSnoc(cfg, before, SweepAt(now));
    case FlushCall => RunSnoc(cfg, before, FlushAll);
  }

  lemma RunSnoc(cfg: Config, cs: seq<Command>, c: Command)
    ensures Run(cfg, cs + [c]) == Step(cfg, Run(cfg, cs), c)
  {
    assert (cs + [c])[..|cs|] == cs;
  }

  /** One call on the tracker; an update yields the event's tag. */
  method Perform(t: FT.FlowTracker, call: Call) returns (tags: seq<Option<Tag>>)
    requires t.Valid()
    modifies t, t.table, t.table.entries.Values
    ensures t.Valid() && fresh(t.table.entries.Values - old(t.table.entries.Values))
    ensures match call
            case UpdateCall(e) =>
              var p := FT.PacketOf(e);
              && t.View() == (if p.None? then old(t.View()) else Update(t.cfg, old(t.View()), p.value))
              && tags == [if p.None? then None else Some(TagFor(t.cfg, old(t.View()), p.value))]
            case SweepCall(now) =>
              t.View() == Sweep(t.cfg, old(t.View()), if now.Some? then now.value else old(t.clock)) && tags == []
            case FlushCall => t.View() == Flush(t.cfg, old(t.View())) && tags == []
  {
    hide Update, Sweep, Flush, TagFor, FT.PacketOf, WellFormed;
    tags := [];
    match call {
      case UpdateCall(e) =>
        var tag := t.UpdateEvent(e);
        tags := [tag];
      case SweepCall(now) => var _ := t.SweepTable(now);
      case FlushCall => var _ := t.FlushTable();
    }
  }

  /** The mutable tracker over a session holds exactly what the run of its commands holds, so every
      theorem about runs is one about it. */
  method Drive(cfg: Config, calls: seq<Call>) returns (t: FT.FlowTracker, tags: seq<Option<Tag>>)
    ensures fresh(t) && t.Valid() && t.cfg == cfg
    ensures t.View() == Run(cfg, CommandsOf(calls)) && tags == TagsOf(cfg, calls)
  {
    hide Run, TagsOf, CommandsOf, Update, Sweep, Flush, TagFor, FT.PacketOf, WellFormed;
    t := new FT.FlowTracker(cfg);
    tags := [];
    var i := 0;
    NoCallsYet(cfg);
    assert t.table.entries.Values == {};
    assert calls[..0] == [];
    while i < |calls|
      invariant 0 <= i <= |calls| && fresh(t) && fresh(t.table) && fresh(t.table.entries.Values) && t.Valid()
                && t.cfg == cfg
      invariant t.View() == Run(cfg, CommandsOf(calls[..i])) && tags == TagsOf(cfg, calls[..i])
    {
      OneMoreCall(cfg, calls, i);
      var more := Perform(t, calls[i]);
      tags := tags + more;
      i := i + 1;
    }
    assert calls[..i] == calls;
  }

  lemma NoCallsYet(cfg: Config)
    ensures Run(cfg, CommandsOf([])) == INIT && TagsOf(cfg, []) == []
  {
  }
}
