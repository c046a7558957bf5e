/** src/engine/engine.py: loading, storing, indexing and evaluating behind one object. */
module Engine {
  import opened Common
  import opened Rules
  import opened RuleLoader
  import opened OptionValues
  import opened RuleValidator
  import opened RuleClassification
  import opened Evaluation
  import RuleIndex

  datatype Opened = Missing(name: string) | Ready(engine: EvaluationEngine)

  /** The rules an engine opened on these files works with. */
  function ActiveRules(configured: seq<Source>, extras: seq<Extra>, net: NetFn, defaultPriority: int,
          disabled: set<int>): seq<Rule> {
    var ps := AllParsed(configured + AsSources(extras), Parser(net, defaultPriority));
    Kept(ps, |ps|, disabled)
  }

  /** Whatever the files hold, the active rules are usable, have distinct sids and none is disabled. */
  lemma ActiveRulesAreUsable(configured: seq<Source>, extras: seq<Extra>, net: NetFn, defaultPriority: int,
          disabled: set<int>)
    ensures var rs := ActiveRules(configured, extras, net, defaultPriority, disabled);
            && (forall r :: r in rs ==> Usable(r) && r.sid !in disabled)
            && (forall i, j :: 0 <= i < j < |rs| ==> rs[i].sid != rs[j].sid)
  {
    hide Usable, AllParsed, Parser;
    var sources := configured + AsSources(extras);
    var ps := AllParsed(sources, Parser(net, defaultPriority));
    LoadedRulesAreUsable(sources, net, defaultPriority, disabled);
    KeptSidsAreUnique(ps, |ps|, disabled);
  }

  /** Engine.__init__: a missing extra file is an error even when the engine is disabled; else the
      engine is ready, with the rules loaded if it is enabled and none if not. Adding them never
      raises. */
  method Open(enabled: bool, configured: seq<Source>, extras: seq<Extra>, net: NetFn, defaultPriority: int,
          disabled: set<int>)
    returns (r: Opened)
    ensures r.Ready? <==> AllFiles(extras)
    ensures r.Missing? ==> IsFirstMissing(r.name, extras)
    ensures r.Ready? ==> var e := r.engine;
                         && fresh(e) && fresh(e.stats) && e.Valid() && e.stats.Value() == ZERO && e.enabled == enabled
                         && e.rules == if enabled then ActiveRules(configured, extras, net, defaultPriority,
                            disabled) else []
  {
    hide Usable, AllParsed, Parser, Kept, Recorded, Seen, Tallied;
    if !enabled {
      var missing := CheckExtras(extras);
      if missing.Some? { return Missing(missing.value); }
      var none := new RuleIndex.RuleRepository();
      var idle := new EvaluationEngine(none, false);
      return Ready(idle);
    }
    var loading := LoadRules(configured, extras, Parser(net, defaultPriority), disabled);
    if loading.FileNotFound? { return Missing(loading.name); }
    var st := loading.st;
    var repository := FillRepository(st.parsed, st.rules, st.disabled);
    var engine := new EvaluationEngine(repository, true);
    r := Ready(engine);
  }
}
