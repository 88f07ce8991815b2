/** The chain of regular-session stages: each increment inherits the captures of its
    predecessor, and the missing set a snapshot states is recomputed on the way. */
module StageChain {
  import opened Bars
  import opened Coverage

  datatype Stage = Open15 | Open30 | Open60 | Close

  datatype Mode = M15 | M30 | M60 | MClose | CloseRetry | CloseFinal
  {
    predicate Retries() { CloseRetry? || CloseFinal? }
  }

  /** One blob-verified capture: the facts of one symbol from one provider. */
  datatype Ref = Ref(symbol: string, provider: Provider, facts: seq<Fact>)

  datatype Snapshot = Snapshot(refs: seq<Ref>, missing: set<string>)

  type Snapshots = map<Stage, Snapshot>

  /** The Open universe, the wider Close universe, and whether a sparse primary may be replaced. */
  datatype Config = Config(open: seq<string>, close: seq<string>, fallback: bool)
  {
    predicate WellFormed() { Unique(open) && Unique(close) && Names(open) <= Names(close) }

    function Universe(stage: Stage): seq<string> { if stage.Close? then close else open }

    predicate Sparse(mode: Mode) { fallback && !mode.Retries() }
  }

  function At(hour: int, minute: int): int { (hour * 60 + minute) * MINUTE }

  function StageOf(mode: Mode): Stage {
    match mode
    case M15 => Open15
    case M30 => Open30
    case M60 => Open60
    case _ => Close
  }

  /** The window a mode fetches. */
  function Increment(mode: Mode): Window {
    match mode
    case M15 => Window(At(9, 30), At(9, 45))
    case M30 => Window(At(9, 45), At(10, 0))
    case M60 => Window(At(10, 0), At(10, 30))
    case _ => Window(At(15, 45), At(16, 0))
  }

  /** The window a stage answers for: Open stages reach back to the opening bell. */
  function Target(stage: Stage): Window {
    match stage
    case Open15 => Window(At(9, 30), At(9, 45))
    case Open30 => Window(At(9, 30), At(10, 0))
    case Open60 => Window(At(9, 30), At(10, 30))
    case Close => Window(At(15, 45), At(16, 0))
  }

  function Prior(mode: Mode): Option<Stage> {
    match mode
    case M15 => None
    case M30 => Some(Open15)
    case M60 => Some(Open30)
    case MClose => Some(Open60)
    case _ => Some(Close)
  }

  /** `_load_prior_snapshot`. */
  function Load(snaps: Snapshots, stage: Option<Stage>): Snapshot {
    if stage.Some? && stage.value in snaps then snaps[stage.value] else Snapshot([], {})
  }

  // ---------- what a snapshot should say ----------

  predicate Seen(r: Ref, w: Window) { exists f :: f in r.facts && Stamp(f, w).Some? }

  /** The symbols with an in-window fact among the captures. */
  function Evidence(refs: seq<Ref>, w: Window): set<string> { set r | r in refs && Seen(r, w) :: r.symbol }

  function Unseen(universe: seq<string>, seen: set<string>): seq<string> {
    if universe == [] then []
    else (if universe[0] !in seen then [universe[0]] else []) + Unseen(universe[1..], seen)
  }

  lemma {:induction false} UnseenMeaning(universe: seq<string>, seen: set<string>)
    ensures Names(Unseen(universe, seen)) == Names(universe) - seen
    ensures Unique(universe) ==> Unique(Unseen(universe, seen))
  {
    if universe != [] {
      UnseenMeaning(universe[1..], seen);
      var rest := Unseen(universe[1..], seen);
      assert forall s :: s in universe <==> s == universe[0] || s in universe[1..];
      assert forall s :: s in Names(rest) <==> s in rest;
      if Unique(universe) && universe[0] !in seen {
        assert universe[0] !in universe[1..];
        assert universe[0] !in Names(rest);
        forall i, j | 0 <= i < j < |rest| + 1 ensures ([universe[0]] + rest)[i] != ([universe[0]] + rest)[j] {
          assert rest[j - 1] in rest;
        }
      }
    }
  }

  /** Whom a run asks the providers about. */
  function Asked(cfg: Config, snaps: Snapshots, mode: Mode): seq<string> {
    if mode.Retries() then Unseen(cfg.close, Evidence(Load(snaps, Some(Close)).refs, Target(Close)))
    else cfg.Universe(StageOf(mode))
  }

  ghost function NewRefs(universe: seq<string>, feed: Feed, w: Window, sparse: bool): seq<Ref> {
    if universe == [] then []
    else
      var s := universe[|universe| - 1];
      var c := Chosen(feed, s, w, sparse);
      NewRefs(universe[..|universe| - 1], feed, w, sparse)
      + if c.Some? then [Ref(s, c.value.provider, c.value.facts)] else []
  }

  /** Those of `universe` some provider answered for. */
  ghost function Answered(universe: seq<string>, feed: Feed, w: Window): set<string> {
    set s | s in universe && (feed.Primary(s, w) != [] || feed.Alternate(s, w) != [])
  }

  /** What one run makes of the published snapshots, stated without its bookkeeping:
      captures accumulate, and missing is whatever still has no in-window fact. */
  ghost function Advance(cfg: Config, snaps: Snapshots, mode: Mode, feed: Feed): Snapshots {
    var refs := NewRefs(Asked(cfg, snaps, mode), feed, Increment(mode), cfg.Sparse(mode));
    if refs == [] then snaps
    else
      var all := Load(snaps, Prior(mode)).refs + refs;
      var stage := StageOf(mode);
      snaps[stage := Snapshot(all, Names(cfg.Universe(stage)) - Evidence(all, Target(stage)))]
  }

  /** Captures stay within the scope and, for Open stages, within the stage's window;
      the missing set is exact. */
  ghost predicate Consistent(cfg: Config, stage: Stage, snap: Snapshot) {
    && (forall r :: r in snap.refs ==> r.symbol in cfg.Universe(stage) && r.facts != [])
    && (!stage.Close? ==> forall r, f :: r in snap.refs && f in r.facts ==> Stamp(f, Target(stage)).Some?)
    && snap.missing == Names(cfg.Universe(stage)) - Evidence(snap.refs, Target(stage))
  }

  ghost predicate AllConsistent(cfg: Config, snaps: Snapshots) {
    forall stage :: stage in snaps ==> Consistent(cfg, stage, snaps[stage])
  }

  // ---------- captures by symbol ----------

  function FactsOf(refs: seq<Ref>, s: string): seq<Fact> {
    if refs == [] then []
    else FactsOf(refs[..|refs| - 1], s) + if refs[|refs| - 1].symbol == s then refs[|refs| - 1].facts else []
  }

  ghost predicate Tracks(m: map<string, seq<Fact>>, refs: seq<Ref>) {
    (forall s :: s in m <==> FactsOf(refs, s) != []) && forall s :: s in m ==> m[s] == FactsOf(refs, s)
  }

  lemma TracksStep(m: map<string, seq<Fact>>, refs: seq<Ref>, r: Ref)
    requires Tracks(m, refs)
    ensures r.facts == [] ==> Tracks(m, refs + [r])
    ensures Tracks(m[r.symbol := (if r.symbol in m then m[r.symbol] else []) + r.facts], refs + [r]) <== r.facts != []
  {}

  /** `_capture_facts`, and the loop that extends the inherited facts by the new ones. */
  method CaptureFacts(before: map<string, seq<Fact>>, ghost had: seq<Ref>, refs: seq<Ref>)
    returns (facts: map<string, seq<Fact>>)
    requires Tracks(before, had)
    ensures Tracks(facts, had + refs)
  {
    hide *;
    facts := before;
    assert had + refs[..0] == had;
    for i := 0 to |refs|
      invariant Tracks(facts, had + refs[..i])
    {
      var r := refs[i];
      assert had + refs[..i + 1] == had + refs[..i] + [r];
      TracksStep(facts, had + refs[..i], r);
      if r.facts != [] {
        facts := facts[r.symbol := (if r.symbol in facts then facts[r.symbol] else []) + r.facts];
      }
    }
    assert refs[..|refs|] == refs;
  }

  lemma {:induction false} FactsOfMeaning(refs: seq<Ref>, s: string)
    ensures forall f :: f in FactsOf(refs, s) <==> exists r :: r in refs && r.symbol == s && f in r.facts
  {
    if refs != [] {
      var init, last := refs[..|refs| - 1], refs[|refs| - 1];
      FactsOfMeaning(init, s);
      assert forall r :: r in refs <==> r in init || r == last;
    }
  }

  /** Coverage's own qualified set is the evidence in the captures. */
  lemma QualifiedIsEvidence(requested: seq<string>, m: map<string, seq<Fact>>, refs: seq<Ref>, w: Window)
    requires Tracks(m, refs)
    ensures QualifiedIn(requested, m, w) == Names(requested) * Evidence(refs, w)
  {
    forall s | s in requested ensures s in QualifiedIn(requested, m, w) <==> s in Evidence(refs, w) {
      FactsOfMeaning(refs, s);
      StampsWithin(FactsOf(refs, s), w);
      if s in m && Stamps(m[s], w) != [] {
        var f :| f in FactsOf(refs, s) && Stamp(f, w).Some?;
        var r :| r in refs && r.symbol == s && f in r.facts;
        assert Seen(r, w);
      }
      if s in Evidence(refs, w) {
        var r :| r in refs && Seen(r, w) && r.symbol == s;
        var f :| f in r.facts && Stamp(f, w).Some?;
        assert f in FactsOf(refs, s);
      }
    }
  }

  lemma TrackedSymbols(m: map<string, seq<Fact>>, refs: seq<Ref>, scope: seq<string>)
    requires Tracks(m, refs) && forall r :: r in refs ==> r.symbol in scope
    ensures m.Keys <= Names(scope)
  {
    forall s | s in m ensures s in scope {
      FactsOfMeaning(refs, s);
      assert FactsOf(refs, s)[0] in FactsOf(refs, s);
    }
  }

  // ---------- new captures ----------

  lemma {:induction false} NewRefsMeaning(universe: seq<string>, feed: Feed, w: Window, sparse: bool)
    requires w.start < w.end
    ensures forall r :: r in NewRefs(universe, feed, w, sparse) ==>
              r.symbol in universe && r.facts != [] && forall f :: f in r.facts ==> Stamp(f, w).Some?
    ensures forall s :: s in Answered(universe, feed, w) <==>
              exists r :: r in NewRefs(universe, feed, w, sparse) && r.symbol == s
  {
    if universe != [] {
      var init, s := universe[..|universe| - 1], universe[|universe| - 1];
      NewRefsMeaning(init, feed, w, sparse);
      NewRefsLast(universe, feed, w, sparse);
      var c := Chosen(feed, s, w, sparse);
      hide *;
      assert s in universe && forall x :: x in init ==> x in universe;
      var before, now := NewRefs(init, feed, w, sparse), NewRefs(universe, feed, w, sparse);
      if c.Some? {
        var mine := Ref(s, c.value.provider, c.value.facts);
        assert now == before + [mine] && mine in now && mine.symbol == s && mine.facts == c.value.facts;
        assert forall r :: r in now <==> r in before || r == mine;
      }
    }
  }

  lemma NewRefsLast(universe: seq<string>, feed: Feed, w: Window, sparse: bool)
    requires w.start < w.end && universe != []
    ensures var init, s := universe[..|universe| - 1], universe[|universe| - 1];
            var c := Chosen(feed, s, w, sparse);
            && NewRefs(universe, feed, w, sparse)
               == NewRefs(init, feed, w, sparse) + (if c.Some? then [Ref(s, c.value.provider, c.value.facts)] else [])
            && Answered(universe, feed, w) == Answered(init, feed, w) + (if c.Some? then {s} else {})
            && (c.Some? ==> c.value.facts != [] && forall f :: f in c.value.facts ==> Stamp(f, w).Some?)
  {
    var init, s := universe[..|universe| - 1], universe[|universe| - 1];
    ChosenMeaning(feed, s, w, sparse);
    hide Chosen, NewRefs;
    forall x ensures x in universe <==> x in init || x == s {}
  }

  /** Adding this run's captures adds exactly the symbols it got an answer for. */
  lemma EvidenceGrows(had: seq<Ref>, universe: seq<string>, feed: Feed, w: Window, sparse: bool, target: Window)
    requires target.start <= w.start < w.end <= target.end
    ensures Evidence(had + NewRefs(universe, feed, w, sparse), target)
         == Evidence(had, target) + Answered(universe, feed, w)
  {
    NewRefsMeaning(universe, feed, w, sparse);
    var new' := NewRefs(universe, feed, w, sparse);
    forall r | r in new' ensures Seen(r, target) {
      assert r.facts[0] in r.facts;
    }
    assert forall r :: r in had + new' <==> r in had || r in new';
    forall s | s in Answered(universe, feed, w) ensures s in Evidence(had + new', target) {
      var r :| r in new' && r.symbol == s;
      assert r in had + new' && Seen(r, target);
    }
    forall s | s in Evidence(had, target) ensures s in Evidence(had + new', target) {
      var r :| r in had && Seen(r, target) && r.symbol == s;
      assert r in had + new';
    }
  }

  // ---------- the missing set, branch by branch ----------

  /** For Open stages every carried fact is in the window, so having any fact is having evidence. */
  lemma AnyFactIsEvidence(m: map<string, seq<Fact>>, refs: seq<Ref>, w: Window)
    requires Tracks(m, refs) && forall r, f :: r in refs && f in r.facts ==> Stamp(f, w).Some?
    ensures m.Keys == Evidence(refs, w)
  {
    forall s ensures s in m <==> s in Evidence(refs, w) {
      FactsOfMeaning(refs, s);
      if s in m {
        var f := FactsOf(refs, s)[0];
        assert f in FactsOf(refs, s);
        var r :| r in refs && r.symbol == s && f in r.facts;
        assert Seen(r, w);
      }
      if s in Evidence(refs, w) {
        var r :| r in refs && Seen(r, w) && r.symbol == s;
        var f :| f in r.facts && Stamp(f, w).Some?;
        assert f in FactsOf(refs, s);
      }
    }
  }

  /** Captures of an earlier stage never count towards the Close window. */
  lemma OpenIsNotClose(cfg: Config, snaps: Snapshots)
    requires AllConsistent(cfg, snaps)
    ensures Evidence(Load(snaps, Some(Open60)).refs, Target(Close)) == {}
  {
    if Open60 in snaps {
      assert Consistent(cfg, Open60, snaps[Open60]);
      forall r | r in snaps[Open60].refs ensures !Seen(r, Target(Close)) {
        forall f | f in r.facts ensures Stamp(f, Target(Close)).None? { assert Stamp(f, Target(Open60)).Some?; }
      }
    }
  }

  /** What a mode inherits lies within its scope, and its window within its stage's. */
  lemma Inherited(cfg: Config, snaps: Snapshots, mode: Mode)
    requires cfg.WellFormed() && AllConsistent(cfg, snaps)
    ensures forall r :: r in Load(snaps, Prior(mode)).refs ==> r.symbol in cfg.Universe(StageOf(mode)) && r.facts != []
    ensures !StageOf(mode).Close? ==>
              forall r, f :: r in Load(snaps, Prior(mode)).refs && f in r.facts ==> Stamp(f, Target(StageOf(mode))).Some?
    ensures Load(snaps, Prior(mode)).missing <= Names(cfg.Universe(StageOf(mode)))
    ensures Target(StageOf(mode)).start <= Increment(mode).start < Increment(mode).end <= Target(StageOf(mode)).end
  {
    var stage := Prior(mode);
    if stage.Some? && stage.value in snaps {
      var snap := snaps[stage.value];
      assert Consistent(cfg, stage.value, snap);
      forall r | r in snap.refs ensures r.symbol in cfg.Universe(StageOf(mode)) && r.facts != [] {
        assert r.symbol in Names(cfg.Universe(stage.value));
        assert forall s :: s in cfg.open ==> s in Names(cfg.open);
      }
      if !StageOf(mode).Close? {
        forall r, f | r in snap.refs && f in r.facts ensures Stamp(f, Target(StageOf(mode))).Some? {
          assert Stamp(f, Target(stage.value)).Some?;
        }
      }
    }
  }

  /** Consistency survives every run of every mode. */
  lemma AdvanceConsistent(cfg: Config, snaps: Snapshots, mode: Mode, feed: Feed)
    requires cfg.WellFormed() && AllConsistent(cfg, snaps)
    ensures AllConsistent(cfg, Advance(cfg, snaps, mode, feed))
  {
    var asked, w, stage := Asked(cfg, snaps, mode), Increment(mode), StageOf(mode);
    var refs := NewRefs(asked, feed, w, cfg.Sparse(mode));
    var prior := Load(snaps, Prior(mode)).refs;
    Inherited(cfg, snaps, mode);
    NewRefsMeaning(asked, feed, w, cfg.Sparse(mode));
    UnseenMeaning(cfg.close, Evidence(Load(snaps, Some(Close)).refs, Target(Close)));
    if refs != [] {
      var snap := Snapshot(prior + refs, Names(cfg.Universe(stage)) - Evidence(prior + refs, Target(stage)));
      assert forall s :: s in asked ==> s in Names(asked);
      forall r: Ref | r in prior + refs ensures r.symbol in cfg.Universe(stage) && r.facts != [] {
        if r in refs { assert r.symbol in Names(asked) && r.symbol in Names(cfg.Universe(stage)); }
      }
      if !stage.Close? {
        forall r: Ref, f | r in prior + refs && f in r.facts ensures Stamp(f, Target(stage)).Some? {
          if r in refs { assert Stamp(f, w).Some?; }
        }
      }
      assert Consistent(cfg, stage, snap);
    }
  }

  /** The missing set each branch of `collect_regular_window` computes. */
  method SnapshotMissing(cfg: Config, mode: Mode, prior: Snapshot, priorFacts: map<string, seq<Fact>>,
                         stageFacts: map<string, seq<Fact>>, missing: set<string>, successful: set<string>)
    returns (r: Result<set<string>, ContractError>)
    ensures mode in {M30, M60} ==>
              var hint := if prior == Snapshot([], {}) then Names(cfg.open) else prior.missing;
              && (r.Ok? <==> hint <= Names(cfg.open) && hint !! priorFacts.Keys)
              && (r.Ok? ==> r.value == Names(cfg.open) - stageFacts.Keys)
    ensures mode.Retries() ==> r == Ok((prior.missing - successful) + missing)
    ensures mode in {M15, MClose} ==> r == Ok(missing)
  {
    if mode in {M30, M60} {
      var hint := if prior == Snapshot([], {}) then Names(cfg.open) else prior.missing;
      if !(hint <= Names(cfg.open)) { return Fail(PriorOutsideScope); }
      var qualified := set s | s in cfg.open && s in priorFacts;
      if hint * qualified != {} {
        var s :| s in hint * qualified;
        assert s in hint && s in priorFacts;
        return Fail(PriorMarksQualified);
      }
      assert forall s :: s in hint && s in priorFacts ==> s in hint * qualified;
      return Ok(set s | s in cfg.open && s !in stageFacts);
    } else if mode.Retries() {
      return Ok((prior.missing - successful) + missing);
    } else {
      return Ok(missing);
    }
  }

  /** Every branch computes what the snapshot should say. */
  lemma MissingIsExact(cfg: Config, snaps: Snapshots, mode: Mode, feed: Feed, refs: seq<Ref>,
                       priorFacts: map<string, seq<Fact>>, stageFacts: map<string, seq<Fact>>)
    requires cfg.WellFormed() && AllConsistent(cfg, snaps)
    requires refs == NewRefs(Asked(cfg, snaps, mode), feed, Increment(mode), cfg.Sparse(mode))
    requires Tracks(priorFacts, Load(snaps, Prior(mode)).refs) && Tracks(stageFacts, Load(snaps, Prior(mode)).refs + refs)
    ensures var prior := Load(snaps, Prior(mode));
            var scope := Names(cfg.Universe(StageOf(mode)));
            var exact := scope - Evidence(prior.refs + refs, Target(StageOf(mode)));
            var answered := Answered(Asked(cfg, snaps, mode), feed, Increment(mode));
            && (mode in {M30, M60} ==> exact == scope - stageFacts.Keys)
            && (mode in {M30, M60} && prior != Snapshot([], {}) ==> prior.missing !! priorFacts.Keys)
            && (mode in {M30, M60} && prior == Snapshot([], {}) ==> priorFacts.Keys == {})
            && (mode.Retries() ==> exact == (prior.missing - answered) + (Names(Asked(cfg, snaps, mode)) - answered))
            && (mode in {M15, MClose} ==> exact == scope - answered)
  {
    var prior := Load(snaps, Prior(mode));
    var asked := Asked(cfg, snaps, mode);
    var target := Target(StageOf(mode));
    Inherited(cfg, snaps, mode);
    EvidenceGrows(prior.refs, asked, feed, Increment(mode), cfg.Sparse(mode), target);
    NewRefsMeaning(asked, feed, Increment(mode), cfg.Sparse(mode));
    if mode in {M30, M60} {
      AnyFactIsEvidence(priorFacts, prior.refs, target);
      AnyFactIsEvidence(stageFacts, prior.refs + refs, target);
      PriorMissing(cfg, snaps, mode);
    } else if mode.Retries() {
      UnseenMeaning(cfg.close, Evidence(prior.refs, target));
    } else if mode == MClose {
      OpenIsNotClose(cfg, snaps);
    }
  }

  /** An Open stage inherits a missing set disjoint from the evidence it inherits. */
  lemma PriorMissing(cfg: Config, snaps: Snapshots, mode: Mode)
    requires mode in {M30, M60} && cfg.WellFormed() && AllConsistent(cfg, snaps)
    ensures Load(snaps, Prior(mode)).missing !! Evidence(Load(snaps, Prior(mode)).refs, Target(StageOf(mode)))
  {}

  /** The capture loop: one capture per selected symbol. */
  method Capture(universe: seq<string>, selected: map<string, Choice>, ghost feed: Feed, ghost w: Window, ghost sparse: bool)
    returns (refs: seq<Ref>, missing: set<string>, successful: set<string>)
    requires w.start < w.end
    requires forall s :: s in selected <==> s in universe && Chosen(feed, s, w, sparse).Some?
    requires forall s :: s in selected ==> selected[s] == Chosen(feed, s, w, sparse).value
    ensures refs == NewRefs(universe, feed, w, sparse)
    ensures successful == Answered(universe, feed, w) && missing == Names(universe) - successful
  {
    hide *;
    refs, missing, successful := [], {}, {};
    NewRefsNone(feed, w, sparse);
    assert universe[..0] == [];
    for i := 0 to |universe|
      invariant refs == NewRefs(universe[..i], feed, w, sparse)
      invariant forall s :: s in successful <==> s in universe[..i] && s in selected
      invariant forall s :: s in missing <==> s in universe[..i] && s !in selected
    {
      var s := universe[i];
      assert universe[..i + 1] == universe[..i] + [s];
      NewRefsSnoc(universe[..i], s, feed, w, sparse);
      if s in selected {
        successful := successful + {s};
        refs := refs + [Ref(s, selected[s].provider, selected[s].facts)];
      } else {
        missing := missing + {s};
      }
    }
    assert universe[..|universe|] == universe;
    AnsweredIsChosen(universe, feed, w, sparse);
    AllNames(universe);
    assert forall s :: s in successful <==> s in Answered(universe, feed, w);
    assert forall s :: s in missing <==> s in Names(universe) - successful;
  }

  lemma NewRefsNone(feed: Feed, w: Window, sparse: bool)
    ensures NewRefs([], feed, w, sparse) == []
  {}

  lemma NewRefsSnoc(universe: seq<string>, s: string, feed: Feed, w: Window, sparse: bool)
    ensures var c := Chosen(feed, s, w, sparse);
            NewRefs(universe + [s], feed, w, sparse)
            == NewRefs(universe, feed, w, sparse) + if c.Some? then [Ref(s, c.value.provider, c.value.facts)] else []
  {}

  lemma AnsweredIsChosen(universe: seq<string>, feed: Feed, w: Window, sparse: bool)
    requires w.start < w.end
    ensures forall s :: s in Answered(universe, feed, w) <==> s in universe && Chosen(feed, s, w, sparse).Some?
  {}

  lemma AllNames(names: seq<string>)
    ensures forall s :: s in Names(names) <==> s in names
  {}

  // ---------- the run ----------

  datatype Report = Report(missing: set<string>, stage: Scope, increment: Scope, written: bool)

  /** What a coverage statement says of a scope, in terms of the captures behind it. */
  ghost predicate Covers(scope: Scope, requested: seq<string>, refs: seq<Ref>, w: Window) {
    && scope.requested == |requested| && scope.qualified == Names(requested) * Evidence(refs, w)
    && scope.missing == Names(requested) - Evidence(refs, w)
    && (forall s :: s in scope.full <==> s in scope.qualified && Full(Stamps(FactsOf(refs, s), w), w))
    && (forall s :: s in scope.terminal <==> s in scope.qualified && Terminal(Stamps(FactsOf(refs, s), w), w))
    && (scope.complete <==> forall s :: s in requested ==> s in scope.full && s in scope.terminal)
  }

  /** A symbol asked for once, whose primary answer is whole, ends with that answer captured, full and terminal. */
  lemma WholeAnswerCounts(universe: seq<string>, feed: Feed, w: Window, sparse: bool, s: string, scope: Scope)
    requires w.start % MINUTE == 0 && w.end % MINUTE == 0 && w.start < w.end && Unique(universe) && s in universe
    requires WholeAnswer(feed.nasdaq(s), w) && Covers(scope, universe, NewRefs(universe, feed, w, sparse), w)
    ensures Ref(s, Nasdaq, feed.Primary(s, w)) in NewRefs(universe, feed, w, sparse)
    ensures s in scope.full && s in scope.terminal
  {
    var refs, facts := NewRefs(universe, feed, w, sparse), feed.Primary(s, w);
    WholeAnswerIsFull(feed, s, w, sparse);
    OwnFacts(universe, feed, w, sparse, s);
    ChosenMeaning(feed, s, w, sparse);
    var r := Ref(s, Nasdaq, facts);
    assert facts != [] && facts[0] in facts && Stamp(facts[0], w).Some?;
    hide Full, Terminal, WholeAnswer, NewRefs, Chosen;
    assert Seen(r, w) && s in Evidence(refs, w);
  }

  /** The facts captured for a symbol are those selected for it. */
  lemma {:induction false} OwnFacts(universe: seq<string>, feed: Feed, w: Window, sparse: bool, s: string)
    requires Unique(universe) && s in universe
    ensures var c := Chosen(feed, s, w, sparse); var refs := NewRefs(universe, feed, w, sparse);
            && FactsOf(refs, s) == (if c.Some? then c.value.facts else [])
            && (c.Some? ==> Ref(s, c.value.provider, c.value.facts) in refs)
    decreases |universe|
  {
    var init, last := universe[..|universe| - 1], universe[|universe| - 1];
    var c := Chosen(feed, last, w, sparse);
    var mine := if c.Some? then [Ref(last, c.value.provider, c.value.facts)] else [];
    assert NewRefs(universe, feed, w, sparse) == NewRefs(init, feed, w, sparse) + mine;
    LastApart(universe);
    hide *;
    FactsOfJoin(NewRefs(init, feed, w, sparse), mine, s);
    FactsOfOne(mine, s);
    if s == last {
      NotAsked(init, feed, w, sparse, s);
    } else {
      OwnFacts(init, feed, w, sparse, s);
    }
  }

  lemma LastApart(names: seq<string>)
    requires Unique(names) && names != []
    ensures var init, last := names[..|names| - 1], names[|names| - 1];
            Unique(init) && last !in init && names == init + [last]
  {}

  lemma FactsOfOne(refs: seq<Ref>, s: string)
    requires |refs| <= 1
    ensures FactsOf(refs, s) == if refs != [] && refs[0].symbol == s then refs[0].facts else []
  {
    if refs != [] { assert refs[..0] == []; }
  }

  lemma {:induction false} NotAsked(universe: seq<string>, feed: Feed, w: Window, sparse: bool, s: string)
    requires s !in universe
    ensures FactsOf(NewRefs(universe, feed, w, sparse), s) == []
    decreases |universe|
  {
    if universe != [] {
      var init, last := universe[..|universe| - 1], universe[|universe| - 1];
      NotAsked(init, feed, w, sparse, s);
      var refs := NewRefs(universe, feed, w, sparse);
      assert refs != NewRefs(init, feed, w, sparse) ==> refs[..|refs| - 1] == NewRefs(init, feed, w, sparse);
    }
  }

  class SnapshotStore {
    const cfg: Config
    var snaps: Snapshots

    ghost predicate Valid()
      reads this
    {
      cfg.WellFormed() && AllConsistent(cfg, snaps)
    }

    constructor (cfg: Config)
      requires cfg.WellFormed()
      ensures Valid() && snaps == map[] && this.cfg == cfg
    {
      this.cfg, snaps := cfg, map[];
    }

    /** `_live_close_retry_symbols`. */
    method RetrySymbols() returns (r: Result<seq<string>, ContractError>)
      requires Valid()
      ensures r == Ok(Asked(cfg, snaps, CloseRetry))
    {
      var prior := Load(snaps, Some(Close));
      Inherited(cfg, snaps, CloseRetry);
      if !(prior.missing <= Names(cfg.close)) { return Fail(PriorOutsideScope); }
      var facts := CaptureFacts(map[], [], prior.refs);
      assert [] + prior.refs == prior.refs;
      QualifiedIsEvidence(cfg.close, facts, prior.refs, Target(Close));
      var qualified := QualifiedIn(cfg.close, facts, Target(Close));
      assert qualified == Evidence(prior.refs, Target(Close));
      if prior.missing * qualified != {} { return Fail(PriorMarksQualified); }
      return Ok(Unseen(cfg.close, qualified));
    }

    /** `collect_regular_window` as its callers use it. Coverage never reports a
        disagreement, and the published snapshots move exactly as `Advance` says. */
    method Collect(mode: Mode, feed: Feed) returns (r: Result<Report, ContractError>)
      requires Valid()
      modifies this
      ensures Valid() && snaps == Advance(cfg, old(snaps), mode, feed)
      ensures r.Ok? && r.value.stage.missing == r.value.missing
      ensures r.value.stage.qualified == Names(cfg.Universe(StageOf(mode))) - r.value.missing
      ensures r.value.written ==> StageOf(mode) in snaps && snaps[StageOf(mode)].missing == r.value.missing
      ensures r.value.increment.qualified == Answered(Asked(cfg, old(snaps), mode), feed, Increment(mode))
      // what coverage says, of the increment and of the stage
      ensures var asked, w := Asked(cfg, old(snaps), mode), Increment(mode);
              var refs := NewRefs(asked, feed, w, cfg.Sparse(mode));
              && Covers(r.value.increment, asked, refs, w)
              && Covers(r.value.stage, cfg.Universe(StageOf(mode)), Load(old(snaps), Prior(mode)).refs + refs,
                        Target(StageOf(mode)))
      // whoever is asked for and has a whole primary answer ends with it captured, full and terminal
      ensures forall s :: s in Asked(cfg, old(snaps), mode) && WholeAnswer(feed.nasdaq(s), Increment(mode)) ==>
                && s in r.value.increment.full && s in r.value.increment.terminal
                && StageOf(mode) in snaps && Ref(s, Nasdaq, feed.Primary(s, Increment(mode))) in snaps[StageOf(mode)].refs
      // what was captured before stays, and which of two answers is captured
      ensures r.value.written ==> StageOf(mode) in snaps && Inherits(mode, old(snaps), snaps[StageOf(mode)].refs)
      ensures Elected(cfg, mode, feed, Asked(cfg, old(snaps), mode), Load(snaps, Some(StageOf(mode))).refs)
    {
      hide Asked, NewRefs, Evidence, Advance, Covers, WholeAnswer, Answered, AllConsistent, Consistent, Increment, Target,
           Unique, Elected;
      var stage, w := StageOf(mode), Increment(mode);
      var scope := cfg.Universe(stage);
      var universe := scope;
      if mode.Retries() {
        var symbols := RetrySymbols();
        universe := symbols.value;
      }
      Inherited(cfg, snaps, mode);
      AdvanceConsistent(cfg, snaps, mode, feed);
      AskedMeaning(cfg, snaps, mode);
      var prior := Load(snaps, Prior(mode));
      ghost var was, asked := snaps, Asked(cfg, snaps, mode);
      AdvanceIs(cfg, was, mode, feed);
      WindowShape(mode);
      assert universe == asked;
      var refs, missing, successful, exact;
      refs, missing, successful, r, exact := Measure(mode, feed, universe, prior);
      forall s | s in asked && WholeAnswer(feed.nasdaq(s), w)
        ensures s in r.value.increment.full && s in r.value.increment.terminal && Ref(s, Nasdaq, feed.Primary(s, w)) in refs {
        WholeAnswerCounts(asked, feed, w, cfg.Sparse(mode), s, r.value.increment);
      }
      NewRefsElected(cfg, mode, feed, asked);
      if refs == [] {
        ElectedMore(cfg, mode, feed, asked, refs, Load(snaps, Some(stage)).refs);
        assert Load(snaps, Some(stage)).refs + refs == Load(snaps, Some(stage)).refs;
        return;
      }
      ElectedMore(cfg, mode, feed, asked, refs, prior.refs);
      snaps := snaps[stage := Snapshot(prior.refs + refs, exact)];
      r := Ok(r.value.(written := true));
    }

    /** Fetch, capture, and the two coverage statements. */
    method Measure(mode: Mode, feed: Feed, universe: seq<string>, prior: Snapshot)
      returns (refs: seq<Ref>, missing: set<string>, successful: set<string>, r: Result<Report, ContractError>,
               exact: set<string>)
      requires Valid() && prior == Load(snaps, Prior(mode)) && universe == Asked(cfg, snaps, mode)
      requires Unique(universe) && Names(universe) <= Names(cfg.Universe(StageOf(mode)))
      ensures refs == NewRefs(universe, feed, Increment(mode), cfg.Sparse(mode))
      ensures exact == Names(cfg.Universe(StageOf(mode))) - Evidence(prior.refs + refs, Target(StageOf(mode)))
      ensures r.Ok? && r.value.stage.missing == r.value.missing == exact && !r.value.written
      ensures r.value.stage.qualified == Names(cfg.Universe(StageOf(mode))) - exact
      ensures r.value.increment.qualified == Answered(universe, feed, Increment(mode))
      ensures Covers(r.value.increment, universe, refs, Increment(mode))
      ensures Covers(r.value.stage, cfg.Universe(StageOf(mode)), prior.refs + refs, Target(StageOf(mode)))
    {
      var stage, w := StageOf(mode), Increment(mode);
      var scope := cfg.Universe(stage);
      Inherited(cfg, snaps, mode);
      assert w.start < w.end && Unique(scope) && Target(stage).start < Target(stage).end;
      assert forall s :: s in Names(universe) <==> s in universe;
      assert forall s :: s in Names(scope) <==> s in scope;
      hide *;
      var selected := SelectFacts(universe, feed, w, cfg.Sparse(mode));
      refs, missing, successful := Capture(universe, selected, feed, w, cfg.Sparse(mode));
      NewRefsMeaning(universe, feed, w, cfg.Sparse(mode));
      assert forall x :: x in refs ==> x.symbol in universe;
      var priorFacts := CaptureFacts(map[], [], prior.refs);
      assert [] + prior.refs == prior.refs;
      var stageFacts := CaptureFacts(priorFacts, prior.refs, refs);
      MissingIsExact(cfg, snaps, mode, feed, refs, priorFacts, stageFacts);
      var all := prior.refs + refs;
      var computed := SnapshotMissing(cfg, mode, prior, priorFacts, stageFacts, missing, successful);
      exact := Names(scope) - Evidence(all, Target(stage));
      assert computed == Ok(exact);
      r := Cover(mode, feed, universe, scope, refs, all, missing, stageFacts, exact);
    }

    method Cover(mode: Mode, ghost feed: Feed, universe: seq<string>, scope: seq<string>, refs: seq<Ref>, all: seq<Ref>,
                 missing: set<string>, stageFacts: map<string, seq<Fact>>, exact: set<string>)
      returns (r: Result<Report, ContractError>)
      requires Unique(universe) && Unique(scope) && Increment(mode).start < Increment(mode).end
      requires Target(StageOf(mode)).start < Target(StageOf(mode)).end
      requires refs == NewRefs(universe, feed, Increment(mode), cfg.Sparse(mode))
      requires missing == Names(universe) - Answered(universe, feed, Increment(mode))
      requires Tracks(stageFacts, all) && forall x :: x in all ==> x.symbol in scope
      requires exact == Names(scope) - Evidence(all, Target(StageOf(mode)))
      ensures r.Ok? && r.value.stage.missing == r.value.missing == exact && !r.value.written
      ensures r.value.stage.qualified == Names(scope) - exact
      ensures r.value.increment.qualified == Answered(universe, feed, Increment(mode))
      ensures Covers(r.value.increment, universe, refs, Increment(mode))
      ensures Covers(r.value.stage, scope, all, Target(StageOf(mode)))
    {
      var w, target := Increment(mode), Target(StageOf(mode));
      hide *;
      NothingYet(universe, feed, w);
      NewRefsMeaning(universe, feed, w, cfg.Sparse(mode));
      EvidenceGrows([], universe, feed, w, cfg.Sparse(mode), w);
      assert [] + refs == refs;
      var newFacts := CaptureFacts(map[], [], refs);
      QualifiedIsEvidence(universe, newFacts, refs, w);
      TrackedSymbols(newFacts, refs, universe);
      var increment := ScopeCoverage(universe, newFacts, missing, w);
      QualifiedIsEvidence(scope, stageFacts, all, target);
      TrackedSymbols(stageFacts, all, scope);
      var whole := ScopeCoverage(scope, stageFacts, exact, target);
      ScopeCovers(increment.value, universe, newFacts, refs, w);
      ScopeCovers(whole.value, scope, stageFacts, all, target);
      return Ok(Report(exact, whole.value, increment.value, false));
    }
  }

  /** Whom a run asks: each symbol of its scope at most once; all of them unless it is a retry. */
  lemma AskedMeaning(cfg: Config, snaps: Snapshots, mode: Mode)
    requires cfg.WellFormed()
    ensures var asked, scope := Asked(cfg, snaps, mode), cfg.Universe(StageOf(mode));
            && Unique(asked) && Unique(scope) && Names(asked) <= Names(scope)
            && (if mode.Retries() then asked == Asked(cfg, snaps, CloseRetry) else asked == scope)
  {
    UnseenMeaning(cfg.close, Evidence(Load(snaps, Some(Close)).refs, Target(Close)));
  }

  lemma AdvanceIs(cfg: Config, snaps: Snapshots, mode: Mode, feed: Feed)
    ensures var refs := NewRefs(Asked(cfg, snaps, mode), feed, Increment(mode), cfg.Sparse(mode));
            var stage := StageOf(mode);
            var all := Load(snaps, Prior(mode)).refs + refs;
            Advance(cfg, snaps, mode, feed)
            == if refs == [] then snaps
               else snaps[stage := Snapshot(all, Names(cfg.Universe(stage)) - Evidence(all, Target(stage)))]
  {}

  lemma WindowShape(mode: Mode)
    ensures var w, t := Increment(mode), Target(StageOf(mode));
            && w.start < w.end && w.start % MINUTE == 0 && w.end % MINUTE == 0 && t.start < t.end
  {}

  /** The stages of a day: the first quarter hour, half hour and hour after half past nine, and the
      last quarter hour before four, each reached by an increment that ends with its stage and
      begins where the stage before it ended. */
  lemma StageTimes(mode: Mode)
    ensures var w, t := Increment(mode), Target(StageOf(mode));
            && w.end == t.end
            && (match mode
                case M15 => t.start == 34_200_000_000 && t.end == t.start + 15 * MINUTE && w.start == t.start
                case M30 => t.start == 34_200_000_000 && t.end == t.start + 30 * MINUTE && w.start == Increment(M15).end
                case M60 => t.start == 34_200_000_000 && t.end == t.start + 60 * MINUTE && w.start == Increment(M30).end
                case _ => t.end == 57_600_000_000 && t.start == t.end - 15 * MINUTE && w.start == t.start)
  {}

  /** What a published snapshot carries over: the captures of the stage before, or, in a retry, of Close itself. */
  ghost predicate Inherits(mode: Mode, was: Snapshots, refs: seq<Ref>) {
    && (mode.M30? && Open15 in was ==> was[Open15].refs <= refs)
    && (mode.M60? && Open30 in was ==> was[Open30].refs <= refs)
    && (mode.MClose? && Open60 in was ==> was[Open60].refs <= refs)
    && ((mode.CloseRetry? || mode.CloseFinal?) && Close in was ==> was[Close].refs <= refs)
  }

  /** Which answer is captured: a primary one stands where a sparse one may not be replaced,
      and where it may, a full alternate answer takes the place of one that is not full. */
  ghost predicate Elected(cfg: Config, mode: Mode, feed: Feed, asked: seq<string>, refs: seq<Ref>) {
    var w, mayReplace := Increment(mode), cfg.fallback && !mode.CloseRetry? && !mode.CloseFinal?;
    forall s :: s in asked ==>
      var p, t := feed.Primary(s, w), feed.Alternate(s, w);
      && (!mayReplace && p != [] ==> Ref(s, Nasdaq, p) in refs)
      && (mayReplace && !FullWindow(p, w) && FullWindow(t, w) ==> Ref(s, Twelve, t) in refs)
  }

  lemma NewRefsElected(cfg: Config, mode: Mode, feed: Feed, asked: seq<string>)
    requires Unique(asked)
    ensures Elected(cfg, mode, feed, asked, NewRefs(asked, feed, Increment(mode), cfg.Sparse(mode)))
  {
    var w, sparse := Increment(mode), cfg.Sparse(mode);
    WindowShape(mode);
    hide FullWindow, NewRefs;
    forall s | s in asked
      ensures var p, t := feed.Primary(s, w), feed.Alternate(s, w);
              var refs := NewRefs(asked, feed, w, sparse);
              && (!sparse && p != [] ==> Ref(s, Nasdaq, p) in refs)
              && (sparse && !FullWindow(p, w) && FullWindow(t, w) ==> Ref(s, Twelve, t) in refs)
    {
      OwnFacts(asked, feed, w, sparse, s);
      if FullWindow(feed.Alternate(s, w), w) { FullIsSome(feed.Alternate(s, w), w); }
    }
  }

  lemma FullIsSome(facts: seq<Fact>, w: Window)
    requires w.end - w.start >= MINUTE && FullWindow(facts, w)
    ensures facts != []
  {}

  lemma ElectedMore(cfg: Config, mode: Mode, feed: Feed, asked: seq<string>, refs: seq<Ref>, had: seq<Ref>)
    requires Elected(cfg, mode, feed, asked, refs)
    ensures Elected(cfg, mode, feed, asked, had + refs)
  {
    assert forall r :: r in refs ==> r in had + refs;
    hide FullWindow;
  }

  lemma ScopeCovers(scope: Scope, requested: seq<string>, facts: map<string, seq<Fact>>, refs: seq<Ref>, w: Window)
    requires Tracks(facts, refs) && scope.requested == |requested|
    requires scope.qualified == QualifiedIn(requested, facts, w) == Names(requested) * Evidence(refs, w)
    requires scope.missing == Names(requested) - scope.qualified
    requires forall s :: s in scope.full <==> s in scope.qualified && Full(Stamps(facts[s], w), w)
    requires forall s :: s in scope.terminal <==> s in scope.qualified && Terminal(Stamps(facts[s], w), w)
    requires scope.complete <==> forall s :: s in requested ==> s in scope.full && s in scope.terminal
    ensures Covers(scope, requested, refs, w)
  {
    forall s | s in scope.qualified ensures s in facts && facts[s] == FactsOf(refs, s) {}
    hide Full, Terminal, Evidence, Tracks, Stamps;
  }

  lemma NothingYet(universe: seq<string>, feed: Feed, w: Window)
    ensures Tracks(map[], []) && Evidence([], w) == {} && Answered(universe, feed, w) <= Names(universe)
  {}

  // ---------- whole runs ----------

  datatype Step = Step(mode: Mode, feed: Feed)

  ghost function Play(cfg: Config, snaps: Snapshots, script: seq<Step>): Snapshots {
    if script == [] then snaps
    else
      var last := script[|script| - 1];
      Advance(cfg, Play(cfg, snaps, script[..|script| - 1]), last.mode, last.feed)
  }

  /** Over every run of a trading day, in any order and with any provider answers,
      every published missing set is exact. */
  lemma {:induction false} RunsStayConsistent(cfg: Config, script: seq<Step>)
    requires cfg.WellFormed()
    ensures AllConsistent(cfg, Play(cfg, map[], script))
  {
    if script != [] {
      var init, last := script[..|script| - 1], script[|script| - 1];
      RunsStayConsistent(cfg, init);
      AdvanceConsistent(cfg, Play(cfg, map[], init), last.mode, last.feed);
    }
  }

  /** One Close retry: it keeps every capture and removes from the missing set exactly
      the symbols it now has an answer for. */
  lemma RetryRemovesAnswered(cfg: Config, snaps: Snapshots, mode: Mode, feed: Feed)
    requires cfg.WellFormed() && AllConsistent(cfg, snaps) && mode.Retries() && Close in snaps
    ensures var after := Advance(cfg, snaps, mode, feed);
            && Close in after && snaps[Close].refs <= after[Close].refs
            && after[Close].missing == snaps[Close].missing - Answered(Asked(cfg, snaps, mode), feed, Increment(mode))
            && Names(Asked(cfg, snaps, mode)) == snaps[Close].missing
  {
    var asked, w := Asked(cfg, snaps, mode), Increment(mode);
    var had := snaps[Close].refs;
    assert Consistent(cfg, Close, snaps[Close]);
    UnseenMeaning(cfg.close, Evidence(had, Target(Close)));
    EvidenceGrows(had, asked, feed, w, cfg.Sparse(mode), Target(Close));
    NewRefsMeaning(asked, feed, w, cfg.Sparse(mode));
  }

  /** Close retries never enlarge the missing set and never drop a capture. */
  lemma {:induction false} RetriesNeverEnlarge(cfg: Config, snaps: Snapshots, script: seq<Step>)
    requires cfg.WellFormed() && AllConsistent(cfg, snaps) && Close in snaps
    requires forall step :: step in script ==> step.mode.Retries()
    ensures var after := Play(cfg, snaps, script);
            && AllConsistent(cfg, after) && Close in after
            && snaps[Close].refs <= after[Close].refs && after[Close].missing <= snaps[Close].missing
  {
    if script != [] {
      var init, last := script[..|script| - 1], script[|script| - 1];
      RetriesNeverEnlarge(cfg, snaps, init);
      var before := Play(cfg, snaps, init);
      AdvanceConsistent(cfg, before, last.mode, last.feed);
      RetryRemovesAnswered(cfg, before, last.mode, last.feed);
    }
  }

  lemma {:induction false} FactsOfJoin(a: seq<Ref>, b: seq<Ref>, s: string)
    ensures FactsOf(a + b, s) == FactsOf(a, s) + FactsOf(b, s)
  {
    if b == [] {
      assert a + b == a;
    } else {
      assert (a + b)[..|a + b| - 1] == a + b[..|b| - 1];
      FactsOfJoin(a, b[..|b| - 1], s);
    }
  }

  lemma {:induction false} SameStamps(facts: seq<Fact>, narrow: Window, wide: Window)
    requires wide.start <= narrow.start && narrow.end <= wide.end && forall f :: f in facts ==> Stamp(f, narrow).Some?
    ensures Stamps(facts, wide) == Stamps(facts, narrow)
  {
    if facts != [] { SameStamps(facts[1..], narrow, wide); }
  }

  /** Through the whole chain: a symbol has a full 30- or 60-minute stage exactly when the
      inherited stage was full and so is the increment. */
  lemma StageFullOnlyByFullParts(cfg: Config, snaps: Snapshots, mode: Mode, feed: Feed, s: string)
    requires cfg.WellFormed() && AllConsistent(cfg, snaps) && mode in {M30, M60}
    ensures var had, added := Load(snaps, Prior(mode)).refs, NewRefs(cfg.open, feed, Increment(mode), cfg.Sparse(mode));
            var before, whole := Target(Prior(mode).value), Target(StageOf(mode));
            Full(Stamps(FactsOf(had + added, s), whole), whole)
            <==> Full(Stamps(FactsOf(had, s), before), before)
                 && Full(Stamps(FactsOf(added, s), Increment(mode)), Increment(mode))
  {
    var had, added := Load(snaps, Prior(mode)).refs, NewRefs(cfg.open, feed, Increment(mode), cfg.Sparse(mode));
    var before, whole, w := Target(Prior(mode).value), Target(StageOf(mode)), Increment(mode);
    NewRefsMeaning(cfg.open, feed, w, cfg.Sparse(mode));
    if Prior(mode).value in snaps { assert Consistent(cfg, Prior(mode).value, snaps[Prior(mode).value]); }
    assert whole == Window(before.start, w.end) && before.end == w.start;
    assert before.start % MINUTE == 0 && before.end % MINUTE == 0 && before.start <= before.end <= w.end;
    assert forall r, f :: r in had && f in r.facts ==> Stamp(f, before).Some?;
    assert forall r, f :: r in added && f in r.facts ==> Stamp(f, w).Some?;
    hide *;
    FullByRefs(had, added, s, before, w, whole);
  }

  lemma FullByRefs(had: seq<Ref>, added: seq<Ref>, s: string, before: Window, w: Window, whole: Window)
    requires whole == Window(before.start, w.end) && before.end == w.start
    requires before.start % MINUTE == 0 && before.end % MINUTE == 0 && before.start <= before.end <= w.end
    requires forall r, f :: r in had && f in r.facts ==> Stamp(f, before).Some?
    requires forall r, f :: r in added && f in r.facts ==> Stamp(f, w).Some?
    ensures Full(Stamps(FactsOf(had + added, s), whole), whole)
            <==> Full(Stamps(FactsOf(had, s), before), before) && Full(Stamps(FactsOf(added, s), w), w)
  {
    hide *;
    FactsOfJoin(had, added, s);
    FactsOfMeaning(had, s);
    FactsOfMeaning(added, s);
    var a, b := FactsOf(had, s), FactsOf(added, s);
    SameStamps(a, before, whole);
    SameStamps(b, w, whole);
    StampsJoin(a, b, whole);
    StampsWithin(a, before);
    StampsWithin(b, w);
    StageFullByParts(Stamps(a, before), Stamps(b, w), before.start, before.end, w.end);
  }

  // ---------- one capture per symbol ----------

  /** No two captures with in-window facts are of the same symbol. */
  ghost predicate SingleSource(refs: seq<Ref>, w: Window) {
    forall i, j :: 0 <= i < j < |refs| && Seen(refs[i], w) && Seen(refs[j], w) ==> refs[i].symbol != refs[j].symbol
  }

  ghost predicate DistinctSymbols(refs: seq<Ref>) {
    forall i, j :: 0 <= i < j < |refs| ==> refs[i].symbol != refs[j].symbol
  }

  ghost predicate CloseSingle(snaps: Snapshots) { Close in snaps ==> SingleSource(snaps[Close].refs, Target(Close)) }

  lemma {:induction false} NewRefsDistinct(universe: seq<string>, feed: Feed, w: Window, sparse: bool)
    requires w.start < w.end && Unique(universe)
    ensures DistinctSymbols(NewRefs(universe, feed, w, sparse))
  {
    if universe != [] {
      var init, s := universe[..|universe| - 1], universe[|universe| - 1];
      assert universe == init + [s] && forall x :: x in init ==> x != s;
      hide NewRefs, Chosen;
      NewRefsDistinct(init, feed, w, sparse);
      NewRefsMeaning(init, feed, w, sparse);
      NewRefsSnoc(init, s, feed, w, sparse);
      var c := Chosen(feed, s, w, sparse);
      if c.Some? { SnocDistinct(NewRefs(init, feed, w, sparse), Ref(s, c.value.provider, c.value.facts)); }
    }
  }

  lemma SnocDistinct(refs: seq<Ref>, last: Ref)
    requires DistinctSymbols(refs) && forall r :: r in refs ==> r.symbol != last.symbol
    ensures DistinctSymbols(refs + [last])
  {
    assert forall k :: 0 <= k < |refs| ==> refs[k] in refs;
  }

  lemma JoinSingle(had: seq<Ref>, added: seq<Ref>, w: Window)
    requires SingleSource(had, w) && DistinctSymbols(added)
    requires forall r :: r in added ==> r.symbol !in Evidence(had, w)
    ensures SingleSource(had + added, w)
  {
    var all := had + added;
    forall i, j | 0 <= i < j < |all| && Seen(all[i], w) && Seen(all[j], w) ensures all[i].symbol != all[j].symbol {
      if i < |had| <= j {
        assert all[i] in had && all[i].symbol in Evidence(had, w);
        assert all[j] == added[j - |had|] && added[j - |had|] in added;
      }
    }
  }

  lemma AdvanceSingle(cfg: Config, snaps: Snapshots, mode: Mode, feed: Feed)
    requires cfg.WellFormed() && AllConsistent(cfg, snaps) && CloseSingle(snaps)
    ensures CloseSingle(Advance(cfg, snaps, mode, feed))
  {
    var asked, w := Asked(cfg, snaps, mode), Increment(mode);
    var had, added := Load(snaps, Prior(mode)).refs, NewRefs(asked, feed, w, cfg.Sparse(mode));
    if StageOf(mode) == Close && added != [] {
      AskedUnseen(cfg, snaps, mode);
      NewRefsMeaning(asked, feed, w, cfg.Sparse(mode));
      NewRefsDistinct(asked, feed, w, cfg.Sparse(mode));
      hide NewRefs, Evidence, Seen;
      forall r | r in added ensures r.symbol !in Evidence(had, Target(Close)) {}
      JoinSingle(had, added, Target(Close));
    }
  }

  /** A Close run asks, each once, only for symbols without a capture in the Close window. */
  lemma AskedUnseen(cfg: Config, snaps: Snapshots, mode: Mode)
    requires cfg.WellFormed() && AllConsistent(cfg, snaps) && CloseSingle(snaps) && StageOf(mode) == Close
    ensures var had := Load(snaps, Prior(mode)).refs;
            && SingleSource(had, Target(Close)) && Unique(Asked(cfg, snaps, mode))
            && forall s :: s in Asked(cfg, snaps, mode) ==> s !in Evidence(had, Target(Close))
  {
    var had := Load(snaps, Prior(mode)).refs;
    UnseenMeaning(cfg.close, Evidence(Load(snaps, Some(Close)).refs, Target(Close)));
    forall s | s in Asked(cfg, snaps, mode) ensures s in Names(Asked(cfg, snaps, mode)) {}
    if mode == MClose {
      OpenIsNotClose(cfg, snaps);
      assert forall r :: r in had && Seen(r, Target(Close)) ==> r.symbol in Evidence(had, Target(Close));
    }
  }

  /** In every run of a day each symbol's Close-window facts come from one capture: a retry
      never asks again for a symbol that has one. */
  lemma {:induction false} CloseFactsFromOneCapture(cfg: Config, script: seq<Step>)
    requires cfg.WellFormed()
    ensures CloseSingle(Play(cfg, map[], script))
  {
    if script != [] {
      var init, last := script[..|script| - 1], script[|script| - 1];
      CloseFactsFromOneCapture(cfg, init);
      RunsStayConsistent(cfg, init);
      AdvanceSingle(cfg, Play(cfg, map[], init), last.mode, last.feed);
    }
  }
}
