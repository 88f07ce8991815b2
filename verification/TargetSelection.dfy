/** Which observation of a symbol a metric proof uses, and whether the order in which
    captures and facts are read can change the answer. */
module TargetSelection {
  import opened Bars
  import opened Text

  datatype Field = LastSale | Close

  datatype Candidate = Candidate(path: string, blob: string, event: string, field: Field, semantics: string, price: real)

  /** A qualified observation in the stage's window; `at` is its instant. */
  datatype Observation = Observation(symbol: string, at: int, candidate: Candidate)

  datatype SelectionError = Ambiguous

  type Observations = seq<Observation>

  ghost predicate Permuted(a: Observations, b: Observations) { multiset(a) == multiset(b) }

  lemma PermutedMembers(a: Observations, b: Observations)
    requires Permuted(a, b)
    ensures forall o :: o in a <==> o in b
  {
    forall o ensures o in a <==> o in b {
      assert o in multiset(a) <==> o in multiset(b);
    }
  }

  function Symbols(obs: Observations): set<string> { set o | o in obs :: o.symbol }

  /** `o` is as late as any observation of its symbol. */
  predicate Latest(obs: Observations, o: Observation) {
    o in obs && forall x :: x in obs && x.symbol == o.symbol ==> x.at <= o.at
  }

  // ---------- the order of candidates ----------

  /** The tie-break key: capture path, then blob, then event time. */
  predicate AtMost(a: Candidate, b: Candidate) {
    if a.path != b.path then StringAtMost(a.path, b.path)
    else if a.blob != b.blob then StringAtMost(a.blob, b.blob)
    else StringAtMost(a.event, b.event)
  }

  lemma CandidateOrder(a: Candidate, b: Candidate, c: Candidate)
    ensures AtMost(a, a)
    ensures AtMost(a, b) || AtMost(b, a)
    ensures AtMost(a, b) && AtMost(b, a) ==> a.path == b.path && a.blob == b.blob && a.event == b.event
    ensures AtMost(a, b) && AtMost(b, c) ==> AtMost(a, c)
  {
    StringOrder(a.path, b.path, c.path);
    StringOrder(a.blob, b.blob, c.blob);
    StringOrder(a.event, b.event, c.event);
    StringOrder(b.path, a.path, a.path);
    StringOrder(b.path, c.path, a.path);
    StringOrder(c.path, b.path, a.path);
    StringOrder(b.blob, c.blob, a.blob);
    StringOrder(c.blob, b.blob, a.blob);
  }

  // ---------- Open stages ----------

  /** Two facts of one instant that contradict each other. */
  predicate Contradict(a: Observation, b: Observation) {
    && a.symbol == b.symbol && a.at == b.at
    && (a.candidate.field != b.candidate.field || a.candidate.semantics != b.candidate.semantics
        || a.candidate.price != b.candidate.price)
  }

  /** Some symbol has two facts of one instant that differ in field, meaning or price. */
  ghost predicate Contradictory(obs: Observations) {
    exists a, b ::
      && a in obs && b in obs && a.symbol == b.symbol && a.at == b.at
      && !(a.candidate.field == b.candidate.field && a.candidate.semantics == b.candidate.semantics
           && a.candidate.price == b.candidate.price)
  }

  /** The latest observation of the symbol, smallest key first among equals. */
  ghost predicate Selected(obs: Observations, symbol: string, c: Candidate) {
    exists o :: Latest(obs, o) && o.symbol == symbol && o.candidate == c
                && forall x :: Latest(obs, x) && x.symbol == symbol ==> AtMost(c, x.candidate)
  }

  ghost predicate OpenOutcome(obs: Observations, r: Result<map<string, Candidate>, SelectionError>) {
    match r
    case Fail(_) => Contradictory(obs)
    case Ok(targets) =>
      !Contradictory(obs) && targets.Keys == Symbols(obs) && forall s :: s in targets ==> Selected(obs, s, targets[s])
  }

  /** Open stages do not depend on order: on any reordering of captures and facts the
      outcome, a choice for every symbol or the ambiguity error, is the same. */
  lemma OpenOrderFree(a: Observations, b: Observations, x: Result<map<string, Candidate>, SelectionError>,
                      y: Result<map<string, Candidate>, SelectionError>)
    requires Permuted(a, b) && OpenOutcome(a, x) && OpenOutcome(b, y)
    ensures x == y
  {
    PermutedMembers(a, b);
    SameMembers(a, b);
    if x.Ok? && y.Ok? { SameTargets(a, b, x.value, y.value); }
    if x.Fail? { assert x.error.Ambiguous? && y.error.Ambiguous?; }
  }

  /** An outcome of one order is an outcome of every other. */
  lemma OpenOutcomePermuted(a: Observations, b: Observations, x: Result<map<string, Candidate>, SelectionError>)
    requires Permuted(a, b) && OpenOutcome(a, x)
    ensures OpenOutcome(b, x)
  {
    PermutedMembers(a, b);
    SameMembers(a, b);
    assert forall o :: Latest(a, o) <==> Latest(b, o);
    hide Latest, AtMost, Contradictory, Symbols;
  }

  lemma SameMembers(a: Observations, b: Observations)
    requires forall o :: o in a <==> o in b
    ensures Symbols(a) == Symbols(b) && (Contradictory(a) <==> Contradictory(b))
  {}

  lemma SameTargets(a: Observations, b: Observations, x: map<string, Candidate>, y: map<string, Candidate>)
    requires (forall o :: o in a <==> o in b) && !Contradictory(a) && x.Keys == y.Keys
    requires (forall s :: s in x ==> Selected(a, s, x[s])) && forall s :: s in y ==> Selected(b, s, y[s])
    ensures x == y
  {
    forall s | s in x ensures x[s] == y[s] {
      SelectedOnce(a, b, s, x[s], y[s]);
    }
  }

  lemma SelectedOnce(a: Observations, b: Observations, s: string, c: Candidate, d: Candidate)
    requires forall o :: o in a <==> o in b
    requires !Contradictory(a) && Selected(a, s, c) && Selected(b, s, d)
    ensures c == d
  {
    assert forall o :: Latest(a, o) <==> Latest(b, o);
    hide AtMost, StringAtMost;
    var o :| Latest(a, o) && o.symbol == s && o.candidate == c
             && forall z :: Latest(a, z) && z.symbol == s ==> AtMost(c, z.candidate);
    var p :| Latest(b, p) && p.symbol == s && p.candidate == d
             && forall z :: Latest(b, z) && z.symbol == s ==> AtMost(d, z.candidate);
    assert Latest(a, p) && Latest(b, o);
    CandidateOrder(c, d, d);
    assert !Contradict(o, p);
  }

  /** The grouping loop. */
  method GroupBySymbol(obs: Observations) returns (groups: map<string, Observations>)
    ensures groups.Keys == Symbols(obs)
    ensures forall s, o :: s in groups ==> (o in groups[s] <==> o in obs && o.symbol == s)
    ensures forall s :: s in groups ==> groups[s] != []
  {
    groups := map[];
    for i := 0 to |obs|
      invariant groups.Keys == Symbols(obs[..i])
      invariant forall s, o :: s in groups ==> (o in groups[s] <==> o in obs[..i] && o.symbol == s)
      invariant forall s :: s in groups ==> groups[s] != []
    {
      var o := obs[i];
      assert obs[..i + 1] == obs[..i] + [o];
      groups := groups[o.symbol := (if o.symbol in groups then groups[o.symbol] else []) + [o]];
    }
    assert obs[..|obs|] == obs;
  }

  /** Check one symbol's instants and pick its target. */
  method PickOpen(group: Observations) returns (r: Result<Candidate, SelectionError>)
    requires group != [] && forall o :: o in group ==> o.symbol == group[0].symbol
    ensures r.Fail? <==> Contradictory(group)
    ensures r.Ok? ==> Selected(group, group[0].symbol, r.value)
  {
    // The first fact of every instant stands for it.
    var first: map<int, Observation> := map[];
    for i := 0 to |group|
      invariant forall t :: t in first ==> first[t] in group[..i] && first[t].at == t
      invariant forall o :: o in group[..i] ==> o.at in first && !Contradict(first[o.at], o)
    {
      var o := group[i];
      assert group[..i + 1] == group[..i] + [o];
      if o.at in first {
        if Contradict(first[o.at], o) {
          assert first[o.at] in group && o in group;
          return Fail(Ambiguous);
        }
      } else {
        first := first[o.at := o];
      }
    }
    assert group[..|group|] == group;
    assert !Contradictory(group) by {
      forall a, b | a in group && b in group ensures !Contradict(a, b) {
        assert !Contradict(first[a.at], a) && !Contradict(first[b.at], b);
      }
    }
    var best := group[0];
    BetterOrder(best, best);
    assert group[..1] == [best];
    for i := 1 to |group|
      invariant best in group[..i] && forall o :: o in group[..i] ==> Better(best, o)
    {
      var o := group[i];
      assert group[..i + 1] == group[..i] + [o];
      BetterOrder(best, o);
      if !Better(best, o) { best := o; }
    }
    assert group[..|group|] == group;
    return Ok(best.candidate);
  }

  /** Later, or as late with a key no larger. */
  predicate Better(a: Observation, b: Observation) { a.at > b.at || (a.at == b.at && AtMost(a.candidate, b.candidate)) }

  lemma BetterOrder(a: Observation, b: Observation)
    ensures Better(b, b) && (Better(a, b) || Better(b, a))
    ensures forall x :: Better(b, a) && Better(a, x) ==> Better(b, x)
  {
    CandidateOrder(b.candidate, b.candidate, b.candidate);
    CandidateOrder(a.candidate, b.candidate, b.candidate);
    forall x | Better(b, a) && Better(a, x) ensures Better(b, x) {
      CandidateOrder(b.candidate, a.candidate, x.candidate);
    }
  }

  /** The groups cover the observations, symbol by symbol. */
  ghost predicate Grouped(obs: Observations, groups: map<string, Observations>) {
    && groups.Keys == Symbols(obs)
    && forall s :: s in groups ==> groups[s] != [] && forall o :: o in groups[s] <==> o in obs && o.symbol == s
  }

  /** `_target_observations` for Open stages. */
  method OpenTargets(obs: Observations) returns (r: Result<map<string, Candidate>, SelectionError>)
    ensures OpenOutcome(obs, r)
  {
    var groups := GroupBySymbol(obs);
    assert Grouped(obs, groups);
    r := PickAll(obs, groups);
    GroupKeys(obs, groups);
    if r.Ok? { NoContradiction(obs, groups); }
  }

  /** The loop over the symbols. */
  method PickAll(obs: Observations, groups: map<string, Observations>)
    returns (r: Result<map<string, Candidate>, SelectionError>)
    requires Grouped(obs, groups)
    ensures r.Fail? ==> Contradictory(obs)
    ensures r.Ok? ==> r.value.Keys == groups.Keys
                      && forall s :: s in groups ==> Selected(obs, s, r.value[s]) && !Contradictory(groups[s])
  {
    hide *;
    var targets: map<string, Candidate> := map[];
    var todo := groups.Keys;
    while todo != {}
      invariant todo <= groups.Keys && targets.Keys == groups.Keys - todo
      invariant forall s :: s in targets ==> Selected(obs, s, targets[s]) && !Contradictory(groups[s])
      decreases |todo|
    {
      var s :| s in todo;
      GroupMembers(obs, groups, s);
      var picked := PickOpen(groups[s]);
      if picked.Fail? {
        GroupContradiction(obs, groups, s);
        return Fail(Ambiguous);
      }
      SelectedInGroup(obs, groups, s, picked.value);
      targets := targets[s := picked.value];
      todo := todo - {s};
    }
    return Ok(targets);
  }

  lemma GroupKeys(obs: Observations, groups: map<string, Observations>)
    requires Grouped(obs, groups)
    ensures groups.Keys == Symbols(obs)
  {}

  lemma GroupMembers(obs: Observations, groups: map<string, Observations>, s: string)
    requires Grouped(obs, groups) && s in groups
    ensures groups[s] != [] && groups[s][0].symbol == s && forall o :: o in groups[s] ==> o.symbol == s
  {}

  lemma GroupContradiction(obs: Observations, groups: map<string, Observations>, s: string)
    requires Grouped(obs, groups) && s in groups && Contradictory(groups[s])
    ensures Contradictory(obs)
  {}

  lemma NoContradiction(obs: Observations, groups: map<string, Observations>)
    requires Grouped(obs, groups) && forall s :: s in groups ==> !Contradictory(groups[s])
    ensures !Contradictory(obs)
  {
    forall a, b | a in obs && b in obs ensures !Contradict(a, b) {
      assert a.symbol in Symbols(obs);
      if a.symbol == b.symbol { assert a in groups[a.symbol] && b in groups[a.symbol]; }
    }
  }

  lemma SelectedInGroup(obs: Observations, groups: map<string, Observations>, s: string, c: Candidate)
    requires Grouped(obs, groups) && s in groups && Selected(groups[s], s, c)
    ensures Selected(obs, s, c)
  {}

  // ---------- the Close stage ----------

  type Chosen = map<string, Observation>

  /** One fact of the Close walk: a later instant replaces the choice, the same instant
      must repeat it exactly, an earlier one is passed over. */
  function CloseStep(m: Chosen, o: Observation): Result<Chosen, SelectionError> {
    if o.symbol !in m || o.at > m[o.symbol].at then Ok(m[o.symbol := o])
    else if o.at == m[o.symbol].at && o.candidate != m[o.symbol].candidate then Fail(Ambiguous)
    else Ok(m)
  }

  function CloseWalk(obs: Observations): (r: Result<Chosen, SelectionError>)
    ensures r.Fail? ==> r == Fail(Ambiguous)
  {
    if obs == [] then Ok(map[])
    else
      match CloseWalk(obs[..|obs| - 1])
      case Fail(e) => Fail(e)
      case Ok(m) => CloseStep(m, obs[|obs| - 1])
  }

  /** `_target_observations` for the Close stage. */
  method CloseTargets(obs: Observations) returns (r: Result<Chosen, SelectionError>)
    ensures r == CloseWalk(obs)
  {
    var m: Chosen := map[];
    for i := 0 to |obs|
      invariant CloseWalk(obs[..i]) == Ok(m)
    {
      assert obs[..i + 1][..i] == obs[..i];
      var next := CloseStep(m, obs[i]);
      if next.Fail? {
        FailsForever(obs, i + 1);
        return Fail(Ambiguous);
      }
      m := next.value;
    }
    assert obs[..|obs|] == obs;
    return Ok(m);
  }

  lemma {:induction false} FailsForever(obs: Observations, n: nat)
    requires n <= |obs| && CloseWalk(obs[..n]).Fail?
    ensures CloseWalk(obs) == Fail(Ambiguous)
    decreases |obs|
  {
    if n == |obs| {
      assert obs[..n] == obs;
    } else {
      assert obs[..|obs| - 1][..n] == obs[..n];
      FailsForever(obs[..|obs| - 1], n);
    }
  }

  /** Same instant, and not the very same candidate. */
  predicate Differ(a: Observation, b: Observation) { a.symbol == b.symbol && a.at == b.at && a.candidate != b.candidate }

  /** Position `j` ends the walk: it disagrees with an earlier fact of the latest instant so far. */
  ghost predicate Stops(obs: Observations, i: int, j: int) {
    && 0 <= i < j < |obs| && Differ(obs[i], obs[j])
    && forall k :: 0 <= k < j && obs[k].symbol == obs[j].symbol ==> obs[k].at <= obs[j].at
  }

  /** `m` holds, per symbol, its latest observation, and no other candidate shares that instant. */
  ghost predicate Holds(obs: Observations, m: Chosen) {
    && m.Keys == Symbols(obs)
    && (forall s :: s in m ==> m[s].symbol == s && Latest(obs, m[s]))
    && forall s, o :: s in m && o in obs && o.symbol == s && o.at == m[s].at ==> o.candidate == m[s].candidate
  }

  lemma HoldsStep(init: Observations, m: Chosen, last: Observation)
    requires Holds(init, m)
    ensures CloseStep(m, last).Ok? ==> Holds(init + [last], CloseStep(m, last).value)
    ensures CloseStep(m, last).Fail? <==> exists i :: Stops(init + [last], i, |init|)
  {
    assert forall o :: o in init + [last] <==> o in init || o == last;
    assert last.symbol in m <==> last.symbol in Symbols(init);
    StepFails(init, m, last);
    if CloseStep(m, last).Ok? {
      var n := CloseStep(m, last).value;
      assert n.Keys == Symbols(init + [last]);
      assert forall o :: o in init && o.symbol == last.symbol ==> last.symbol in m;
    }
  }

  lemma StepFails(init: Observations, m: Chosen, last: Observation)
    requires Holds(init, m)
    ensures CloseStep(m, last).Fail? <==> exists i :: Stops(init + [last], i, |init|)
  {
    var obs := init + [last];
    assert forall k :: 0 <= k < |init| ==> obs[k] == init[k] && init[k] in init;
    assert forall o :: o in init ==> o.symbol in Symbols(init);
    if CloseStep(m, last).Fail? {
      var i :| 0 <= i < |init| && init[i] == m[last.symbol];
      assert Stops(obs, i, |init|);
    }
    forall i | Stops(obs, i, |init|) ensures CloseStep(m, last).Fail? {
      var k :| 0 <= k < |init| && init[k] == m[last.symbol];
      assert obs[k].at <= last.at;
    }
  }

  /** A successful walk holds the latest observations. A walk fails exactly when some fact stops it. */
  lemma {:induction false} CloseMeaning(obs: Observations)
    ensures CloseWalk(obs).Ok? ==> Holds(obs, CloseWalk(obs).value)
    ensures CloseWalk(obs).Fail? <==> exists i, j :: Stops(obs, i, j)
  {
    if obs != [] {
      var n := |obs| - 1;
      var init, last := obs[..n], obs[n];
      CloseMeaning(init);
      assert obs == init + [last];
      StopsEarlier(init, last);
      if CloseWalk(init).Ok? { HoldsStep(init, CloseWalk(init).value, last); }
    }
  }

  lemma StopsEarlier(init: Observations, last: Observation)
    ensures forall i, j :: j < |init| ==> (Stops(init, i, j) <==> Stops(init + [last], i, j))
  {
    assert forall k :: 0 <= k < |init| ==> (init + [last])[k] == init[k];
  }

  /** Any two orders that both succeed choose the same observations. */
  lemma CloseSuccessesAgree(a: Observations, b: Observations)
    requires Permuted(a, b) && CloseWalk(a).Ok? && CloseWalk(b).Ok?
    ensures CloseWalk(a) == CloseWalk(b)
  {
    PermutedMembers(a, b);
    CloseMeaning(a);
    CloseMeaning(b);
    hide CloseWalk;
    HeldOnce(a, b, CloseWalk(a).value, CloseWalk(b).value);
  }

  lemma HeldOnce(a: Observations, b: Observations, m: Chosen, n: Chosen)
    requires (forall o :: o in a <==> o in b) && Holds(a, m) && Holds(b, n)
    ensures m == n
  {}

  ghost predicate AnyDiffer(obs: Observations) { exists a, b :: a in obs && b in obs && Differ(a, b) }

  /** Two differing candidates at the latest instant of their symbol. */
  ghost predicate LatestDiffer(obs: Observations) {
    exists a, b :: Latest(obs, a) && Latest(obs, b) && Differ(a, b)
  }

  lemma HeldMeansNoTie(obs: Observations, m: Chosen)
    requires Holds(obs, m)
    ensures !LatestDiffer(obs)
  {
    forall x, y | Latest(obs, x) && Latest(obs, y) ensures !Differ(x, y) {
      assert x.symbol in Symbols(obs) && Latest(obs, m[x.symbol]);
    }
  }

  /** A tie at the latest instant fails in every order. */
  lemma LatestTieAlwaysFails(a: Observations, b: Observations)
    requires Permuted(a, b) && LatestDiffer(a)
    ensures CloseWalk(b) == Fail(Ambiguous)
  {
    PermutedMembers(a, b);
    assert LatestDiffer(b) by {
      var x, y :| Latest(a, x) && Latest(a, y) && Differ(x, y);
      assert Latest(b, x) && Latest(b, y);
    }
    CloseMeaning(b);
    if CloseWalk(b).Ok? { HeldMeansNoTie(b, CloseWalk(b).value); }
  }

  function Keep(obs: Observations, all: Observations, latest: bool): Observations {
    if obs == [] then []
    else (if Latest(all, obs[0]) == latest then [obs[0]] else []) + Keep(obs[1..], all, latest)
  }

  lemma {:induction false} KeepMembers(obs: Observations, all: Observations, l: bool)
    ensures forall o :: o in Keep(obs, all, l) <==> o in obs && Latest(all, o) == l
  {
    hide Latest;
    if obs != [] {
      KeepMembers(obs[1..], all, l);
      assert forall o :: o in obs <==> o == obs[0] || o in obs[1..];
    }
  }

  lemma {:induction false} KeepPermutes(obs: Observations, all: Observations)
    ensures multiset(Keep(obs, all, true) + Keep(obs, all, false)) == multiset(obs)
  {
    hide Latest;
    if obs != [] {
      KeepPermutes(obs[1..], all);
      assert obs == [obs[0]] + obs[1..];
    }
  }

  lemma {:induction false} LatestExists(obs: Observations, s: string) returns (o: Observation)
    requires s in Symbols(obs)
    ensures o.symbol == s && Latest(obs, o)
  {
    var init, last := obs[..|obs| - 1], obs[|obs| - 1];
    assert forall x :: x in obs <==> x in init || x == last;
    if s in Symbols(init) {
      o := LatestExists(init, s);
      if last.symbol == s && last.at > o.at { o := last; }
    } else {
      o := last;
    }
  }

  /** Reading the latest facts first succeeds whenever they do not tie. */
  lemma LatestFirst(obs: Observations) returns (p: Observations)
    requires !LatestDiffer(obs)
    ensures Permuted(obs, p) && CloseWalk(p).Ok?
  {
    p := Keep(obs, obs, true) + Keep(obs, obs, false);
    KeepPermutes(obs, obs);
    CloseMeaning(p);
    forall i, j | 0 <= i < j < |p| && Differ(p[i], p[j]) ensures !Stops(p, i, j) {
      var k := LaterBefore(obs, p, i, j);
    }
  }

  lemma TieInFront(obs: Observations, i: nat, j: nat)
    requires i < j < |Keep(obs, obs, true)| && Differ(Keep(obs, obs, true)[i], Keep(obs, obs, true)[j])
    ensures LatestDiffer(obs)
  {
    var front := Keep(obs, obs, true);
    KeepMembers(obs, obs, true);
    assert front[i] in front && front[j] in front;
  }

  /** Behind the latest facts, every fact that differs from an earlier one comes after a later one. */
  lemma LaterBefore(obs: Observations, p: Observations, i: nat, j: nat) returns (k: nat)
    requires !LatestDiffer(obs) && p == Keep(obs, obs, true) + Keep(obs, obs, false)
    requires i < j < |p| && Differ(p[i], p[j])
    ensures k < j && p[k].symbol == p[j].symbol && p[k].at > p[j].at
  {
    var front, back := Keep(obs, obs, true), Keep(obs, obs, false);
    assert j >= |front| by {
      assert j < |front| ==> p[i] == front[i] && p[j] == front[j];
      if j < |front| { TieInFront(obs, i, j); }
    }
    KeepMembers(obs, obs, true);
    KeepMembers(obs, obs, false);
    assert p[j] == back[j - |front|] && back[j - |front|] in back;
    assert p[j] in obs && !Latest(obs, p[j]);
    var o := LatestExists(obs, p[j].symbol);
    assert o in front;
    k :| 0 <= k < |front| && front[k] == o;
    assert p[k] == o;
  }

  /** Reading two differing facts of one instant first fails. */
  lemma TieFirst(obs: Observations, i: nat, j: nat) returns (p: Observations)
    requires i < j < |obs| && Differ(obs[i], obs[j])
    ensures Permuted(obs, p) && CloseWalk(p).Fail?
  {
    var rest := obs[..i] + obs[i + 1..j] + obs[j + 1..];
    p := [obs[i], obs[j]] + rest;
    assert obs == obs[..i] + [obs[i]] + obs[i + 1..j] + [obs[j]] + obs[j + 1..];
    CloseMeaning(p);
    assert Stops(p, 0, 1);
  }

  lemma NeverFails(obs: Observations, p: Observations)
    requires Permuted(obs, p) && !AnyDiffer(obs)
    ensures CloseWalk(p).Ok?
  {
    PermutedMembers(obs, p);
    CloseMeaning(p);
  }

  /** Exactly when Close is independent of reading order: no instant has differing
      candidates at all, or some symbol's latest instant does, and then every order fails. */
  lemma CloseOrderFreeIff(obs: Observations)
    ensures (forall p :: Permuted(obs, p) ==> CloseWalk(p) == CloseWalk(obs)) <==> !AnyDiffer(obs) || LatestDiffer(obs)
  {
    if LatestDiffer(obs) {
      forall p | Permuted(obs, p) ensures CloseWalk(p) == CloseWalk(obs) {
        LatestTieAlwaysFails(obs, p);
        LatestTieAlwaysFails(obs, obs);
      }
    } else if !AnyDiffer(obs) {
      forall p | Permuted(obs, p) ensures CloseWalk(p) == CloseWalk(obs) {
        NeverFails(obs, p);
        NeverFails(obs, obs);
        CloseSuccessesAgree(p, obs);
      }
    } else {
      var good := LatestFirst(obs);
      var a, b :| a in obs && b in obs && Differ(a, b);
      var i :| 0 <= i < |obs| && obs[i] == a;
      var j :| 0 <= j < |obs| && obs[j] == b;
      var bad := TieFirst(obs, if i < j then i else j, if i < j then j else i);
    }
  }

  /** Both happen: of two differing facts of one instant and a later third, read latest
      first the walk succeeds, read latest last it fails. */
  lemma CloseOrderCanMatter(x: Observation, y: Observation, z: Observation)
    requires Differ(x, y) && z.symbol == x.symbol && z.at > x.at
    ensures Permuted([z, x, y], [x, y, z]) && CloseWalk([z, x, y]).Ok? && CloseWalk([x, y, z]).Fail?
    ensures AnyDiffer([z, x, y]) && !LatestDiffer([z, x, y])
  {
    var good := [z, x, y];
    assert x in good && y in good && z in good;
    assert !Latest(good, x) && !Latest(good, y);
    LatestLast(x, y, z);
    LatestLeads(x, y, z);
  }

  lemma LatestLeads(x: Observation, y: Observation, z: Observation)
    requires Differ(x, y) && z.symbol == x.symbol && z.at > x.at
    ensures CloseWalk([z, x, y]).Ok?
  {
    CloseMeaning([z, x, y]);
    assert [z, x, y][0] == z;
  }

  lemma LatestLast(x: Observation, y: Observation, z: Observation)
    requires Differ(x, y) && z.symbol == x.symbol && z.at > x.at
    ensures CloseWalk([x, y, z]).Fail?
  {
    CloseMeaning([x, y, z]);
    assert Stops([x, y, z], 0, 1);
  }

  /** Such observations exist. */
  lemma CloseOrderExample() returns (good: Observations, bad: Observations)
    ensures Permuted(good, bad) && CloseWalk(good).Ok? && CloseWalk(bad).Fail?
  {
    var x := Observation("SPY", 1, Candidate("a", "1", "t1", LastSale, "sale", 1.0));
    var y := Observation("SPY", 1, Candidate("b", "2", "t1", LastSale, "sale", 2.0));
    var z := Observation("SPY", 2, Candidate("c", "3", "t2", LastSale, "sale", 3.0));
    good, bad := [z, x, y], [x, y, z];
    hide CloseWalk;
    CloseOrderCanMatter(x, y, z);
  }
}
