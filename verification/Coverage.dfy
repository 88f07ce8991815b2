/** Regular-session windows: the one-minute grid, the whole-window provider choice
    and the coverage a snapshot claims for its scope. */
module Coverage {
  import opened Bars

  const MINUTE := 60_000_000

  /** Microseconds since midnight in New York. */
  datatype Window = Window(start: int, end: int)

  /** One observation; `at` is absent when its timestamp is unreadable or of another day. */
  datatype Fact = Fact(at: Option<int>, finite: bool)

  /** `_fact_timestamp`: the instant, if it lies in the half-open window. */
  function Stamp(f: Fact, w: Window): Option<int> {
    if f.at.Some? && w.start <= f.at.value < w.end then f.at else None
  }

  function Stamps(facts: seq<Fact>, w: Window): seq<int> {
    if facts == [] then []
    else (if Stamp(facts[0], w).Some? then [Stamp(facts[0], w).value] else []) + Stamps(facts[1..], w)
  }

  function Floor(at: int): int { at - at % MINUTE }

  function Floors(ts: seq<int>): set<int> { set i | 0 <= i < |ts| :: Floor(ts[i]) }

  predicate OnGrid(t: int, w: Window) { w.start <= t < w.end && (t - w.start) % MINUTE == 0 }

  /** Every whole minute from the start on, before the end. */
  ghost function Grid(w: Window): set<int> { set t | w.start <= t < w.end && OnGrid(t, w) }

  /** `_minute_grid`. */
  method MinuteGrid(w: Window) returns (r: Option<set<int>>)
    ensures r.None? <==> w.end <= w.start
    ensures r.Some? ==> r.value == Grid(w)
  {
    if w.end <= w.start { return None; }
    var expected: set<int> := {};
    var current := w.start;
    while current < w.end
      invariant w.start <= current && (current - w.start) % MINUTE == 0
      invariant forall t :: t in expected <==> t < current && OnGrid(t, w)
      decreases w.end - current
    {
      forall t | OnGrid(t, w) && current <= t < current + MINUTE ensures t == current { NoneBetween(current, t, w.start); }
      expected := expected + {current};
      current := current + MINUTE;
    }
    return Some(expected);
  }

  lemma NoneBetween(current: int, t: int, start: int)
    requires (current - start) % MINUTE == 0 && (t - start) % MINUTE == 0 && current <= t < current + MINUTE
    ensures t == current
  {}

  // ---------- full windows ----------

  /** As coverage counts it: as many observations as minutes, covering the same minutes. */
  ghost predicate Full(ts: seq<int>, w: Window) { |ts| == |Grid(w)| && Floors(ts) == Grid(w) }

  /** The final one-minute boundary was observed exactly. */
  predicate Terminal(ts: seq<int>, w: Window) { TerminalStart(w) in ts }

  /** The start of the last minute, or of the window if that is later. */
  function TerminalStart(w: Window): (t: int)
    ensures t >= w.start && t >= w.end - MINUTE && (t == w.start || t == w.end - MINUTE)
  {
    if w.end - MINUTE < w.start then w.start else w.end - MINUTE
  }

  function Count(ts: seq<int>, minute: int): nat {
    if ts == [] then 0 else (if Floor(ts[0]) == minute then 1 else 0) + Count(ts[1..], minute)
  }

  /** What "full" is meant to say: every minute of the window has exactly one
      observation, and no observation lies elsewhere. */
  lemma FullIsOnePerMinute(ts: seq<int>, w: Window)
    ensures Full(ts, w) <==> Floors(ts) <= Grid(w) && forall m :: m in Grid(w) ==> Count(ts, m) == 1
  {
    CountPositive(ts);
    Pigeonhole(ts);
    if Floors(ts) == Grid(w) && forall m :: m in Floors(ts) ==> Count(ts, m) == 1 {
      assert |ts| == |Grid(w)|;
    }
    if Floors(ts) <= Grid(w) && forall m :: m in Grid(w) ==> Count(ts, m) == 1 {
      assert forall m :: m in Grid(w) ==> m in Floors(ts);
      assert Floors(ts) == Grid(w);
    }
  }

  lemma {:induction false} CountPositive(ts: seq<int>)
    ensures forall m :: m in Floors(ts) <==> Count(ts, m) > 0
  {
    if ts != [] {
      CountPositive(ts[1..]);
      FloorsCons(ts);
    }
  }

  lemma FloorsCons(ts: seq<int>)
    requires ts != []
    ensures Floors(ts) == {Floor(ts[0])} + Floors(ts[1..])
  {}

  /** As many minutes as observations exactly when no minute is observed twice. */
  lemma {:induction false} Pigeonhole(ts: seq<int>)
    ensures |Floors(ts)| <= |ts|
    ensures |Floors(ts)| == |ts| <==> forall m :: m in Floors(ts) ==> Count(ts, m) == 1
  {
    if ts != [] {
      var rest := ts[1..];
      Pigeonhole(rest);
      FloorsCons(ts);
      CountPositive(rest);
      var m := Floor(ts[0]);
      if m in Floors(rest) {
        assert Floors(ts) == Floors(rest);
        assert Count(ts, m) > 1;
      } else {
        assert |Floors(ts)| == |Floors(rest)| + 1;
        assert forall k :: k in Floors(rest) ==> Count(ts, k) == Count(rest, k);
        assert Count(ts, m) == 1;
        assert forall k :: k in Floors(rest) ==> k in Floors(ts);
      }
    }
  }

  lemma FloorsJoin(a: seq<int>, b: seq<int>)
    ensures Floors(a + b) == Floors(a) + Floors(b)
  {
    forall m | m in Floors(a) + Floors(b) ensures m in Floors(a + b) {
      if m in Floors(a) {
        var i :| 0 <= i < |a| && m == Floor(a[i]);
        assert (a + b)[i] == a[i];
      } else {
        var i :| 0 <= i < |b| && m == Floor(b[i]);
        assert (a + b)[|a| + i] == b[i];
      }
    }
  }

  lemma GridJoin(start: int, mid: int, end: int)
    requires start % MINUTE == 0 && mid % MINUTE == 0 && start <= mid <= end
    ensures Grid(Window(start, end)) == Grid(Window(start, mid)) + Grid(Window(mid, end))
    ensures |Grid(Window(start, end))| == |Grid(Window(start, mid))| + |Grid(Window(mid, end))|
  {
    var g1, g2 := Grid(Window(start, mid)), Grid(Window(mid, end));
    forall t | mid <= t < end ensures OnGrid(t, Window(start, end)) <==> OnGrid(t, Window(mid, end)) {
      assert (t - start) % MINUTE == 0 <==> (t - mid) % MINUTE == 0;
    }
    forall t | start <= t < mid ensures OnGrid(t, Window(start, end)) <==> OnGrid(t, Window(start, mid)) {}
    assert Grid(Window(start, end)) == g1 + g2;
    assert g1 !! g2;
  }

  lemma FloorsWithin(ts: seq<int>, lo: int, hi: int)
    requires lo % MINUTE == 0 && forall t :: t in ts ==> lo <= t < hi
    ensures forall m :: m in Floors(ts) ==> lo <= m < hi
  {
    forall i | 0 <= i < |ts| ensures lo <= Floor(ts[i]) < hi {
      assert ts[i] in ts;
      FloorAbove(ts[i], lo);
    }
  }

  lemma FloorAbove(t: int, lo: int)
    requires lo % MINUTE == 0 && lo <= t
    ensures lo <= Floor(t) <= t
  {}

  lemma SplitEqual(a1: set<int>, a2: set<int>, b1: set<int>, b2: set<int>, mid: int)
    requires (forall m :: m in a1 ==> m < mid) && (forall m :: m in b1 ==> m < mid)
    requires (forall m :: m in a2 ==> m >= mid) && (forall m :: m in b2 ==> m >= mid)
    ensures a1 + a2 == b1 + b2 <==> a1 == b1 && a2 == b2
  {
    if a1 + a2 == b1 + b2 {
      forall m ensures (m in a1 <==> m in b1) && (m in a2 <==> m in b2) {
        assert m in a1 + a2 <==> m in b1 + b2;
      }
    }
  }

  /** A stage is full exactly when its prior part and its increment both are. */
  lemma StageFullByParts(a: seq<int>, b: seq<int>, start: int, mid: int, end: int)
    requires start % MINUTE == 0 && mid % MINUTE == 0 && start <= mid <= end
    requires forall t :: t in a ==> start <= t < mid
    requires forall t :: t in b ==> mid <= t < end
    ensures Full(a + b, Window(start, end)) <==> Full(a, Window(start, mid)) && Full(b, Window(mid, end))
  {
    FloorsJoin(a, b);
    GridJoin(start, mid, end);
    FloorsWithin(a, start, mid);
    FloorsWithin(b, mid, end);
    Pigeonhole(a);
    Pigeonhole(b);
    var g1, g2 := Grid(Window(start, mid)), Grid(Window(mid, end));
    assert (forall m :: m in g1 ==> m < mid) && forall m :: m in g2 ==> m >= mid;
    SplitEqual(Floors(a), Floors(b), g1, g2, mid);
    hide Grid, Floors;
  }

  // ---------- the provider choice ----------

  datatype Provider = Nasdaq | Twelve

  datatype Choice = Choice(provider: Provider, facts: seq<Fact>)

  /** `_full_window_from_one_provider`. */
  ghost predicate FullWindow(facts: seq<Fact>, w: Window) {
    && (forall f :: f in facts ==> f.finite && Stamp(f, w).Some?)
    && |facts| == |Grid(w)| && Floors(Stamps(facts, w)) == Grid(w) && w.end - MINUTE in Stamps(facts, w)
  }

  method FullWindowFromOneProvider(facts: seq<Fact>, w: Window) returns (full: bool)
    requires w.start < w.end
    ensures full == FullWindow(facts, w)
  {
    if exists f :: f in facts && !f.finite { return false; }
    var expected := MinuteGrid(w);
    if |facts| != |expected.value| || exists f :: f in facts && Stamp(f, w).None? { return false; }
    var ts := Stamps(facts, w);
    return Floors(ts) == expected.value && w.end - MINUTE in ts;
  }

  lemma {:induction false} StampsWithin(facts: seq<Fact>, w: Window)
    ensures forall t :: t in Stamps(facts, w) ==> w.start <= t < w.end
    ensures |Stamps(facts, w)| <= |facts|
    ensures |Stamps(facts, w)| == |facts| <==> forall f :: f in facts ==> Stamp(f, w).Some?
    ensures Stamps(facts, w) != [] <==> exists f :: f in facts && Stamp(f, w).Some?
  {
    if facts != [] {
      StampsWithin(facts[1..], w);
      assert forall f :: f in facts <==> f == facts[0] || f in facts[1..];
    }
  }

  lemma {:induction false} StampsJoin(a: seq<Fact>, b: seq<Fact>, w: Window)
    ensures Stamps(a + b, w) == Stamps(a, w) + Stamps(b, w)
  {
    if a == [] {
      assert a + b == b;
    } else {
      assert (a + b)[1..] == a[1..] + b;
      StampsJoin(a[1..], b, w);
    }
  }

  /** The selection rule and the coverage count agree: an answer whose facts are finite
      and in the window is selectable as a full window exactly when coverage will count
      it as full and terminal. */
  lemma SelectionMatchesCoverage(facts: seq<Fact>, w: Window)
    requires forall f :: f in facts ==> f.finite && Stamp(f, w).Some?
    requires w.end - w.start >= MINUTE
    ensures FullWindow(facts, w) <==> Full(Stamps(facts, w), w) && Terminal(Stamps(facts, w), w)
  {
    StampsWithin(facts, w);
  }

  /** What a provider's rows contribute: the finite ones inside the window. */
  function Qualifying(rows: seq<Fact>, w: Window): (facts: seq<Fact>)
    ensures forall f :: f in facts ==> f in rows && f.finite && Stamp(f, w).Some?
  {
    if rows == [] then []
    else (if rows[0].finite && Stamp(rows[0], w).Some? then [rows[0]] else []) + Qualifying(rows[1..], w)
  }

  /** Row by row, a finite row in the window is kept and any other is not; and what is kept of
      two stretches of an answer is what is kept of each: so every finite in-window row
      stays, in order, as often as it came, and nothing else. */
  lemma QualifyingMeaning(a: seq<Fact>, b: seq<Fact>, f: Fact, w: Window)
    ensures Qualifying([f], w) == if f.finite && f.at.Some? && w.start <= f.at.value < w.end then [f] else []
    ensures Qualifying(a + b, w) == Qualifying(a, w) + Qualifying(b, w)
  {
    hide Qualifying, Stamp;
    QualifyingOne(f, w);
    QualifyingJoin(a, b, w);
  }

  lemma {:induction false} QualifyingJoin(a: seq<Fact>, b: seq<Fact>, w: Window)
    ensures Qualifying(a + b, w) == Qualifying(a, w) + Qualifying(b, w)
  {
    if a == [] {
      assert a + b == b;
    } else {
      hide *;
      var x, rest := [a[0]], a[1..];
      ConsJoin(a, b);
      QualifyingCons(a[0], rest, w);
      QualifyingCons(a[0], rest + b, w);
      QualifyingJoin(rest, b, w);
      Regroup(Qualifying(x, w), Qualifying(rest, w), Qualifying(b, w));
    }
  }

  lemma ConsJoin(a: seq<Fact>, b: seq<Fact>)
    requires a != []
    ensures a == [a[0]] + a[1..] && a + b == [a[0]] + (a[1..] + b)
  {}

  lemma Regroup(x: seq<Fact>, y: seq<Fact>, z: seq<Fact>)
    ensures (x + y) + z == x + (y + z)
  {}

  lemma QualifyingCons(x: Fact, rest: seq<Fact>, w: Window)
    ensures Qualifying([x] + rest, w) == Qualifying([x], w) + Qualifying(rest, w)
  {
    hide Stamp;
    assert ([x] + rest)[1..] == rest && ([x] + rest)[0] == x && [x][1..] == [];
  }

  lemma QualifyingOne(f: Fact, w: Window)
    ensures Qualifying([f], w) == if f.finite && f.at.Some? && w.start <= f.at.value < w.end then [f] else []
  {
    assert [f][1..] == [];
  }

  // ---------- a whole answer ----------

  /** How many finite rows of an answer fall in the minute from `m` on. */
  function MinuteCount(rows: seq<Fact>, m: int): nat {
    if rows == [] then 0
    else
      (if rows[0].finite && rows[0].at.Some? && m <= rows[0].at.value < m + MINUTE then 1 else 0)
      + MinuteCount(rows[1..], m)
  }

  /** Exactly one finite row in every minute of the window, the last of them at the very
      start of its minute; other rows may not be finite, or lie outside. */
  ghost predicate WholeAnswer(rows: seq<Fact>, w: Window) {
    && (forall m :: w.start <= m < w.end && (m - w.start) % MINUTE == 0 ==> MinuteCount(rows, m) == 1)
    && exists f :: f in rows && f.finite && f.at == Some(w.end - MINUTE)
  }

  lemma {:induction false} CountQualifying(rows: seq<Fact>, w: Window, m: int)
    requires w.start % MINUTE == 0 && w.end % MINUTE == 0 && w.start <= m < w.end && m % MINUTE == 0
    ensures Count(Stamps(Qualifying(rows, w), w), m) == MinuteCount(rows, m)
  {
    if rows != [] {
      CountQualifying(rows[1..], w, m);
      var f, rest := rows[0], Qualifying(rows[1..], w);
      if f.finite && Stamp(f, w).Some? {
        assert ([f] + rest)[1..] == rest && Stamps([f] + rest, w) == [f.at.value] + Stamps(rest, w);
        assert ([f.at.value] + Stamps(rest, w))[1..] == Stamps(rest, w);
        MinuteOf(f.at.value, m);
      } else {
        assert [] + rest == rest;
      }
    }
  }

  lemma MinuteOf(t: int, m: int)
    requires m % MINUTE == 0
    ensures Floor(t) == m <==> m <= t < m + MINUTE
  {}

  lemma {:induction false} StampsQualifying(rows: seq<Fact>, w: Window, t: int)
    ensures t in Stamps(Qualifying(rows, w), w) <==>
              w.start <= t < w.end && exists f :: f in rows && f.finite && f.at == Some(t)
  {
    if rows != [] {
      StampsQualifying(rows[1..], w, t);
      var f, rest := rows[0], Qualifying(rows[1..], w);
      assert forall x :: x in rows <==> x == f || x in rows[1..];
      if f.finite && Stamp(f, w).Some? {
        assert ([f] + rest)[1..] == rest && Stamps([f] + rest, w) == [f.at.value] + Stamps(rest, w);
      } else {
        assert [] + rest == rest;
      }
    }
  }

  lemma FloorsOnGrid(ts: seq<int>, w: Window)
    requires w.start % MINUTE == 0 && w.end % MINUTE == 0 && forall t :: t in ts ==> w.start <= t < w.end
    ensures Floors(ts) <= Grid(w)
  {
    FloorsWithin(ts, w.start, w.end);
    forall m | m in Floors(ts) ensures m in Grid(w) {
      var i :| 0 <= i < |ts| && Floor(ts[i]) == m;
      assert m % MINUTE == 0;
    }
  }

  /** What each provider answered per symbol; no row stands for a failed request too. */
  datatype Feed = Feed(nasdaq: string -> seq<Fact>, twelve: string -> seq<Fact>)
  {
    function Primary(s: string, w: Window): seq<Fact> { Qualifying(nasdaq(s), w) }
    function Alternate(s: string, w: Window): seq<Fact> { Qualifying(twelve(s), w) }
  }

  /** What the two passes over the universe select for one symbol. */
  ghost function Chosen(feed: Feed, s: string, w: Window, sparse: bool): Option<Choice> {
    var p, t := feed.Primary(s, w), feed.Alternate(s, w);
    if p != [] && (!sparse || FullWindow(p, w) || !FullWindow(t, w)) then Some(Choice(Nasdaq, p))
    else if t != [] then Some(Choice(Twelve, t))
    else None
  }

  /** No splice: the selection is one provider's whole answer; it is missing only if
      neither has a qualified fact; where the fallback is tried it is a full window
      whenever either provider offers one; and where it is not, a primary answer stands. */
  lemma ChosenMeaning(feed: Feed, s: string, w: Window, sparse: bool)
    requires w.start < w.end
    ensures Chosen(feed, s, w, sparse).None? <==> feed.Primary(s, w) == [] && feed.Alternate(s, w) == []
    ensures Chosen(feed, s, w, sparse).Some? ==>
              var c := Chosen(feed, s, w, sparse).value;
              && c.facts != [] && c.facts == (if c.provider.Nasdaq? then feed.Primary(s, w) else feed.Alternate(s, w))
              && (c.provider.Twelve? && feed.Primary(s, w) != [] ==> sparse && FullWindow(c.facts, w))
    ensures sparse && (FullWindow(feed.Primary(s, w), w) || FullWindow(feed.Alternate(s, w), w)) ==>
              Chosen(feed, s, w, sparse).Some? && FullWindow(Chosen(feed, s, w, sparse).value.facts, w)
    ensures !sparse && feed.Primary(s, w) != [] ==> Chosen(feed, s, w, sparse) == Some(Choice(Nasdaq, feed.Primary(s, w)))
  {}

  lemma WholeStamps(rows: seq<Fact>, w: Window)
    requires w.start % MINUTE == 0 && w.end % MINUTE == 0 && w.start < w.end && WholeAnswer(rows, w)
    ensures var ts := Stamps(Qualifying(rows, w), w); Full(ts, w) && Terminal(ts, w)
  {
    hide *;
    var ts := Stamps(Qualifying(rows, w), w);
    OnceAMinute(rows, w);
    forall t | t in ts ensures w.start <= t < w.end { StampsQualifying(rows, w, t); }
    FloorsOnGrid(ts, w);
    FullIsOnePerMinute(ts, w);
    LastMinute(rows, w);
  }

  lemma OnceAMinute(rows: seq<Fact>, w: Window)
    requires w.start % MINUTE == 0 && w.end % MINUTE == 0 && w.start < w.end && WholeAnswer(rows, w)
    ensures forall m :: m in Grid(w) ==> Count(Stamps(Qualifying(rows, w), w), m) == 1
  {
    hide Qualifying, Stamps, Stamp, Count, MinuteCount;
    forall m | m in Grid(w) ensures Count(Stamps(Qualifying(rows, w), w), m) == 1 { CountQualifying(rows, w, m); }
  }

  lemma LastMinute(rows: seq<Fact>, w: Window)
    requires w.start % MINUTE == 0 && w.end % MINUTE == 0 && w.start < w.end && WholeAnswer(rows, w)
    ensures Terminal(Stamps(Qualifying(rows, w), w), w)
  {
    hide Qualifying, Stamps, Stamp, Count, MinuteCount;
    StampsQualifying(rows, w, w.end - MINUTE);
  }

  /** A whole primary answer is selected as it is, and coverage counts it as full and terminal. */
  lemma WholeAnswerIsFull(feed: Feed, s: string, w: Window, sparse: bool)
    requires w.start % MINUTE == 0 && w.end % MINUTE == 0 && w.start < w.end && WholeAnswer(feed.nasdaq(s), w)
    ensures Chosen(feed, s, w, sparse) == Some(Choice(Nasdaq, feed.Primary(s, w)))
    ensures var ts := Stamps(feed.Primary(s, w), w); Full(ts, w) && Terminal(ts, w)
  {
    hide Full, Terminal, WholeAnswer, Qualifying, Stamp;
    WholeStamps(feed.nasdaq(s), w);
    StampsWithin(feed.Primary(s, w), w);
    SelectionMatchesCoverage(feed.Primary(s, w), w);
    WholeNotEmpty(feed.nasdaq(s), w);
  }

  lemma WholeNotEmpty(rows: seq<Fact>, w: Window)
    requires w.start % MINUTE == 0 && w.end % MINUTE == 0 && w.start < w.end && WholeAnswer(rows, w)
    ensures Qualifying(rows, w) != []
  {
    hide Qualifying, Stamp;
    StampsQualifying(rows, w, w.end - MINUTE);
  }

  /** The fallback decision for one symbol, given what the first pass found. */
  method Reconsider(primary: seq<Fact>, feed: Feed, s: string, w: Window, sparse: bool) returns (c: Option<Choice>)
    requires w.start < w.end && primary == feed.Primary(s, w)
    ensures c == Chosen(feed, s, w, sparse)
  {
    ChosenMeaning(feed, s, w, sparse);
    var whole := FullWindowFromOneProvider(primary, w);
    if primary != [] && (!sparse || whole) { return Some(Choice(Nasdaq, primary)); }
    var facts := feed.Alternate(s, w);
    whole := FullWindowFromOneProvider(facts, w);
    if facts != [] && (primary == [] || whole) { return Some(Choice(Twelve, facts)); }
    return if primary != [] then Some(Choice(Nasdaq, primary)) else None;
  }

  /** The two fetch passes of `collect_regular_window`. */
  method SelectFacts(universe: seq<string>, feed: Feed, w: Window, sparse: bool) returns (selected: map<string, Choice>)
    requires w.start < w.end
    ensures forall s :: s in selected <==> s in universe && Chosen(feed, s, w, sparse).Some?
    ensures forall s :: s in selected ==> selected[s] == Chosen(feed, s, w, sparse).value
  {
    hide *;
    var primary: map<string, seq<Fact>> := map[];
    for i := 0 to |universe|
      invariant forall s :: s in primary ==> primary[s] == feed.Primary(s, w)
      invariant forall s :: s in universe[..i] ==> s in primary
    {
      primary := primary[universe[i] := feed.Primary(universe[i], w)];
    }
    assert forall s :: s in universe ==> s in primary by { assert universe[..|universe|] == universe; }
    selected := map[];
    for i := 0 to |universe|
      invariant forall s :: s in selected <==> s in universe[..i] && Chosen(feed, s, w, sparse).Some?
      invariant forall s :: s in selected ==> selected[s] == Chosen(feed, s, w, sparse).value
    {
      var s := universe[i];
      assert universe[..i + 1] == universe[..i] + [s];
      var c := Reconsider(primary[s], feed, s, w, sparse);
      if c.Some? { selected := selected[s := c.value]; }
    }
    assert universe[..|universe|] == universe;
  }

  // ---------- coverage ----------

  datatype ContractError = NotUnique | HintOutsideScope | EmptyWindow | FactsOutsideScope | Disagree | Inequality
                         | PriorOutsideScope | PriorMarksQualified | UnknownSymbol

  datatype Scope = Scope(requested: nat, qualified: set<string>, full: set<string>, terminal: set<string>,
                         missing: set<string>, partial: set<string>, complete: bool)

  predicate Unique(names: seq<string>) { forall i, j :: 0 <= i < j < |names| ==> names[i] != names[j] }

  function Names(s: seq<string>): set<string> { set x | x in s }

  /** The symbols with at least one observation in the window. */
  function QualifiedIn(requested: seq<string>, facts: map<string, seq<Fact>>, w: Window): set<string> {
    set s | s in requested && s in facts && Stamps(facts[s], w) != []
  }

  /** `_scope_coverage`. */
  method ScopeCoverage(requested: seq<string>, facts: map<string, seq<Fact>>, hint: set<string>, w: Window)
    returns (r: Result<Scope, ContractError>)
    ensures r.Ok? <==> && Unique(requested) && w.start < w.end && facts.Keys <= Names(requested)
                       && hint == Names(requested) - QualifiedIn(requested, facts, w)
    ensures r.Ok? ==>
      && r.value.requested == |requested| && r.value.missing == hint
      && r.value.qualified == QualifiedIn(requested, facts, w)
      && (forall s :: s in r.value.full <==> s in r.value.qualified && Full(Stamps(facts[s], w), w))
      && (forall s :: s in r.value.terminal <==> s in r.value.qualified && Terminal(Stamps(facts[s], w), w))
      && r.value.partial == r.value.qualified - (r.value.full * r.value.terminal)
      // complete says exactly that every requested symbol has a full window and its terminal fact
      && (r.value.complete <==> forall s :: s in requested ==> s in r.value.full && s in r.value.terminal)
  {
    var all := Names(requested);
    if !Unique(requested) { return Fail(NotUnique); }
    if !(hint <= all) { return Fail(HintOutsideScope); }
    var expected := MinuteGrid(w);
    if expected.None? { return Fail(EmptyWindow); }
    if !(facts.Keys <= all) { return Fail(FactsOutsideScope); }
    var qualified := QualifiedIn(requested, facts, w);
    var missing := all - qualified;
    if missing != hint { return Fail(Disagree); }
    var full := set s | s in qualified && |Stamps(facts[s], w)| == |expected.value|
                        && Floors(Stamps(facts[s], w)) == expected.value;
    var terminal := set s | s in qualified && Terminal(Stamps(facts[s], w), w);
    assert qualified <= all;
    hide *;
    r := Judge(requested, qualified, full, terminal);
  }

  /** The tail of `_scope_coverage`: the inequalities it checks always hold. */
  method Judge(requested: seq<string>, qualified: set<string>, full: set<string>, terminal: set<string>)
    returns (r: Result<Scope, ContractError>)
    requires Unique(requested) && full <= qualified && terminal <= qualified && qualified <= Names(requested)
    ensures r.Ok? && r.value.requested == |requested| && r.value.missing == Names(requested) - qualified
    ensures r.value.qualified == qualified && r.value.full == full && r.value.terminal == terminal
    ensures r.value.partial == qualified - full * terminal
    ensures r.value.complete <==> forall s :: s in requested ==> s in full && s in terminal
  {
    var all := Names(requested);
    var missing, partial := all - qualified, qualified - full * terminal;
    UniqueCount(requested);
    SubsetSize(full, qualified);
    SubsetSize(terminal, qualified);
    SubsetSize(qualified, all);
    if !(|full| <= |qualified| <= |requested|) || |terminal| > |qualified| || missing * partial != {}
       || |missing| + |qualified| > |requested| {
      return Fail(Inequality);
    }
    var complete := missing == {} && partial == {} && |qualified| == |requested| && |full| == |requested|
                    && |terminal| == |requested|;
    if forall s :: s in requested ==> s in full && s in terminal {
      assert full == all && terminal == all && qualified == all;
    }
    if missing == {} && partial == {} {
      assert forall s :: s in requested ==> s in all && s !in missing && s !in partial;
    }
    return Ok(Scope(|requested|, qualified, full, terminal, missing, partial, complete));
  }

  lemma {:induction false} UniqueCount(names: seq<string>)
    requires Unique(names)
    ensures |Names(names)| == |names|
  {
    if names != [] {
      var init := names[..|names| - 1];
      UniqueCount(init);
      assert Names(names) == Names(init) + {names[|names| - 1]};
    }
  }

  lemma {:induction false} SubsetSize<T>(a: set<T>, b: set<T>)
    requires a <= b
    ensures |a| <= |b|
  {
    assert b == a + (b - a);
  }
}
