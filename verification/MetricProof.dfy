/** The subject and missing partition of a deterministic metric proof, as its builder
    assembles it and as its verifier re-derives it from the same tree. */
module MetricProof {
  import opened Bars
  import T = TargetSelection

  type Candidate = T.Candidate

  datatype ShardRef = ShardRef(path: string, blob: string)

  /** A series index with the rows behind it, which are absent when the shards fail their integrity check. */
  datatype Index = Index(affine: bool, symbol: string, rows: Option<seq<Bar>>, shards: seq<ShardRef>)

  datatype File = File(blob: string, index: Index)

  /** What a proof is about: a trade day, the selected targets, every observed symbol, and the index files by path. */
  datatype Tree = Tree(tradeDay: int, targets: map<string, Candidate>, observed: set<string>, files: map<string, File>)
  {
    /** What target selection and the integrity check of a series guarantee. */
    ghost predicate WellFormed() {
      && targets.Keys <= observed && (forall s :: s in observed ==> Canonical(s))
      && forall path :: path in files && files[path].index.rows.Some? ==> Ascending(files[path].index.rows.value)
    }

    /** The index of a symbol's series, where the builder looks for it. */
    predicate Indexed(symbol: string) { PathOf(Upper(symbol)) in files }

    function IndexOf(symbol: string): Index
      requires Indexed(symbol)
    {
      files[PathOf(Upper(symbol))].index
    }

    /** The series is the provider's, its shards are intact, and it has a row before the trade day. */
    ghost predicate Intact(symbol: string) {
      && Indexed(symbol) && IndexOf(symbol).affine && IndexOf(symbol).symbol == Upper(symbol)
      && IndexOf(symbol).rows.Some? && exists b :: Prior(symbol, b)
    }

    /** A row of the series dated before the trade day. */
    predicate Prior(symbol: string, b: Bar)
      requires Indexed(symbol) && IndexOf(symbol).rows.Some?
    {
      b in IndexOf(symbol).rows.value && b.day < tradeDay
    }
  }

  /** No small letter is left, and capital ones stay. */
  function Upper(s: string): (u: string)
    ensures |u| == |s| && (forall c :: c in u ==> !('a' <= c <= 'z'))
    ensures (forall c :: c in s ==> !('a' <= c <= 'z')) ==> u == s
    ensures forall i :: 0 <= i < |s| && u[i] != s[i] ==> (s[i] as int) - (u[i] as int) == ('a' as int) - ('A' as int)
  {
    assert forall i :: 0 <= i < |s| ==> s[i] in s;
    seq(|s|, i requires 0 <= i < |s| => if 'a' <= s[i] <= 'z' then s[i] - 'a' + 'A' else s[i])
  }

  predicate Canonical(symbol: string) { symbol != "" && symbol == Upper(symbol) }

  datatype Meta = Meta(path: string, blob: string, shards: seq<ShardRef>, count: int, last: int)

  datatype Reason = NoTarget | NoSeries | BehindPeer

  datatype Subject = Subject(symbol: string, target: Candidate, daily: Meta)

  datatype Missing = Missing(symbol: string, reason: Reason)

  datatype Proof = Proof(subjects: seq<Subject>, missing: seq<Missing>)

  // ---------- daily series ----------

  function PathOf(symbol: string): string { "series/daily/twelve_data_basic/" + symbol + "/_index.json" }

  function Before(rows: seq<Bar>, day: int): seq<Bar> {
    if rows == [] then [] else (if rows[0].day < day then [rows[0]] else []) + Before(rows[1..], day)
  }

  datatype Load = Unavailable | Broken | Loaded(meta: Meta)

  /** The identity of the index at a path, if its shards are intact and it has prior records. */
  function MetaAt(tree: Tree, path: string): Load
    requires path in tree.files
  {
    var f := tree.files[path];
    if f.index.rows.None? then Broken
    else
      var prior := Before(f.index.rows.value, tree.tradeDay);
      if prior == [] then Broken else Loaded(Meta(path, f.blob, f.index.shards, |prior|, prior[|prior| - 1].day))
  }

  /** `_load_daily_series`. */
  function LoadDaily(tree: Tree, symbol: string): Load {
    var path := PathOf(Upper(symbol));
    if path !in tree.files then Unavailable
    else if !tree.files[path].index.affine || tree.files[path].index.symbol != Upper(symbol) then Broken
    else MetaAt(tree, path)
  }

  function Measure(v: Value): Option<real> {
    match v
    case Int(i) => Some(i as real)
    case Float(r) => Some(r)
    case _ => None
  }

  /** A positive close, and a volume that is not negative if there is one. */
  ghost predicate Priced(b: Bar) {
    && "close" in b.fields
    && (match b.fields["close"]
        case Int(i) => i > 0
        case Float(r) => r > 0.0
        case _ => false)
    && ("volume" in b.fields ==>
          match b.fields["volume"]
          case Null => true
          case Int(i) => i >= 0
          case Float(r) => r >= 0.0
          case _ => false)
  }

  /** What `_validated_records` checks of one row. */
  predicate RowMeasurable(b: Bar) {
    && "close" in b.fields && Measure(b.fields["close"]).Some? && Measure(b.fields["close"]).value > 0.0
    && ("volume" in b.fields && b.fields["volume"] != Null ==>
          Measure(b.fields["volume"]).Some? && Measure(b.fields["volume"]).value >= 0.0)
  }

  /** `_validated_records`. */
  predicate Measurable(rows: seq<Bar>) {
    && (forall i, j :: 0 <= i < j < |rows| ==> rows[i].day < rows[j].day)
    && forall b :: b in rows ==> RowMeasurable(b)
  }

  /** `compute_metrics` succeeds on the rows before the trade day. Its benchmark rows are those
      of a subject or are not used, so they ask for nothing more. */
  predicate Measured(tree: Tree, symbol: string) {
    tree.Indexed(symbol) && tree.IndexOf(symbol).rows.Some?
    && Measurable(Before(tree.IndexOf(symbol).rows.value, tree.tradeDay))
  }

  /** The verifier's check of a declared daily series: it takes any path, and an index
      symbol in any case. */
  predicate DailyChecked(tree: Tree, symbol: string, daily: Meta) {
    && daily.path in tree.files
    && tree.files[daily.path].index.affine && Upper(tree.files[daily.path].index.symbol) == symbol
    && MetaAt(tree, daily.path) == Loaded(daily)
  }

  // ---------- the partition, said of the rows ----------

  /** The identity of a series: how many of its rows are dated before the trade day, and
      the latest day among them. */
  ghost predicate Describes(path: string, f: File, day: int, meta: Meta)
    requires f.index.rows.Some?
  {
    var rows := f.index.rows.value;
    && meta.path == path && meta.blob == f.blob && meta.shards == f.index.shards
    && meta.count == |set i | 0 <= i < |rows| && rows[i].day < day|
    && (exists b :: b in rows && b.day == meta.last < day)
    && forall b :: b in rows && b.day < day ==> b.day <= meta.last
  }

  /** A declared daily series that is what the tree has at its path. */
  ghost predicate DailyVerified(tree: Tree, symbol: string, daily: Meta) {
    && daily.path in tree.files
    && var f := tree.files[daily.path];
    && f.index.affine && Upper(f.index.symbol) == symbol && f.index.rows.Some?
    && Describes(daily.path, f, tree.tradeDay, daily)
  }

  ghost predicate HasSeries(tree: Tree, s: string) { s in tree.targets && tree.Intact(s) }

  /** Some target's series has a row before the trade day that is later than all of this one's. */
  ghost predicate Behind(tree: Tree, s: string) {
    HasSeries(tree, s) && exists p, b :: HasSeries(tree, p) && SurpassedBy(tree, s, p, b)
  }

  /** The row is a prior one of `p`, and later than every prior row of `s`. */
  ghost predicate SurpassedBy(tree: Tree, s: string, p: string, b: Bar) {
    tree.Intact(s) && tree.Intact(p) && tree.Prior(p, b) && forall c :: tree.Prior(s, c) ==> c.day < b.day
  }

  /** Every row of a subject before the trade day can be measured. */
  ghost predicate Computable(tree: Tree, s: string) {
    tree.Intact(s) && forall b :: tree.Prior(s, b) ==> Priced(b)
  }

  // ---------- what loading computes ----------

  lemma BeforeMeaning(rows: seq<Bar>, day: int)
    requires Ascending(rows)
    ensures var prior := Before(rows, day);
            && Ascending(prior) && (forall b :: b in prior <==> b in rows && b.day < day)
            && |prior| == |set i | 0 <= i < |rows| && rows[i].day < day|
            && (prior != [] ==> forall b :: b in prior ==> b.day <= prior[|prior| - 1].day)
  {
    BeforeMembers(rows, day);
    BeforeCount(rows, day);
    hide Before;
  }

  lemma {:induction false} BeforeMembers(rows: seq<Bar>, day: int)
    requires Ascending(rows)
    ensures Ascending(Before(rows, day)) && forall b :: b in Before(rows, day) <==> b in rows && b.day < day
  {
    if rows != [] {
      var b, rest := rows[0], rows[1..];
      BeforeMembers(rest, day);
      assert Before(rows, day) == (if b.day < day then [b] else []) + Before(rest, day);
      assert rows == [b] + rest;
      forall x | x in rest ensures b.day < x.day {}
      hide Before;
    }
  }

  lemma {:induction false} BeforeCount(rows: seq<Bar>, day: int)
    ensures |Before(rows, day)| == |set i | 0 <= i < |rows| && rows[i].day < day|
  {
    if rows != [] {
      BeforeCount(rows[1..], day);
      CountCons(rows, day);
    }
  }

  lemma CountCons(rows: seq<Bar>, day: int)
    requires rows != []
    ensures |set i | 0 <= i < |rows| && rows[i].day < day|
         == |set i | 0 <= i < |rows[1..]| && rows[1..][i].day < day| + if rows[0].day < day then 1 else 0
  {
    var all, rest := set i | 0 <= i < |rows| && rows[i].day < day, set i | 0 <= i < |rows[1..]| && rows[1..][i].day < day;
    var moved := set i | i in rest :: i + 1;
    Moved(rest, moved);
    assert all == moved + if rows[0].day < day then {0} else {} by {
      forall i | i in all ensures i == 0 || i - 1 in rest { if i > 0 { assert rows[1..][i - 1] == rows[i]; } }
    }
  }

  lemma {:induction false} Moved(rest: set<int>, moved: set<int>)
    requires moved == set i | i in rest :: i + 1
    ensures |moved| == |rest|
    decreases |rest|
  {
    if exists i :: i in rest {
      var i :| i in rest;
      var less := rest - {i};
      assert rest == less + {i} && i + 1 in moved;
      assert moved - {i + 1} == set k | k in less :: k + 1 by {
        forall k | k in moved && k != i + 1 ensures k - 1 in less {}
      }
      Moved(less, moved - {i + 1});
    } else {
      assert rest == {} && moved == {};
    }
  }

  /** The identity at a path is that of its rows; there is one exactly when the shards are
      intact and a row is dated before the trade day. */
  lemma MetaMeaning(tree: Tree, path: string)
    requires tree.WellFormed() && path in tree.files
    ensures var f, load := tree.files[path], MetaAt(tree, path);
            && (load.Broken? || load.Loaded?)
            && (load.Loaded? <==> f.index.rows.Some? && exists b :: b in f.index.rows.value && b.day < tree.tradeDay)
            && (load.Loaded? ==> Describes(path, f, tree.tradeDay, load.meta))
  {
    var f := tree.files[path];
    if f.index.rows.Some? {
      BeforeMeaning(f.index.rows.value, tree.tradeDay);
      var prior := Before(f.index.rows.value, tree.tradeDay);
      hide Before;
      if prior != [] {
        assert prior[|prior| - 1] in prior && prior[0] in prior;
      }
    }
  }

  /** Only one identity describes a series. */
  lemma DescribedOnce(path: string, f: File, day: int, m: Meta, n: Meta)
    requires f.index.rows.Some? && Describes(path, f, day, m) && Describes(path, f, day, n)
    ensures m == n
  {
    var rows := f.index.rows.value;
    var a :| a in rows && a.day == m.last < day;
    var b :| b in rows && b.day == n.last < day;
    assert a.day <= n.last && b.day <= m.last;
  }

  lemma LoadMeaning(tree: Tree, s: string)
    requires tree.WellFormed()
    ensures var load, path := LoadDaily(tree, s), PathOf(Upper(s));
            && (load.Unavailable? <==> !tree.Indexed(s)) && (load.Loaded? <==> tree.Intact(s))
            && (load.Loaded? ==> Describes(path, tree.files[path], tree.tradeDay, load.meta))
  {
    if tree.Indexed(s) {
      MetaMeaning(tree, PathOf(Upper(s)));
      IntactMeans(tree, s);
    }
    hide MetaAt, Describes, Tree.WellFormed, Tree.Intact;
  }

  lemma IntactMeans(tree: Tree, s: string)
    requires tree.Indexed(s)
    ensures var f := tree.files[PathOf(Upper(s))];
            tree.Intact(s) <==> f.index.affine && f.index.symbol == Upper(s) && f.index.rows.Some?
                                && exists b :: b in f.index.rows.value && b.day < tree.tradeDay
  {
    var f := tree.files[PathOf(Upper(s))];
    if f.index.rows.Some? {
      forall b ensures tree.Prior(s, b) <==> b in f.index.rows.value && b.day < tree.tradeDay {}
    }
  }

  lemma CheckedMeaning(tree: Tree, symbol: string, daily: Meta)
    requires tree.WellFormed()
    ensures DailyChecked(tree, symbol, daily) <==> DailyVerified(tree, symbol, daily)
  {
    if daily.path in tree.files {
      MetaMeaning(tree, daily.path);
      var f, load := tree.files[daily.path], MetaAt(tree, daily.path);
      if DailyVerified(tree, symbol, daily) && load.Loaded? {
        DescribedOnce(daily.path, f, tree.tradeDay, load.meta, daily);
      }
      hide MetaAt;
    }
  }

  lemma MeasuredMeaning(tree: Tree, s: string)
    requires tree.WellFormed() && tree.Intact(s)
    ensures Measured(tree, s) <==> Computable(tree, s)
  {
    BeforeMeaning(tree.IndexOf(s).rows.value, tree.tradeDay);
    hide Before, RowMeasurable, Priced;
    forall b ensures RowMeasurable(b) <==> Priced(b) { RowMeaning(b); }
  }

  lemma RowMeaning(b: Bar)
    ensures RowMeasurable(b) <==> Priced(b)
  {}

  /** A series is behind exactly when another target's latest prior day is later. */
  lemma BehindMeaning(tree: Tree, s: string)
    requires tree.WellFormed()
    ensures Behind(tree, s) <==>
              HasSeries(tree, s) && exists p :: Later(tree, p, s)
  {
    hide LoadDaily, Tree.WellFormed;
    if Behind(tree, s) {
      var p, b :| HasSeries(tree, p) && SurpassedBy(tree, s, p, b);
      LatestPrior(tree, p);
      LatestPrior(tree, s);
      var c :| tree.Prior(s, c) && c.day == LoadDaily(tree, s).meta.last;
      assert Later(tree, p, s);
    }
    if p :| HasSeries(tree, s) && Later(tree, p, s) {
      LatestPrior(tree, p);
      LatestPrior(tree, s);
      var b :| tree.Prior(p, b) && b.day == LoadDaily(tree, p).meta.last;
      assert SurpassedBy(tree, s, p, b);
    }
  }

  ghost predicate Later(tree: Tree, p: string, s: string) {
    HasSeries(tree, p) && LoadDaily(tree, p).Loaded? && LoadDaily(tree, s).Loaded?
    && LoadDaily(tree, p).meta.last > LoadDaily(tree, s).meta.last
  }

  lemma LatestPrior(tree: Tree, s: string)
    requires tree.WellFormed() && tree.Intact(s)
    ensures LoadDaily(tree, s).Loaded? && exists b :: tree.Prior(s, b) && b.day == LoadDaily(tree, s).meta.last
    ensures forall b :: tree.Prior(s, b) ==> b.day <= LoadDaily(tree, s).meta.last
  {
    LoadMeaning(tree, s);
    hide LoadDaily;
    var rows := tree.IndexOf(s).rows.value;
    var b :| b in rows && b.day == LoadDaily(tree, s).meta.last < tree.tradeDay;
    assert tree.Prior(s, b);
  }

  ghost predicate IsSubject(tree: Tree, s: string) { HasSeries(tree, s) && !Behind(tree, s) }

  ghost function ReasonFor(tree: Tree, s: string): Option<Reason> {
    if s !in tree.observed || IsSubject(tree, s) then None
    else if s !in tree.targets then Some(NoTarget)
    else if HasSeries(tree, s) then Some(BehindPeer)
    else Some(NoSeries)
  }

  /** No target has an index that is not intact. */
  ghost predicate Sound(tree: Tree) { forall s :: s in tree.targets && tree.Indexed(s) ==> tree.Intact(s) }

  /** Every observed symbol appears once: as a subject with its selected target, or missing for its reason. */
  ghost predicate Partitioned(tree: Tree, p: Proof) {
    && (forall i, j :: 0 <= i < j < |p.subjects| ==> p.subjects[i].symbol != p.subjects[j].symbol)
    && (forall i, j :: 0 <= i < j < |p.missing| ==> p.missing[i].symbol != p.missing[j].symbol)
    && (forall s :: IsSubject(tree, s) <==> exists x :: x in p.subjects && x.symbol == s)
    && (forall x :: x in p.subjects ==> x.symbol in tree.targets && x.target == tree.targets[x.symbol])
    && (forall s :: ReasonFor(tree, s).Some? <==> exists m :: m in p.missing && m.symbol == s)
    && (forall m :: m in p.missing ==> ReasonFor(tree, m.symbol) == Some(m.reason))
  }

  ghost predicate Acceptable(tree: Tree, p: Proof) {
    Sound(tree) && Partitioned(tree, p) && forall x :: x in p.subjects ==> DailyVerified(tree, x.symbol, x.daily)
  }

  // ---------- the common part ----------

  /** The targets' series, their latest prior day, and those behind it. */
  method Survey(tree: Tree) returns (r: Option<(map<string, Meta>, set<string>)>)
    requires tree.WellFormed()
    ensures r.Some? <==> Sound(tree)
    ensures r.Some? ==> Surveyed(tree, r.value.0, r.value.1)
  {
    hide LoadDaily, Tree.WellFormed, Tree.Intact, Tree.Indexed, Behind;
    var cache: map<string, Meta> := map[];
    var todo := tree.targets.Keys;
    while todo != {}
      invariant todo <= tree.targets.Keys
      invariant forall s :: s in tree.targets && s !in todo && tree.Indexed(s) ==> tree.Intact(s)
      invariant forall s :: s in cache <==> s !in todo && HasSeries(tree, s)
      invariant forall s :: s in cache ==> LoadDaily(tree, s) == Loaded(cache[s])
      decreases |todo|
    {
      var s :| s in todo;
      todo := todo - {s};
      LoadMeaning(tree, s);
      IntactIndexed(tree, s);
      var loaded := LoadDaily(tree, s);
      if loaded.Broken? { return None; }
      if loaded.Loaded? { cache := cache[s := loaded.meta]; }
    }
    var latest := LatestDay(cache);
    var behind := set s | s in cache && latest.Some? && cache[s].last < latest.value;
    forall s ensures s in behind <==> Behind(tree, s) {
      BehindMeaning(tree, s);
      if s in behind {
        var p :| p in cache && cache[p].last == latest.value;
        assert HasSeries(tree, p) && Later(tree, p, s);
      }
      if Behind(tree, s) {
        var p :| Later(tree, p, s);
        assert p in cache;
      }
    }
    return Some((cache, behind));
  }

  lemma IntactIndexed(tree: Tree, s: string)
    ensures tree.Intact(s) ==> tree.Indexed(s)
  {}

  method LatestDay(cache: map<string, Meta>) returns (latest: Option<int>)
    ensures latest.None? <==> cache == map[]
    ensures latest.Some? ==> (exists p :: p in cache && cache[p].last == latest.value)
                             && forall p :: p in cache ==> cache[p].last <= latest.value
  {
    latest := None;
    var todo := cache.Keys;
    while todo != {}
      invariant todo <= cache.Keys
      invariant latest.None? <==> todo == cache.Keys
      invariant latest.Some? ==> exists p :: p in cache && cache[p].last == latest.value
      invariant latest.Some? ==> forall p :: p in cache && p !in todo ==> cache[p].last <= latest.value
      decreases |todo|
    {
      var s :| s in todo;
      todo := todo - {s};
      if latest.None? || cache[s].last > latest.value { latest := Some(cache[s].last); }
    }
  }

  // ---------- the builder ----------

  const BENCHMARKS := {"SPY", "QQQ"}

  /** What `build_proof` needs of the tree: no target or benchmark series broken, and the
      metrics of every subject computable. */
  ghost predicate Buildable(tree: Tree) {
    && Sound(tree) && (forall b :: b in BENCHMARKS && tree.Indexed(b) ==> tree.Intact(b))
    && (forall s :: IsSubject(tree, s) ==> Computable(tree, s))
  }

  method Compose(tree: Tree) returns (r: Option<Proof>)
    requires tree.WellFormed()
    ensures r.Some? <==> Buildable(tree)
    ensures r.Some? ==> Acceptable(tree, r.value)
  {
    hide LoadDaily, Behind, Sound, Acceptable, IsSubject, Canonical, Surveyed, Tree.WellFormed, Tree.Intact, Tree.Indexed,
         Computable;
    LoadMeaning(tree, "SPY");
    LoadMeaning(tree, "QQQ");
    IntactIndexed(tree, "SPY");
    IntactIndexed(tree, "QQQ");
    if LoadDaily(tree, "SPY").Broken? || LoadDaily(tree, "QQQ").Broken? { return None; }
    var survey := Survey(tree);
    if survey.None? { return None; }
    var (cache, behind) := survey.value;
    r := Assemble(tree, cache, behind);
  }

  /** The rows of a proof, one per observed symbol. */
  method Assemble(tree: Tree, cache: map<string, Meta>, behind: set<string>) returns (p: Option<Proof>)
    requires tree.WellFormed() && Sound(tree) && Surveyed(tree, cache, behind)
    ensures p.Some? <==> forall s :: IsSubject(tree, s) ==> Computable(tree, s)
    ensures p.Some? ==> Acceptable(tree, p.value)
  {
    hide *;
    AssembledNone(tree);
    SubjectsObserved(tree);
    var body := Proof([], []);
    ghost var done: set<string> := {};
    var todo := tree.observed;
    while todo != {}
      invariant done !! todo && done + todo == tree.observed
      invariant Assembled(tree, done, body.subjects, body.missing)
      invariant forall s :: IsSubject(tree, s) && s !in todo ==> Computable(tree, s)
      decreases |todo|
    {
      var s :| s in todo;
      var next := AddRow(tree, cache, behind, done, body, s);
      if next.None? { return None; }
      body := next.value;
      done, todo := done + {s}, todo - {s};
    }
    assert done == tree.observed;
    AssembledAll(tree, body.subjects, body.missing);
    return Some(body);
  }

  /** One turn of the loop; it fails where the metrics of a subject cannot be computed. */
  method AddRow(tree: Tree, cache: map<string, Meta>, behind: set<string>, ghost done: set<string>, p: Proof, s: string)
    returns (r: Option<Proof>)
    requires tree.WellFormed() && Surveyed(tree, cache, behind) && Assembled(tree, done, p.subjects, p.missing)
    requires s in tree.observed && s !in done
    ensures r.None? <==> IsSubject(tree, s) && !Computable(tree, s)
    ensures r.Some? ==> Assembled(tree, done + {s}, r.value.subjects, r.value.missing)
  {
    hide *;
    SurveyedRow(tree, cache, behind, s);
    AssembledStep(tree, done, p.subjects, p.missing, s);
    if s !in tree.targets { return Some(Proof(p.subjects, p.missing + [Missing(s, NoTarget)])); }
    if s !in cache { return Some(Proof(p.subjects, p.missing + [Missing(s, NoSeries)])); }
    if s in behind { return Some(Proof(p.subjects, p.missing + [Missing(s, BehindPeer)])); }
    SubjectIntact(tree, s);
    MeasuredMeaning(tree, s);
    if !Measured(tree, s) { return None; }
    return Some(Proof(p.subjects + [Subject(s, tree.targets[s], cache[s])], p.missing));
  }

  lemma SubjectIntact(tree: Tree, s: string)
    requires IsSubject(tree, s)
    ensures tree.Intact(s)
  {}

  /** What the two passes over the targets found. */
  ghost predicate Surveyed(tree: Tree, cache: map<string, Meta>, behind: set<string>) {
    && (forall s :: s in cache <==> HasSeries(tree, s))
    && (forall s :: s in cache ==> LoadDaily(tree, s) == Loaded(cache[s]))
    && (forall s :: s in behind <==> Behind(tree, s))
  }

  lemma SubjectsObserved(tree: Tree)
    requires tree.WellFormed()
    ensures forall s :: IsSubject(tree, s) ==> s in tree.observed
  {}

  lemma SurveyedRow(tree: Tree, cache: map<string, Meta>, behind: set<string>, s: string)
    requires Surveyed(tree, cache, behind) && s in tree.observed
    ensures IsSubject(tree, s) <==> s in cache && s !in behind
    ensures s in cache ==> s in tree.targets && LoadDaily(tree, s) == Loaded(cache[s])
    ensures ReasonFor(tree, s) == (if s !in tree.targets then Some(NoTarget) else if s !in cache then Some(NoSeries)
                                   else if s in behind then Some(BehindPeer) else None)
  {}

  lemma AssembledNone(tree: Tree)
    ensures Assembled(tree, {}, [], [])
  {}

  /** The rows written so far are those of `done`. */
  ghost predicate Assembled(tree: Tree, done: set<string>, subjects: seq<Subject>, missing: seq<Missing>) {
    && (forall i, j :: 0 <= i < j < |subjects| ==> subjects[i].symbol != subjects[j].symbol)
    && (forall i, j :: 0 <= i < j < |missing| ==> missing[i].symbol != missing[j].symbol)
    && (forall s :: s in done && IsSubject(tree, s) <==> exists x :: x in subjects && x.symbol == s)
    && (forall x :: x in subjects ==> x.symbol in tree.targets && x.target == tree.targets[x.symbol]
                                      && LoadDaily(tree, x.symbol) == Loaded(x.daily))
    && (forall s :: s in done && ReasonFor(tree, s).Some? <==> exists m :: m in missing && m.symbol == s)
    && (forall m :: m in missing ==> ReasonFor(tree, m.symbol) == Some(m.reason))
  }

  lemma AssembledStep(tree: Tree, done: set<string>, subjects: seq<Subject>, missing: seq<Missing>, s: string)
    requires Assembled(tree, done, subjects, missing) && s in tree.observed && s !in done
    ensures ReasonFor(tree, s).Some? ==>
              Assembled(tree, done + {s}, subjects, missing + [Missing(s, ReasonFor(tree, s).value)])
    ensures IsSubject(tree, s) && LoadDaily(tree, s).Loaded? ==>
              s in tree.targets
              && Assembled(tree, done + {s}, subjects + [Subject(s, tree.targets[s], LoadDaily(tree, s).meta)], missing)
  {
    SubjectNoReason(tree, s);
    hide LoadDaily, IsSubject, ReasonFor;
  }

  lemma SubjectNoReason(tree: Tree, s: string)
    ensures IsSubject(tree, s) ==> ReasonFor(tree, s).None? && s in tree.targets
  {}

  lemma AssembledAll(tree: Tree, subjects: seq<Subject>, missing: seq<Missing>)
    requires tree.WellFormed() && Sound(tree) && Assembled(tree, tree.observed, subjects, missing)
    ensures Acceptable(tree, Proof(subjects, missing))
  {
    SubjectsObserved(tree);
    ReasonsObserved(tree);
    forall x | x in subjects ensures DailyVerified(tree, x.symbol, x.daily) {
      LoadedVerified(tree, x.symbol, x.daily);
    }
    hide LoadDaily, IsSubject, ReasonFor, DailyVerified, Sound, Tree.WellFormed;
  }

  lemma LoadedVerified(tree: Tree, s: string, meta: Meta)
    requires tree.WellFormed() && s in tree.targets && LoadDaily(tree, s) == Loaded(meta)
    ensures DailyVerified(tree, s, meta)
  {
    LoadMeaning(tree, s);
    assert Canonical(s);
    hide MetaAt, Describes;
  }

  // ---------- the verifier ----------

  /** Subject identities, in order. */
  method SubjectSymbols(subjects: seq<Subject>) returns (r: Option<set<string>>)
    ensures r.Some? <==> && (forall x :: x in subjects ==> Canonical(x.symbol))
                         && (forall i, j :: 0 <= i < j < |subjects| ==> subjects[i].symbol != subjects[j].symbol)
    ensures r.Some? ==> forall s :: s in r.value <==> exists x :: x in subjects && x.symbol == s
  {
    var symbols: set<string> := {};
    for i := 0 to |subjects|
      invariant forall k :: 0 <= k < i ==> Canonical(subjects[k].symbol) && subjects[k].symbol in symbols
      invariant forall j, k :: 0 <= j < k < i ==> subjects[j].symbol != subjects[k].symbol
      invariant forall s :: s in symbols ==> exists k :: 0 <= k < i && subjects[k].symbol == s
    {
      var s := subjects[i].symbol;
      if !Canonical(s) || s in symbols {
        assert subjects[i] in subjects;
        return None;
      }
      symbols := symbols + {s};
    }
    return Some(symbols);
  }

  method MissingReasons(missing: seq<Missing>, subjects: set<string>) returns (r: Option<map<string, Reason>>)
    ensures r.Some? <==> && (forall m :: m in missing ==> Canonical(m.symbol) && m.symbol !in subjects)
                         && (forall i, j :: 0 <= i < j < |missing| ==> missing[i].symbol != missing[j].symbol)
    ensures r.Some? ==> forall s :: s in r.value <==> exists m :: m in missing && m.symbol == s
    ensures r.Some? ==> forall m :: m in missing ==> r.value[m.symbol] == m.reason
  {
    var reasons: map<string, Reason> := map[];
    for i := 0 to |missing|
      invariant forall k :: 0 <= k < i ==> Canonical(missing[k].symbol) && missing[k].symbol !in subjects
      invariant forall k :: 0 <= k < i ==> missing[k].symbol in reasons && reasons[missing[k].symbol] == missing[k].reason
      invariant forall j, k :: 0 <= j < k < i ==> missing[j].symbol != missing[k].symbol
      invariant forall s :: s in reasons ==> exists k :: 0 <= k < i && missing[k].symbol == s
    {
      var s := missing[i].symbol;
      if !Canonical(s) || s in reasons || s in subjects {
        assert missing[i] in missing;
        return None;
      }
      reasons := reasons[s := missing[i].reason];
    }
    return Some(reasons);
  }

  /** The verifier's pass over the partition, the targets and the daily identities. */
  method VerifyBody(tree: Tree, p: Proof) returns (ok: bool)
    requires tree.WellFormed()
    ensures ok <==> Acceptable(tree, p)
  {
    hide Surveyed, LoadDaily, Behind, HasSeries, ReasonFor, IsSubject, Canonical;
    var survey := Survey(tree);
    if survey.None? { return false; }
    var (cache, behind) := survey.value;
    var symbols := SubjectSymbols(p.subjects);
    if Partitioned(tree, p) { PartitionCanonical(tree, p); }
    if symbols.None? { return false; }
    var reasons := MissingReasons(p.missing, symbols.value);
    if reasons.None? { return false; }
    var expected := map s | s in tree.observed && !(s in cache && s !in behind) ::
                      if s !in tree.targets then NoTarget else if s in behind then BehindPeer else NoSeries;
    var subjects := set s | s in cache && s !in behind;
    SubjectsObserved(tree);
    ReasonsObserved(tree);
    CachedObserved(tree, cache, behind);
    forall s ensures (s in subjects <==> IsSubject(tree, s)) && (s in expected <==> ReasonFor(tree, s).Some?)
                     && (s in expected ==> ReasonFor(tree, s) == Some(expected[s])) {
      hide *;
      if s in tree.observed { SurveyedRow(tree, cache, behind, s); }
    }
    PartitionIff(tree, p, symbols.value, reasons.value, subjects, expected);
    if reasons.value != expected || symbols.value != subjects { return false; }
    forall x | x in p.subjects ensures DailyChecked(tree, x.symbol, x.daily) <==> DailyVerified(tree, x.symbol, x.daily) {
      CheckedMeaning(tree, x.symbol, x.daily);
    }
    hide DailyChecked, DailyVerified;
    ok := forall x :: x in p.subjects ==> x.symbol in tree.targets && x.target == tree.targets[x.symbol]
                                          && DailyChecked(tree, x.symbol, x.daily);
  }

  lemma ReasonsObserved(tree: Tree)
    ensures forall s :: ReasonFor(tree, s).Some? ==> s in tree.observed
  {}

  lemma CachedObserved(tree: Tree, cache: map<string, Meta>, behind: set<string>)
    requires tree.WellFormed() && Surveyed(tree, cache, behind)
    ensures cache.Keys <= tree.observed && behind <= cache.Keys
  {}

  lemma PartitionIff(tree: Tree, p: Proof, symbols: set<string>, reasons: map<string, Reason>, subjects: set<string>,
                     expected: map<string, Reason>)
    requires forall i, j :: 0 <= i < j < |p.subjects| ==> p.subjects[i].symbol != p.subjects[j].symbol
    requires forall i, j :: 0 <= i < j < |p.missing| ==> p.missing[i].symbol != p.missing[j].symbol
    requires forall s :: s in symbols <==> exists x :: x in p.subjects && x.symbol == s
    requires forall s :: s in reasons <==> exists m :: m in p.missing && m.symbol == s
    requires forall m :: m in p.missing ==> reasons[m.symbol] == m.reason
    requires forall s :: s in subjects <==> IsSubject(tree, s)
    requires forall s :: s in expected <==> ReasonFor(tree, s).Some?
    requires forall s :: s in expected ==> ReasonFor(tree, s) == Some(expected[s])
    ensures Partitioned(tree, p) <==>
              && reasons == expected && symbols == subjects
              && forall x :: x in p.subjects ==> x.symbol in tree.targets && x.target == tree.targets[x.symbol]
  {}

  // ---------- the pinned snapshot ----------

  const STAGES := {"open_30m", "open_60m", "close"}

  /** A stage snapshot with the qualified observations of its captures, in the order they are
      read; none if a capture or a field of a fact fails its check. */
  datatype Snapshot = Snapshot(blob: string, id: string, tradeDay: int, stage: string, stamped: bool,
                               observations: Option<T.Observations>, observed: set<string>)
  {
    /** Every fact names a symbol in upper case. */
    predicate WellFormed() {
      (forall s :: s in observed ==> Canonical(s)) && (observations.Some? ==> T.Symbols(observations.value) <= observed)
    }

    /** Target selection by the rule of the stage ends in `targets`. */
    ghost predicate Selects(targets: map<string, Candidate>) {
      && stage in STAGES && observations.Some?
      && if stage == "close" then T.CloseWalk(observations.value).Ok? && targets == Held(T.CloseWalk(observations.value).value)
         else T.OpenOutcome(observations.value, Ok(targets))
    }

    ghost function Targets(): Option<map<string, Candidate>> {
      if targets :| Selects(targets) then Some(targets) else None
    }
  }

  function Held(m: T.Chosen): map<string, Candidate> { map s | s in m :: m[s].candidate }

  /** Selection has one result. */
  lemma TargetsAre(s: Snapshot, targets: map<string, Candidate>)
    requires s.Selects(targets)
    ensures s.Targets() == Some(targets)
  {
    var chosen := s.Targets().value;
    if s.stage != "close" { T.OpenOrderFree(s.observations.value, s.observations.value, Ok(targets), Ok(chosen)); }
  }

  lemma TargetsObserved(s: Snapshot)
    requires s.WellFormed() && s.Targets().Some?
    ensures s.Targets().value.Keys <= s.observed
  {
    T.CloseMeaning(s.observations.value);
  }

  /** `_target_observations`. */
  method Select(s: Snapshot) returns (r: Option<map<string, Candidate>>)
    ensures r == s.Targets()
  {
    if s.stage !in STAGES || s.observations.None? { return None; }
    if s.stage == "close" {
      var chosen := T.CloseTargets(s.observations.value);
      if chosen.Fail? { return None; }
      r := Some(Held(chosen.value));
      TargetsAre(s, r.value);
    } else {
      var open := T.OpenTargets(s.observations.value);
      if open.Fail? { return None; }
      r := Some(open.value);
      TargetsAre(s, r.value);
    }
  }

  /** Of two snapshots of a stage whose captures are read in different orders, both select the
      same targets or one of them selects none; the latter happens at Close only. */
  lemma TargetsReordered(a: Snapshot, b: Snapshot)
    requires a.stage == b.stage && a.observations.Some? && b.observations.Some?
    requires T.Permuted(a.observations.value, b.observations.value)
    ensures a.Targets().Some? && b.Targets().Some? ==> a.Targets() == b.Targets()
    ensures a.stage != "close" ==> a.Targets() == b.Targets()
  {
    if a.stage == "close" {
      if a.Targets().Some? && b.Targets().Some? { T.CloseSuccessesAgree(a.observations.value, b.observations.value); }
    } else {
      OpenTargetsAgree(a, b);
      OpenTargetsAgree(b, a);
    }
  }

  lemma OpenTargetsAgree(a: Snapshot, b: Snapshot)
    requires a.stage == b.stage && a.stage != "close" && a.observations.Some? && b.observations.Some?
    requires T.Permuted(a.observations.value, b.observations.value)
    ensures a.Targets().Some? ==> a.Targets() == b.Targets()
  {
    if a.Targets().Some? {
      var targets := a.Targets().value;
      T.OpenOutcomePermuted(a.observations.value, b.observations.value, Ok(targets));
      TargetsAre(b, targets);
    }
  }

  // ---------- the pinned snapshot ----------

  datatype SnapshotRef = SnapshotRef(path: string, blob: string, id: string)

  /** The Store at one commit; `latest` holds the path and blob a stage's pointer names. */
  datatype Store = Store(latest: map<(int, string), (string, string)>, snapshots: map<string, Snapshot>,
                         files: map<string, File>)
  {
    ghost predicate WellFormed() {
      && (forall path :: path in snapshots ==> snapshots[path].WellFormed())
      && forall path :: path in files && files[path].index.rows.Some? ==> Ascending(files[path].index.rows.value)
    }

    ghost predicate Selects(path: string) { path in snapshots && snapshots[path].Targets().Some? }

    ghost function TreeAt(path: string): Tree
      requires Selects(path)
    {
      Tree(snapshots[path].tradeDay, snapshots[path].Targets().value, snapshots[path].observed, files)
    }

    /** The pointer of a stage names a snapshot of that day and stage. */
    predicate Points(day: int, stage: string) {
      && (day, stage) in latest
      && var (path, blob) := latest[(day, stage)];
      && path in snapshots && snapshots[path].stamped
      && snapshots[path].blob == blob && snapshots[path].tradeDay == day && snapshots[path].stage == stage
    }
  }

  lemma TreeWellFormed(store: Store, path: string)
    requires store.WellFormed() && store.Selects(path)
    ensures store.TreeAt(path).WellFormed()
  {
    TargetsObserved(store.snapshots[path]);
  }

  datatype Document = Document(tradeDay: int, stage: string, snapshot: SnapshotRef, proof: Proof)

  /** The proof is about exactly the snapshot it names. */
  predicate Pinned(store: Store, d: Document) {
    && d.snapshot.path in store.snapshots
    && var s := store.snapshots[d.snapshot.path];
    && s.blob == d.snapshot.blob && s.id == d.snapshot.id && s.tradeDay == d.tradeDay && s.stage == d.stage
  }

  ghost predicate Accepted(store: Store, d: Document) {
    Pinned(store, d) && store.Selects(d.snapshot.path) && Acceptable(store.TreeAt(d.snapshot.path), d.proof)
  }

  /** `build_proof`, its own verification included: it never fails on what was built. */
  method Build(store: Store, day: int, stage: string) returns (r: Option<Document>)
    requires store.WellFormed()
    ensures r.Some? <==> stage in STAGES && store.Points(day, stage) && store.Selects(store.latest[(day, stage)].0)
                         && Buildable(store.TreeAt(store.latest[(day, stage)].0))
    ensures r.Some? ==> r.value.tradeDay == day && r.value.stage == stage && Accepted(store, r.value)
  {
    hide Buildable, Acceptable, Tree.WellFormed, Snapshot.WellFormed, Snapshot.Targets;
    if stage !in STAGES || !store.Points(day, stage) { return None; }
    var (path, blob) := store.latest[(day, stage)];
    var targets := Select(store.snapshots[path]);
    if targets.None? { return None; }
    TreeWellFormed(store, path);
    var s := store.snapshots[path];
    var proof := Compose(Tree(s.tradeDay, targets.value, s.observed, store.files));
    if proof.None? { return None; }
    var d := Document(day, stage, SnapshotRef(path, blob, s.id), proof.value);
    var ok := Verify(store, d);
    if !ok { return None; }
    return Some(d);
  }

  /** `verify_proof_source_blobs`: it accepts exactly the proofs of the snapshot they name
      whose partition, targets and daily identities are those of the tree. */
  method Verify(store: Store, d: Document) returns (ok: bool)
    requires store.WellFormed()
    ensures ok <==> Accepted(store, d)
  {
    hide Acceptable, Tree.WellFormed, Snapshot.WellFormed, Snapshot.Targets;
    if !Pinned(store, d) { return false; }
    var s := store.snapshots[d.snapshot.path];
    var targets := Select(s);
    if targets.None? { return false; }
    TreeWellFormed(store, d.snapshot.path);
    ok := VerifyBody(Tree(s.tradeDay, targets.value, s.observed, store.files), d.proof);
  }

  /** Every subject of `p` is one of `q` with the same target, every missing row one of `q`. */
  ghost predicate Covered(p: Proof, q: Proof) {
    && (forall x :: x in p.subjects ==> exists y :: y in q.subjects && y.symbol == x.symbol && y.target == x.target)
    && (forall m :: m in p.missing ==> m in q.missing)
  }

  /** Accepted proofs agree on subjects, targets and missing reasons, even when the
      snapshots they are about read the same observations in different orders. */
  lemma ReorderedProofsAgree(store: Store, d: Document, e: Document)
    requires Accepted(store, d) && Accepted(store, e)
    requires var a, b := store.snapshots[d.snapshot.path], store.snapshots[e.snapshot.path];
             && a.tradeDay == b.tradeDay && a.stage == b.stage && a.observed == b.observed
             && a.observations.Some? && b.observations.Some? && T.Permuted(a.observations.value, b.observations.value)
    ensures Covered(d.proof, e.proof) && Covered(e.proof, d.proof)
  {
    var a, b := store.snapshots[d.snapshot.path], store.snapshots[e.snapshot.path];
    TargetsReordered(a, b);
    PartitionCovers(store.TreeAt(d.snapshot.path), d.proof, e.proof);
    PartitionCovers(store.TreeAt(d.snapshot.path), e.proof, d.proof);
  }

  /** Every accepted proof of a snapshot has the builder's subjects, targets, and missing
      reasons, whatever index paths it declares. */
  lemma AcceptedAgreesWithBuilt(store: Store, accepted: Document, built: Document)
    requires Accepted(store, accepted) && Accepted(store, built) && accepted.snapshot.path == built.snapshot.path
    ensures accepted.snapshot == built.snapshot && accepted.tradeDay == built.tradeDay && accepted.stage == built.stage
    ensures Covered(accepted.proof, built.proof) && Covered(built.proof, accepted.proof)
  {
    PartitionCovers(store.TreeAt(built.snapshot.path), accepted.proof, built.proof);
    PartitionCovers(store.TreeAt(built.snapshot.path), built.proof, accepted.proof);
  }

  /** A subject or a missing row of one accepted proof is in every other. */
  lemma PartitionCovers(tree: Tree, p: Proof, q: Proof)
    requires Partitioned(tree, p) && Partitioned(tree, q)
    ensures Covered(p, q)
  {
    forall x | x in p.subjects ensures exists y :: y in q.subjects && y.symbol == x.symbol && y.target == x.target {
      assert IsSubject(tree, x.symbol);
      var y :| y in q.subjects && y.symbol == x.symbol;
    }
    forall m | m in p.missing ensures m in q.missing {
      assert ReasonFor(tree, m.symbol).Some?;
      var n :| n in q.missing && n.symbol == m.symbol;
    }
  }

  /** A partitioned proof names only observed, hence canonical, symbols, each once. */
  lemma PartitionCanonical(tree: Tree, p: Proof)
    requires tree.WellFormed() && Partitioned(tree, p)
    ensures forall x :: x in p.subjects ==> Canonical(x.symbol)
    ensures forall m :: m in p.missing ==> Canonical(m.symbol) && !IsSubject(tree, m.symbol)
  {}
}
