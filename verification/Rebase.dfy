/** Explicit audited rebase: how many rows to request, which to keep, when a
    replacement is acceptable, and how it is archived and written. */
module Rebase {
  import opened Bars
  import opened Shards
  import opened SeriesStore
  import opened StoreLaws

  datatype RebaseError =
    | NoSeries | Unreadable(e: StoreError) | ExistingEmpty | BadTarget | FutureDate | HistoryTooLong
    | TooFewRows | BadBar | ReplacementEmpty | DuplicateDates | MissingDates | RevisionOutsideTail | TooManyRevisions
    | ArchiveExists | TooLarge

  // ---------- how much to request ----------

  const REQUEST_LIMIT := 5000

  function Max(a: int, b: int): (m: int)
    ensures a <= m && b <= m && m in {a, b}
  {
    if a < b then b else a
  }

  function Min(a: int, b: int): (m: int)
    ensures m <= a && m <= b && m in {a, b}
  {
    if a < b then a else b
  }

  /** `_replacement_history_outputsize`: calendar spans that cover the stored
      history, and the target plus the days the cutoff will exclude. */
  function OutputSize(existing: seq<Bar>, cutoff: int, target: int, today: int): Result<nat, RebaseError> {
    if existing == [] then Fail(ExistingEmpty)
    else if target < 1 then Fail(BadTarget)
    else if today < cutoff then Fail(FutureDate)
    else
      var size := Max(target + (today - cutoff) + 1, today - existing[0].day + 1);
      if size > REQUEST_LIMIT then Fail(HistoryTooLong) else Ok(size)
  }

  /** What the provider answers: its latest `n` rows. */
  function Latest(history: seq<Bar>, n: int): seq<Bar> {
    if n >= |history| then history else if n <= 0 then [] else history[|history| - n..]
  }

  /** The window `rebase` keeps: every eligible row from the oldest stored date on,
      reaching further back only to meet the target. */
  function SelectWindow(existing: seq<Bar>, fetched: seq<Bar>, effective: Option<int>, cutoff: int, target: int)
    : Result<seq<Bar>, RebaseError>
    requires existing != [] && target >= 1
  {
    var eligible := Between(fetched, effective, cutoff);
    if |eligible| < target && effective.None? then Fail(TooFewRows)
    else if eligible == [] then Ok([])
    else
      var targetStart := Latest(eligible, target)[0].day;
      Ok(Between(eligible, Some(Min(existing[0].day, targetStart)), cutoff))
  }

  // ---------- accepting a replacement ----------

  datatype Revision = Revision(was: Bar, now: Bar)

  /** The positions of the stored rows a replacement changes. */
  ghost function ChangedRows(was: seq<Bar>, now: seq<Bar>): set<int> { set i | 0 <= i < |was| && was[i] !in now }

  /** The list has exactly the stored rows the replacement changes, once each and in date
      order, each with the row that replaces it. */
  ghost predicate ListsChanges(was: seq<Bar>, now: seq<Bar>, v: seq<Revision>) {
    && (forall x :: x in v ==> x.was in was && x.now in now && x.was.day == x.now.day && x.was != x.now)
    && (forall a, b :: a in was && b in now && a.day == b.day && a != b ==> Revision(a, b) in v)
    && (forall i, j :: 0 <= i < j < |v| ==> v[i].was.day < v[j].was.day)
    && |v| == |ChangedRows(was, now)|
  }

  /** The stored rows whose replacement differs, in date order. */
  function Revisions(existing: seq<Bar>, replacement: seq<Bar>): (r: seq<Revision>)
    requires Days(existing) <= Days(replacement)
    ensures |r| <= |existing|
  {
    if existing == [] then []
    else
      var init, b := existing[..|existing| - 1], existing[|existing| - 1];
      assert existing == init + [b];
      assert b.day in Days(existing);
      Revisions(init, replacement) + RevisionOf(b, replacement)
  }

  function RevisionOf(b: Bar, replacement: seq<Bar>): (r: seq<Revision>)
    requires b.day in Days(replacement)
    ensures |r| <= 1
  {
    match Find(replacement, b.day)
    case Some(now) => if now == b then [] else [Revision(b, now)]
    case None => []
  }

  /** How many of the oldest rows a rebase may not touch: those with at least `tail` later
      rows, and at least one. */
  function Settled(count: nat, tail: int): (n: nat)
    ensures n <= count
    ensures n > 0 ==> count - n >= tail && count - n >= 1
    ensures n < count ==> count - n - 1 < tail || count - n - 1 < 1
  {
    if count <= Max(1, tail) then 0 else count - Max(1, tail)
  }

  function Validated(existing: seq<Bar>, replacement: seq<Bar>, limit: int, tail: int)
    : Result<seq<Revision>, RebaseError>
  {
    if existing == [] then Fail(ExistingEmpty)
    else if replacement == [] then Fail(ReplacementEmpty)
    else
      var e, n := SortByDay(existing), SortByDay(replacement);
      if |Days(n)| != |n| then Fail(DuplicateDates)
      else if !(Days(e) <= Days(n)) then Fail(MissingDates)
      else
        var revisions := Revisions(e, n);
        var allowed := Days(e[Settled(|e|, tail)..]);
        if exists v :: v in revisions && v.was.day !in allowed then Fail(RevisionOutsideTail)
        else if |revisions| > limit then Fail(TooManyRevisions)
        else Ok(revisions)
  }

  /** `validate_replacement`. */
  method ValidateReplacement(existing: seq<Bar>, replacement: seq<Bar>, limit: int, tail: int)
    returns (r: Result<seq<Revision>, RebaseError>)
    ensures r == Validated(existing, replacement, limit, tail)
    ensures r.Ok? && Ascending(existing) ==> ListsChanges(existing, replacement, r.value)
  {
    if Ascending(existing) { ValidatedMeaning(existing, replacement, limit, tail); }
    hide ListsChanges;
    if existing == [] { return Fail(ExistingEmpty); }
    if replacement == [] { return Fail(ReplacementEmpty); }
    var e, n := SortByDay(existing), SortByDay(replacement);
    if |Days(n)| != |n| { return Fail(DuplicateDates); }
    if !(Days(e) <= Days(n)) { return Fail(MissingDates); }
    var revisions := CompareOverlap(e, n, Days(e[Settled(|e|, tail)..]));
    if revisions.Fail? { return revisions; }
    if |revisions.value| > limit { return Fail(TooManyRevisions); }
    return revisions;
  }

  /** The comparison loop: collect the revisions, refuse one outside the allowed dates. */
  method CompareOverlap(e: seq<Bar>, n: seq<Bar>, allowed: set<int>) returns (r: Result<seq<Revision>, RebaseError>)
    requires Days(e) <= Days(n)
    ensures r == if exists v :: v in Revisions(e, n) && v.was.day !in allowed then Fail(RevisionOutsideTail)
                 else Ok(Revisions(e, n))
  {
    hide Revisions, RevisionOf, Days;
    var revisions: seq<Revision> := [];
    var i := 0;
    DaysPrefix(e, 0);
    RevisionsNone(n);
    while i < |e|
      invariant 0 <= i <= |e|
      invariant Days(e[..i]) <= Days(n)
      invariant revisions == Revisions(e[..i], n)
      invariant forall v :: v in revisions ==> v.was.day in allowed
    {
      DaysPrefix(e, i + 1);
      RevisionsStep(e, n, i);
      var one := RevisionOf(e[i], n);
      if one != [] && e[i].day !in allowed {
        assert one[0] in Revisions(e[..i + 1], n);
        RevisionsGrow(e, n, i + 1, one[0]);
        return Fail(RevisionOutsideTail);
      }
      revisions := revisions + one;
      i := i + 1;
    }
    assert e[..|e|] == e;
    return Ok(revisions);
  }

  lemma RevisionsNone(n: seq<Bar>)
    ensures Revisions([], n) == []
  {}

  lemma RevisionsStep(e: seq<Bar>, n: seq<Bar>, i: nat)
    requires i < |e| && Days(e[..i]) <= Days(n) && Days(e[..i + 1]) <= Days(n)
    ensures e[i].day in Days(n)
    ensures Revisions(e[..i + 1], n) == Revisions(e[..i], n) + RevisionOf(e[i], n)
    ensures forall v :: v in RevisionOf(e[i], n) ==> v.was == e[i]
  {
    assert e[..i + 1][..i] == e[..i];
    assert e[..i + 1][i].day in Days(e[..i + 1]);
  }

  lemma DaysPrefix(rows: seq<Bar>, n: nat)
    requires n <= |rows|
    ensures Days(rows[..n]) <= Days(rows)
  {}

  lemma RevisionsGrow(e: seq<Bar>, n: seq<Bar>, i: nat, v: Revision)
    requires i <= |e| && Days(e) <= Days(n) && Days(e[..i]) <= Days(n) && v in Revisions(e[..i], n)
    ensures v in Revisions(e, n)
    decreases |e| - i
  {
    if i == |e| {
      assert e[..i] == e;
    } else {
      assert e[..i + 1][..i] == e[..i];
      DaysPrefix(e, i + 1);
      RevisionsGrow(e, n, i + 1, v);
    }
  }

  /** Each revision pairs a changed stored row with its replacement, and each changed row is listed. */
  lemma {:induction false} RevisionsMeaning(e: seq<Bar>, n: seq<Bar>)
    requires Days(e) <= Days(n) && DistinctDays(n)
    ensures forall v :: v in Revisions(e, n) ==> v.was in e && v.now in n && v.now.day == v.was.day && v.now != v.was
    ensures forall b :: b in e && b !in n ==> exists v :: v in Revisions(e, n) && v.was == b
    ensures forall b :: b in e && b in n ==> forall v :: v in Revisions(e, n) ==> v.was != b
    decreases |e|
  {
    if e != [] {
      var init, b := e[..|e| - 1], e[|e| - 1];
      assert e == init + [b];
      DaysPrefix(e, |e| - 1);
      RevisionsMeaning(init, n);
      assert b.day in Days(e);
      if b in n { FindMember(n, b); }
      forall x | x in e && x !in n ensures exists v :: v in Revisions(e, n) && v.was == x {
        if x in init {
          var v :| v in Revisions(init, n) && v.was == x;
          assert v in Revisions(e, n);
        } else {
          assert RevisionOf(b, n)[0] in Revisions(e, n);
        }
      }
    }
  }

  lemma {:induction false} RevisionsAscend(e: seq<Bar>, n: seq<Bar>)
    requires Ascending(e) && Days(e) <= Days(n) && DistinctDays(n)
    ensures var v := Revisions(e, n);
            && (forall i, j :: 0 <= i < j < |v| ==> v[i].was.day < v[j].was.day)
            && (forall x :: x in v ==> x.was in e)
            && |v| == |ChangedRows(e, n)|
    decreases |e|
  {
    if e != [] {
      var init, b := e[..|e| - 1], e[|e| - 1];
      hide *;
      BeforeLast(e);
      DaysPrefix(e, |e| - 1);
      DaysPrefix(e, |e|);
      RevisionsAscend(init, n);
      RevisionsStep(e, n, |e| - 1);
      ChangedStep(init, b, n);
      OneRow(b, n);
      RevisionsJoin(Revisions(init, n), RevisionOf(b, n), b);
    }
  }

  lemma BeforeLast(e: seq<Bar>)
    requires Ascending(e) && e != []
    ensures var init, b := e[..|e| - 1], e[|e| - 1];
            Ascending(init) && e == init + [b] && e[..|e| - 1 + 1] == e && forall x :: x in init ==> x.day < b.day
  {}

  lemma RevisionsJoin(v: seq<Revision>, last: seq<Revision>, b: Bar)
    requires forall i, j :: 0 <= i < j < |v| ==> v[i].was.day < v[j].was.day
    requires (forall x :: x in v ==> x.was.day < b.day) && (forall x :: x in last ==> x.was == b) && |last| <= 1
    ensures forall i, j :: 0 <= i < j < |v + last| ==> (v + last)[i].was.day < (v + last)[j].was.day
  {
    forall i, j | 0 <= i < j < |v + last| ensures (v + last)[i].was.day < (v + last)[j].was.day {
      if j >= |v| { assert v[i] in v && last[0] in last; }
    }
  }

  lemma ChangedStep(init: seq<Bar>, b: Bar, n: seq<Bar>)
    ensures |ChangedRows(init + [b], n)| == |ChangedRows(init, n)| + if b in n then 0 else 1
  {
    assert ChangedRows(init + [b], n) == ChangedRows(init, n) + if b in n then {} else {|init|};
  }

  lemma OneRow(b: Bar, n: seq<Bar>)
    requires b.day in Days(n) && DistinctDays(n)
    ensures |RevisionOf(b, n)| == if b in n then 0 else 1
    ensures forall v :: v in RevisionOf(b, n) ==> v.was == b
  {
    if b in n { FindMember(n, b); }
  }

  /** What the comparison returns lists the changes. */
  lemma RevisionsList(e: seq<Bar>, n: seq<Bar>)
    requires Ascending(e) && Days(e) <= Days(n) && DistinctDays(n)
    ensures ListsChanges(e, n, Revisions(e, n))
  {
    RevisionsMeaning(e, n);
    RevisionsAscend(e, n);
    hide Revisions;
    forall a, b | a in e && b in n && a.day == b.day && a != b ensures Revision(a, b) in Revisions(e, n) {
      FindMember(n, b);
      if a in n { FindMember(n, a); }
      var v :| v in Revisions(e, n) && v.was == a;
      FindMember(n, v.now);
    }
  }

  /** A replacement that covers every stored date once, changes nothing that has `tail` later
      rows, and at least one, and changes at most `limit` rows. */
  ghost predicate Acceptable(was: seq<Bar>, now: seq<Bar>, limit: int, tail: int) {
    && was != [] && now != [] && DistinctDays(now)
    && (forall a :: a in was ==> exists b :: b in now && b.day == a.day)
    && (forall i :: 0 <= i < |was| && |was| - 1 - i >= tail && |was| - 1 - i >= 1 ==> was[i] in now)
    && |ChangedRows(was, now)| <= limit
  }

  /** That is when a replacement is accepted; the answer then lists exactly the changes. */
  lemma ValidatedMeaning(existing: seq<Bar>, replacement: seq<Bar>, limit: int, tail: int)
    requires Ascending(existing)
    ensures Validated(existing, replacement, limit, tail).Ok? <==> Acceptable(existing, replacement, limit, tail)
    ensures Validated(existing, replacement, limit, tail).Ok? ==>
              ListsChanges(existing, replacement, Validated(existing, replacement, limit, tail).value)
  {
    var e, n := existing, SortByDay(replacement);
    hide SortByDay, Validated, Revisions, ListsChanges, ChangedRows, DistinctDays, Days, Ascending;
    ValidatedSorted(existing, replacement, limit, tail);
    if Validated(existing, replacement, limit, tail).Ok? { ValidatedList(existing, replacement, limit, tail); }
    SortedRows(replacement);
    CoversDays(e, replacement);
    assert n == [] <==> replacement == [];
    if Days(e) <= Days(n) && DistinctDays(n) {
      RevisionsAscend(e, n);
      RevisionsList(e, n);
      ListsSame(e, n, replacement, Revisions(e, n));
    }
  }

  lemma CoversDays(was: seq<Bar>, now: seq<Bar>)
    ensures Days(was) <= Days(now) <==> forall a :: a in was ==> exists b :: b in now && b.day == a.day
  {
    if Days(was) <= Days(now) {
      forall a | a in was ensures exists b :: b in now && b.day == a.day {
        DayMember(was, a);
        var i :| 0 <= i < |now| && now[i].day == a.day;
        assert now[i] in now;
      }
    }
    if forall a :: a in was ==> exists b :: b in now && b.day == a.day {
      forall d | d in Days(was) ensures d in Days(now) {
        var i :| 0 <= i < |was| && was[i].day == d;
        var b :| b in now && b.day == was[i].day;
        DayMember(now, b);
      }
    }
  }

  lemma ListsSame(was: seq<Bar>, n: seq<Bar>, now: seq<Bar>, v: seq<Revision>)
    requires forall b :: b in n <==> b in now
    ensures ChangedRows(was, n) == ChangedRows(was, now) && (ListsChanges(was, n, v) <==> ListsChanges(was, now, v))
  {}

  lemma ValidatedList(existing: seq<Bar>, replacement: seq<Bar>, limit: int, tail: int)
    requires Ascending(existing) && Validated(existing, replacement, limit, tail).Ok?
    ensures var n := SortByDay(replacement);
            Days(existing) <= Days(n) && Validated(existing, replacement, limit, tail).value == Revisions(existing, n)
  {
    SortFixed(existing);
  }

  lemma ValidatedSorted(existing: seq<Bar>, replacement: seq<Bar>, limit: int, tail: int)
    requires Ascending(existing)
    ensures var e := existing; var n := SortByDay(replacement);
            Validated(existing, replacement, limit, tail).Ok? <==>
            && e != [] && n != [] && DistinctDays(n) && Days(e) <= Days(n)
            && (forall i :: 0 <= i < Settled(|e|, tail) ==> e[i] in n)
            && |Revisions(e, n)| <= limit
  {
    var e, n := existing, SortByDay(replacement);
    SortFixed(e);
    DaysCount(n);
    ValidatedCases(existing, replacement, limit, tail);
    assert n == [] <==> replacement == [];
    hide *;
    if e != [] && n != [] && DistinctDays(n) && Days(e) <= Days(n) {
      TailOnly(e, n, Settled(|e|, tail));
    }
  }

  lemma ValidatedCases(existing: seq<Bar>, replacement: seq<Bar>, limit: int, tail: int)
    ensures var e, n := SortByDay(existing), SortByDay(replacement);
            Validated(existing, replacement, limit, tail).Ok? <==>
            && existing != [] && replacement != [] && |Days(n)| == |n| && Days(e) <= Days(n)
            && (!exists v :: v in Revisions(e, n) && v.was.day !in Days(e[Settled(|e|, tail)..]))
            && |Revisions(e, n)| <= limit
  {}

  lemma TailOnly(e: seq<Bar>, n: seq<Bar>, k: nat)
    requires Ascending(e) && Days(e) <= Days(n) && DistinctDays(n) && k <= |e|
    ensures (forall i :: 0 <= i < k ==> e[i] in n)
       <==> !exists v :: v in Revisions(e, n) && v.was.day !in Days(e[k..])
  {
    RevisionsMeaning(e, n);
    hide Revisions, Days;
    forall i | 0 <= i < |e| ensures e[i].day in Days(e[k..]) <==> k <= i {
      DayInTail(e, k, i);
    }
    if forall i :: 0 <= i < k ==> e[i] in n {
      forall v | v in Revisions(e, n) ensures v.was.day in Days(e[k..]) {
        var i :| 0 <= i < |e| && e[i] == v.was;
      }
    } else {
      var i :| 0 <= i < k && e[i] !in n;
      var v :| v in Revisions(e, n) && v.was == e[i];
      assert v.was.day !in Days(e[k..]);
    }
  }

  lemma DayInTail(e: seq<Bar>, k: nat, i: nat)
    requires Ascending(e) && k <= |e| && i < |e|
    ensures e[i].day in Days(e[k..]) <==> k <= i
  {}

  // ---------- the request covers what the window needs ----------

  lemma MaxBounds(a: int, b: int)
    ensures a <= Max(a, b) && b <= Max(a, b)
  {}

  /** The first position dated `day` or later. */
  lemma {:induction false} Position(rows: seq<Bar>, day: int) returns (k: nat)
    requires Ascending(rows)
    ensures k <= |rows|
    ensures forall i :: 0 <= i < |rows| ==> (k <= i <==> day <= rows[i].day)
    decreases |rows|
  {
    if rows == [] || rows[|rows| - 1].day < day {
      k := |rows|;
    } else {
      k := Position(rows[..|rows| - 1], day);
      assert forall i :: 0 <= i < |rows| - 1 ==> rows[..|rows| - 1][i] == rows[i];
    }
  }

  ghost predicate UpTo(history: seq<Bar>, today: int) {
    forall b :: b in history ==> b.day <= today
  }

  /** No stored date falls out of the request: for a provider with at most one row a
      calendar day and none after today, the answer holds every row from the oldest
      stored date on. */
  lemma RequestCoversHistory(history: seq<Bar>, existing: seq<Bar>, cutoff: int, target: int, today: int, b: Bar)
    requires Ascending(history) && UpTo(history, today)
    requires OutputSize(existing, cutoff, target, today).Ok?
    requires b in history && existing[0].day <= b.day
    ensures b in Latest(history, OutputSize(existing, cutoff, target, today).value)
  {
    var n := OutputSize(existing, cutoff, target, today).value;
    MaxBounds(target + (today - cutoff) + 1, today - existing[0].day + 1);
    var i :| 0 <= i < |history| && history[i] == b;
    AscendingGap(history, i, |history| - 1);
    assert history[|history| - 1] in history;
    if n < |history| {
      assert Latest(history, n)[i - (|history| - n)] == b;
    }
  }

  lemma LatestSuffix(history: seq<Bar>, n: nat)
    ensures var s := if n >= |history| then 0 else |history| - n; Latest(history, n) == history[s..]
    ensures Ascending(history) ==> Ascending(Latest(history, n))
  {}

  /** The excluded days never eat into the target: after the cutoff and identity
      filters the answer still holds `target` rows, or all the provider has. */
  lemma RequestCoversTarget(history: seq<Bar>, existing: seq<Bar>, effective: Option<int>, cutoff: int, target: int,
                            today: int)
    requires Ascending(history) && UpTo(history, today)
    requires OutputSize(existing, cutoff, target, today).Ok?
    ensures var answer := Latest(history, OutputSize(existing, cutoff, target, today).value);
            |Between(answer, effective, cutoff)| >= Min(target, |Between(history, effective, cutoff)|)
  {
    var n := OutputSize(existing, cutoff, target, today).value;
    MaxBounds(target + (today - cutoff) + 1, today - existing[0].day + 1);
    var s, c := LatestBeforeCutoff(history, cutoff, today, n);
    StretchFrom(history, effective, cutoff, s, c);
  }

  /** Where the answer starts and where the cutoff falls: at most one row a day is excluded. */
  lemma LatestBeforeCutoff(history: seq<Bar>, cutoff: int, today: int, n: nat) returns (s: nat, c: nat)
    requires Ascending(history) && UpTo(history, today) && cutoff <= today && n >= (today - cutoff) + 1
    ensures s <= c <= |history| && Latest(history, n) == history[s..]
    ensures forall i :: 0 <= i < |history| ==> (c <= i <==> cutoff <= history[i].day)
    ensures s == 0 || c - s >= n - (today - cutoff) - 1
  {
    s := if n >= |history| then 0 else |history| - n;
    LatestSuffix(history, n);
    c := Position(history, cutoff);
    if c < |history| {
      AscendingGap(history, c, |history| - 1);
      assert history[|history| - 1] in history;
    }
  }

  /** How many rows of a suffix fall in the window that ends at position `c`. */
  lemma StretchFrom(rows: seq<Bar>, effective: Option<int>, cutoff: int, s: nat, c: nat)
    requires Ascending(rows) && s <= c <= |rows|
    requires forall i :: 0 <= i < |rows| ==> (c <= i <==> cutoff <= rows[i].day)
    ensures var below := |Between(rows, effective, cutoff)|;
            |Between(rows[s..], effective, cutoff)| == Min(below, c - s) && below <= c
  {
    var l := WindowStart(rows, effective, cutoff, c);
    BetweenStretch(rows, effective, cutoff, l, c);
    var from := Max(l, s);
    forall i | 0 <= i < |rows| - s ensures from - s <= i < c - s <==> Within(rows[s..][i].day, effective, cutoff) {
      assert rows[s..][i] == rows[s + i];
    }
    BetweenStretch(rows[s..], effective, cutoff, from - s, c - s);
  }

  lemma WindowStart(rows: seq<Bar>, effective: Option<int>, cutoff: int, c: nat) returns (l: nat)
    requires Ascending(rows) && c <= |rows|
    requires forall i :: 0 <= i < |rows| ==> (c <= i <==> cutoff <= rows[i].day)
    ensures l <= c && forall i :: 0 <= i < |rows| ==> (l <= i < c <==> Within(rows[i].day, effective, cutoff))
  {
    l := 0;
    if effective.Some? { l := Position(rows, effective.value); }
    if c < l { l := c; }
  }

  lemma LatestRows(rows: seq<Bar>, n: int)
    requires Ascending(rows) && rows != [] && n >= 1
    ensures Latest(rows, n) != []
    ensures forall b :: b in rows && Latest(rows, n)[0].day <= b.day ==> b in Latest(rows, n)
    ensures forall b :: b in Latest(rows, n) ==> b in rows && Latest(rows, n)[0].day <= b.day
  {}

  /** The selected window is every eligible row from the oldest stored date on, and
      no eligible row is skipped inside it. */
  lemma WindowKeeps(existing: seq<Bar>, fetched: seq<Bar>, effective: Option<int>, cutoff: int, target: int)
    requires existing != [] && target >= 1 && Ascending(fetched)
    requires SelectWindow(existing, fetched, effective, cutoff, target).Ok?
    ensures var rows := SelectWindow(existing, fetched, effective, cutoff, target).value;
            && Ascending(rows)
            && (forall b :: b in rows ==> b in fetched && Within(b.day, effective, cutoff))
            && (forall b :: b in fetched && Within(b.day, effective, cutoff) && existing[0].day <= b.day ==> b in rows)
            && |rows| >= Min(target, |Between(fetched, effective, cutoff)|)
  {
    var eligible := Between(fetched, effective, cutoff);
    BetweenAscending(fetched, effective, cutoff);
    if eligible != [] {
      LatestRows(eligible, target);
      var first := Latest(eligible, target)[0].day;
      WindowSize(eligible, Min(existing[0].day, first), cutoff, target);
    }
  }

  lemma WindowSize(eligible: seq<Bar>, lo: int, cutoff: int, target: int)
    requires Ascending(eligible) && eligible != [] && target >= 1 && Latest(eligible, target) != []
    requires lo <= Latest(eligible, target)[0].day
    requires forall b :: b in eligible ==> b.day < cutoff
    ensures Ascending(Between(eligible, Some(lo), cutoff))
    ensures |Between(eligible, Some(lo), cutoff)| >= Min(target, |eligible|)
  {
    LatestSuffix(eligible, target);
    var s := if target >= |eligible| then 0 else |eligible| - target;
    assert eligible[s..][0] == eligible[s];
    BetweenAscending(eligible, Some(lo), cutoff);
    var k := Position(eligible, lo);
    assert k <= s;
    forall i | 0 <= i < |eligible| ensures k <= i < |eligible| <==> Within(eligible[i].day, Some(lo), cutoff) {
      assert eligible[i] in eligible;
    }
    BetweenStretch(eligible, Some(lo), cutoff, k, |eligible|);
  }

  /** End to end, a rebase finds every stored date again if and only if the provider still has
      it and it is eligible: nothing else is cut off by the request or the window. A stored
      row dated at or after the cutoff, or before the effective date, is reported missing
      although the provider returns it. */
  lemma MissingMeansLostOrIneligible(history: seq<Bar>, existing: seq<Bar>, effective: Option<int>, cutoff: int,
                                     target: int, today: int)
    requires Ascending(history) && UpTo(history, today) && Ascending(existing)
    requires OutputSize(existing, cutoff, target, today).Ok?
    requires var fetched := Latest(history, OutputSize(existing, cutoff, target, today).value);
             SelectWindow(existing, fetched, effective, cutoff, target).Ok?
    ensures var fetched := Latest(history, OutputSize(existing, cutoff, target, today).value);
            var rows := SelectWindow(existing, fetched, effective, cutoff, target).value;
            Days(existing) <= Days(rows) <==>
            Days(existing) <= Days(history) && forall b :: b in existing ==> Within(b.day, effective, cutoff)
  {
    var fetched := Latest(history, OutputSize(existing, cutoff, target, today).value);
    var rows := SelectWindow(existing, fetched, effective, cutoff, target).value;
    LatestSuffix(history, OutputSize(existing, cutoff, target, today).value);
    WindowKeeps(existing, fetched, effective, cutoff, target);
    forall b | b in existing ensures existing[0].day <= b.day { OldestFirst(existing, b); }
    forall b | b in history && existing[0].day <= b.day ensures b in fetched {
      RequestCoversHistory(history, existing, cutoff, target, today, b);
    }
    assert forall b :: b in rows ==> b in history && Within(b.day, effective, cutoff);
    hide SelectWindow, Latest, OutputSize, Ascending, UpTo, Within;
    SameDays(existing, rows, history, effective, cutoff);
  }

  lemma OldestFirst(rows: seq<Bar>, b: Bar)
    requires Ascending(rows) && b in rows
    ensures rows[0].day <= b.day
  {}

  lemma SameDays(existing: seq<Bar>, rows: seq<Bar>, history: seq<Bar>, effective: Option<int>, cutoff: int)
    requires existing != [] && forall b :: b in existing ==> existing[0].day <= b.day
    requires forall b :: b in rows ==> b in history && Within(b.day, effective, cutoff)
    requires forall b :: b in history && Within(b.day, effective, cutoff) && existing[0].day <= b.day ==> b in rows
    ensures Days(existing) <= Days(rows) <==>
            Days(existing) <= Days(history) && forall b :: b in existing ==> Within(b.day, effective, cutoff)
  {
    if Days(existing) <= Days(rows) {
      forall b | b in existing ensures Within(b.day, effective, cutoff) { DayMember(existing, b); }
    }
  }

  // ---------- writing the replacement ----------

  const DEFAULT_RECORD_LIMIT := 128
  const DEFAULT_BYTE_LIMIT := 24576

  /** An index without limits, or with zero, falls back to the defaults. */
  function Effective(limits: Limits): (e: Limits)
    ensures e.records != 0 && e.bytes != 0
    ensures limits.records != 0 && limits.bytes != 0 ==> e == limits
    ensures limits == Limits(0, 0) ==> e == Limits(128, 24576)
  {
    Limits(if limits.records == 0 then DEFAULT_RECORD_LIMIT else limits.records,
           if limits.bytes == 0 then DEFAULT_BYTE_LIMIT else limits.bytes)
  }

  function Paths(metas: seq<Meta>): set<int> { set i | 0 <= i < |metas| :: metas[i].path }

  /** The disk after every old shard is unlinked, the new ones are written, and the index replaced. */
  function Rewritten(p: Packer, was: Disk, index: Index, rows: seq<Bar>, lineage: seq<Segment>): Disk
    requires rows != []
  {
    var docs := p.Pack(index.identity.Series(), 0, rows).docs;
    Disk(Apply(was.files - Paths(index.shards), Puts(docs)),
         Some(index.(recordCount := |rows|, first := Some(rows[0].day), last := Some(rows[|rows| - 1].day),
                     shards := Metas(p.size, docs), lineage := lineage)))
  }

  /** The durable states of the unlink loop: one per shard file that was there. */
  function UnlinkSteps(was: Disk, metas: seq<Meta>): seq<Disk> {
    if metas == [] then []
    else
      var init, path := metas[..|metas| - 1], metas[|metas| - 1].path;
      UnlinkSteps(was, init)
      + if path in was.files - Paths(init) then [Disk(was.files - Paths(metas), was.index)] else []
  }

  /** The old shards gone, the index not yet replaced. */
  function Bare(was: Disk, index: Index): Disk { Disk(was.files - Paths(index.shards), was.index) }

  /** Every durable state of a rewrite before the index write, in order. */
  function RewriteSteps(was: Disk, index: Index, docs: seq<Doc>): seq<Disk> {
    UnlinkSteps(was, index.shards) + Steps(Bare(was, index), Puts(docs))
  }

  /** Its inner loop: rows from `start` on, as long as the candidate document fits. */
  method TakeShard(size: Doc -> nat, id: SeriesId, rows: seq<Bar>, start: nat, limits: Limits)
    returns (take: seq<Bar>, cursor: nat)
    requires start <= |rows|
    ensures start <= cursor <= |rows| && take == rows[start..cursor]
    ensures |take| == Packer(size, limits).Grow(Doc(id, start, []), rows[start..])
  {
    ghost var p, empty := Packer(size, limits), Doc(id, start, []);
    take, cursor := [], start;
    while cursor < |rows|
      invariant start <= cursor <= |rows| && take == rows[start..cursor]
      invariant p.Grow(empty, rows[start..]) == p.GrowFrom(empty, rows[start..], cursor - start)
    {
      var candidate := Doc(id, start, take + [rows[cursor]]);
      assert rows[start..][..cursor - start + 1] == take + [rows[cursor]];
      assert candidate == empty.Plus(rows[start..][..cursor - start + 1]);
      if |candidate.records| <= limits.records && size(candidate) <= limits.bytes {
        take := take + [rows[cursor]];
        cursor := cursor + 1;
      } else {
        break;
      }
    }
  }

  /** `_build_shards`. */
  method BuildShards(size: Doc -> nat, id: SeriesId, rows: seq<Bar>, limits: Limits)
    returns (ok: bool, docs: seq<Doc>, metas: seq<Meta>)
    ensures var cut := Packer(size, limits).Pack(id, 0, rows);
            ok == cut.complete && (ok ==> docs == cut.docs && metas == Metas(size, cut.docs))
  {
    hide Packer.Pack, Packer.Fits, Packer.Grow, Metas;
    ghost var p := Packer(size, limits);
    ghost var all := p.Pack(id, 0, rows);
    docs, metas := [], [];
    var cursor := 0;
    assert rows[0..] == rows;
    while cursor < |rows|
      invariant 0 <= cursor <= |rows|
      invariant var rest := p.Pack(id, cursor, rows[cursor..]);
                all == Packing(docs + rest.docs, rest.complete)
      invariant all.complete ==> metas == Metas(size, all.docs)[..|docs|]
    {
      var start := cursor;
      var take;
      take, cursor := TakeShard(size, id, rows, start, limits);
      if take == [] {
        p.PackHalt(id, start, rows[start..]);
        assert docs + [] == docs;
        return false, docs, metas;
      }
      var doc := Doc(id, start, take);
      p.PackStep(id, start, rows[start..], |take|);
      assert rows[start..][..|take|] == take && rows[start..][|take|..] == rows[cursor..];
      ghost var rest := p.Pack(id, cursor, rows[cursor..]);
      assert docs + ([doc] + rest.docs) == docs + [doc] + rest.docs;
      MetasStep(size, all.docs, |docs|);
      if all.complete { PackEmpty(p, id, cursor, rows[cursor..]); }
      docs := docs + [doc];
      metas := metas + [ShardMeta(size, start, start, doc, cursor < |rows|)];
    }
    assert rows[cursor..] == [];
    p.PackNone(id, cursor);
    assert docs + [] == docs && Metas(size, docs)[..|docs|] == Metas(size, docs);
    return true, docs, metas;
  }

  /** The tail shared by both rewriting writers: unlink, write, then replace the index. */
  method RewriteFiles(dir: SeriesDir, index: Index, docs: seq<Doc>, next: Index)
    requires dir.index == Some(index)
    modifies dir
    ensures dir.files == Apply(old(dir.files) - Paths(index.shards), Puts(docs)) && dir.index == Some(next)
    ensures dir.trail == old(dir.trail) + RewriteSteps(old(dir.Now()), index, docs) + [dir.Now()]
  {
    hide Apply, Puts, Steps;
    ghost var was := dir.Now();
    var i := 0;
    while i < |index.shards|
      invariant 0 <= i <= |index.shards|
      invariant dir.files == was.files - Paths(index.shards[..i]) && dir.index == Some(index)
      invariant dir.trail == old(dir.trail) + UnlinkSteps(was, index.shards[..i])
    {
      assert index.shards[..i + 1][..i] == index.shards[..i];
      assert Paths(index.shards[..i + 1]) == Paths(index.shards[..i]) + {index.shards[i].path};
      assert was.files - Paths(index.shards[..i + 1]) == dir.files - {index.shards[i].path};
      if index.shards[i].path in dir.files {
        dir.Unlink(index.shards[i].path);
      }
      i := i + 1;
    }
    assert index.shards[..i] == index.shards;
    ghost var bare, mark := dir.Now(), dir.trail;
    NoPuts(bare);
    i := 0;
    while i < |docs|
      invariant 0 <= i <= |docs|
      invariant dir.files == Apply(bare.files, Puts(docs[..i])) && dir.index == Some(index)
      invariant dir.trail == mark + Steps(bare, Puts(docs[..i]))
    {
      PutsSnoc(bare, docs[..i], docs[i]);
      assert docs[..i + 1] == docs[..i] + [docs[i]];
      dir.PutShard(docs[i].start, docs[i]);
      i := i + 1;
    }
    assert docs[..i] == docs;
    dir.PutIndex(next);
  }

  /** `_replace_series`: all shards are cut before the first file is touched. */
  method ReplaceSeries(dir: SeriesDir, index: Index, records: seq<Bar>) returns (ok: bool)
    requires dir.index == Some(index) && records != []
    modifies dir
    ensures var p, rows := Packer(dir.size, Effective(index.limits)), SortByDay(records);
            && ok == p.Pack(index.identity.Series(), 0, rows).complete
            && (!ok ==> dir.Now() == old(dir.Now()) && dir.trail == old(dir.trail))
            && (ok ==> dir.Now() == Rewritten(p, old(dir.Now()), index, rows, [Segment("rebase", 0, |rows| - 1)]))
            && (ok ==> dir.trail == old(dir.trail)
                                    + RewriteSteps(old(dir.Now()), index, p.Pack(index.identity.Series(), 0, rows).docs)
                                    + [dir.Now()])
  {
    hide Packer.Pack, Apply, Puts, Metas, SortByDay, RewriteSteps;
    var rows := SortByDay(records);
    var docs, metas;
    ok, docs, metas := BuildShards(dir.size, index.identity.Series(), rows, Effective(index.limits));
    if !ok { return; }
    var next := index.(recordCount := |rows|, first := Some(rows[0].day), last := Some(rows[|rows| - 1].day),
                       shards := metas, lineage := [Segment("rebase", 0, |rows| - 1)]);
    RewriteFiles(dir, index, docs, next);
  }

  /** A rewritten series is canonical: the same cut an append history of the same rows would have. */
  lemma RewrittenCanonical(p: Packer, was: Disk, index: Index, rows: seq<Bar>, lineage: seq<Segment>)
    requires rows != [] && Ascending(rows) && p.Pack(index.identity.Series(), 0, rows).complete
    ensures Canonical(p, Rewritten(p, was, index, rows, lineage), rows)
    ensures ReadDisk(p.size, Rewritten(p, was, index, rows, lineage)) == Ok(rows)
  {
    var id := index.identity.Series();
    var docs := p.Pack(id, 0, rows).docs;
    hide Packer.Pack, Flatten, Contiguous, Apply, Puts;
    p.PackShape(id, 0, rows);
    p.PackCarries(id, 0, rows);
    assert rows[..|rows|] == rows;
    ApplyContiguous(was.files - Paths(index.shards), docs, id, 0);
    CanonicalReads(p, Rewritten(p, was, index, rows, lineage), rows);
  }

  // ---------- an interrupted rewrite ----------

  lemma {:induction false} UnlinkStates(was: Disk, metas: seq<Meta>)
    ensures forall d :: d in UnlinkSteps(was, metas) ==>
              d.index == was.index && exists i :: 0 <= i < |metas| && metas[i].path !in d.files
    ensures metas != [] && metas[0].path in was.files ==> UnlinkSteps(was, metas) != []
  {
    if metas != [] {
      var init := metas[..|metas| - 1];
      UnlinkStates(was, init);
      forall d | d in UnlinkSteps(was, metas) ensures exists i :: 0 <= i < |metas| && metas[i].path !in d.files {
        if d in UnlinkSteps(was, init) {
          var i :| 0 <= i < |init| && init[i].path !in d.files;
          assert metas[i].path !in d.files;
        } else {
          assert metas[|metas| - 1].path in Paths(metas);
        }
      }
      if init == [] { assert Paths(init) == {} && was.files - {} == was.files; }
    }
  }

  /** Every state of a rewrite before the last write carries the old index. */
  lemma RewriteKeepsIndex(was: Disk, index: Index, docs: seq<Doc>)
    ensures forall d :: d in RewriteSteps(was, index, docs) ==> d.index == was.index
  {
    UnlinkStates(was, index.shards);
  }

  /** No torn read while a series is rewritten: stop it anywhere before the index write,
      and the next reader fails or reads exactly the old rows. */
  lemma RewriteNeverTorn(size: Doc -> nat, before: Disk, docs: seq<Doc>, crashed: Disk)
    requires before.index.Some? && ReadDisk(size, before).Ok?
    requires crashed in RewriteSteps(before, before.index.value, docs)
    ensures ReadDisk(size, crashed).Fail? || ReadDisk(size, crashed) == ReadDisk(size, before)
  {
    RewriteKeepsIndex(before, before.index.value, docs);
    OldIndexOldRows(size, before, crashed);
  }

  /** Once the first old shard is unlinked and until a new one is written, nothing reads. */
  lemma MidUnlinkUnreadable(size: Doc -> nat, before: Disk, crashed: Disk)
    requires before.index.Some? && crashed in UnlinkSteps(before, before.index.value.shards)
    ensures ReadDisk(size, crashed).Fail?
  {
    var ix := before.index.value;
    UnlinkStates(before, ix.shards);
    var i :| 0 <= i < |ix.shards| && ix.shards[i].path !in crashed.files;
    UnreadableWithout(size, ix.identity.Series(), crashed.files, ix.shards, i);
  }

  lemma {:induction false} UnreadableWithout(size: Doc -> nat, id: SeriesId, files: map<int, Doc>, metas: seq<Meta>, i: nat)
    requires i < |metas| && metas[i].path !in files
    ensures ReadShards(size, id, files, metas).Fail?
    decreases |metas|
  {
    if i > 0 { UnreadableWithout(size, id, files, metas[1..], i - 1); }
  }

  /** Contiguous lists from one start: if every document of one is in the other, it is a prefix. */
  lemma {:induction false} ContiguousPrefix(a: seq<Doc>, b: seq<Doc>, id: SeriesId, start: int)
    requires Contiguous(a, id, start) && Contiguous(b, id, start) && forall d :: d in a ==> d in b
    ensures a <= b
    decreases |a|
  {
    if a != [] {
      var next := start + |a[0].records|;
      assert a[0] in b;
      assert b != [];
      FirstAtStart(b, id, start, a[0]);
      ContiguousRange(a[1..], id, next);
      forall d | d in a[1..] ensures d in b[1..] {
        assert d in a && d.start >= next > start;
        var k :| 0 <= k < |b| && b[k] == d;
        assert b[1..][k - 1] == d;
      }
      ContiguousPrefix(a[1..], b[1..], id, next);
      assert a == [a[0]] + a[1..] && b == [b[0]] + b[1..];
    }
  }

  lemma FirstAtStart(b: seq<Doc>, id: SeriesId, start: int, d: Doc)
    requires Contiguous(b, id, start) && d in b && d.start == start
    ensures b[0] == d
  {
    var first, rest := b[0], b[1..];
    ContiguousRange(rest, id, start + |first.records|);
    assert b == [first] + rest;
  }

  /** Exactly when a directory reads again while the new shards are written under the old
      index: once they begin with every old shard. */
  lemma RewrittenPartReads(size: Doc -> nat, before: Disk, docs: seq<Doc>, part: seq<Doc>)
    requires Stored(size, before, docs) && Contiguous(part, before.index.value.identity.Series(), 0)
    ensures var ix := before.index.value;
            ReadDisk(size, Disk(Apply(Bare(before, ix).files, Puts(part)), before.index)).Ok? <==> docs <= part
  {
    hide Contiguous, Flatten, Apply, Puts, Ascending;
    var ix := before.index.value;
    var id := ix.identity.Series();
    var bare := Bare(before, ix).files;
    var files := Apply(bare, Puts(part));
    var crashed := Disk(files, before.index);
    ApplyContiguous(bare, part, id, 0);
    if docs <= part {
      assert forall d :: d in docs ==> d in part;
      ContiguousReads(size, id, files, docs, ix.shards, 0);
      assert ReadDisk(size, crashed) == Ok(Flatten(docs));
    }
    if ReadDisk(size, crashed).Ok? {
      forall d | d in docs ensures d in part {
        var i :| 0 <= i < |docs| && docs[i] == d;
        ReadsMatch(size, id, files, ix.shards, i);
        assert ix.shards[i].path == d.start && files[d.start] == d;
        assert d.start in Paths(ix.shards);
        WrittenByPart(bare, part, d.start);
      }
      ContiguousPrefix(docs, part, id, 0);
    }
  }

  lemma WrittenByPart(bare: map<int, Doc>, part: seq<Doc>, path: int)
    requires path !in bare && path in Apply(bare, Puts(part)) && OnDisk(Apply(bare, Puts(part)), part)
    ensures Apply(bare, Puts(part))[path] in part
  {
    ApplyDepends(bare, bare, Puts(part));
    var i :| 0 <= i < |Puts(part)| && Puts(part)[i].path == path;
    assert part[i] in part && part[i].start == path;
  }

  /** Exactly when an interrupted rewrite leaves a directory that reads, in the order of its
      states: never while the old shards are unlinked, and after `j` writes if and only if
      the `j` new shards begin with every old one. A rewrite that changes any old shard is
      therefore unreadable from its first unlink to its index write. */
  lemma MidRewriteReadable(size: Doc -> nat, before: Disk, docs: seq<Doc>, next: seq<Doc>, k: nat)
    requires Stored(size, before, docs) && Contiguous(next, before.index.value.identity.Series(), 0)
    requires k < |RewriteSteps(before, before.index.value, next)|
    ensures var ix := before.index.value; var unlinked := |UnlinkSteps(before, ix.shards)|;
            && unlinked > 0 && |RewriteSteps(before, ix, next)| == unlinked + |next|
            && (ReadDisk(size, RewriteSteps(before, ix, next)[k]).Ok? <==> k >= unlinked && docs <= next[..k - unlinked + 1])
  {
    hide *;
    StoredHasIndex(size, before, docs);
    var ix := before.index.value;
    var id := ix.identity.Series();
    var unlinks := UnlinkSteps(before, ix.shards);
    UnlinksSomething(size, before, docs);
    RewriteState(before, ix, next, k);
    if k < |unlinks| {
      MidUnlinkUnreadable(size, before, unlinks[k]);
    } else {
      var j := k - |unlinks| + 1;
      assert next == next[..j] + next[j..];
      ContiguousConcat(next[..j], next[j..], id, 0);
      RewrittenPartReads(size, before, docs, next[..j]);
    }
  }

  lemma RewriteState(was: Disk, index: Index, docs: seq<Doc>, k: nat)
    requires k < |RewriteSteps(was, index, docs)|
    ensures var states, unlinks := RewriteSteps(was, index, docs), UnlinkSteps(was, index.shards);
            && |states| == |unlinks| + |docs|
            && (k < |unlinks| ==> states[k] == unlinks[k])
            && (k >= |unlinks| ==> states[k] == Disk(Apply(Bare(was, index).files, Puts(docs[..k - |unlinks| + 1])), was.index))
  {
    hide *;
    var unlinks, bare := UnlinkSteps(was, index.shards), Bare(was, index);
    RewriteParts(was, index, docs);
    PutCount(bare, docs);
    if k >= |unlinks| {
      PutState(bare, docs, k - |unlinks|);
      assert RewriteSteps(was, index, docs)[k] == Steps(bare, Puts(docs))[k - |unlinks|];
    }
  }

  lemma RewriteParts(was: Disk, index: Index, docs: seq<Doc>)
    ensures RewriteSteps(was, index, docs) == UnlinkSteps(was, index.shards) + Steps(Bare(was, index), Puts(docs))
    ensures Bare(was, index).index == was.index
  {}

  lemma PutCount(disk: Disk, docs: seq<Doc>)
    ensures |Steps(disk, Puts(docs))| == |docs|
  {}

  lemma PutState(disk: Disk, docs: seq<Doc>, i: nat)
    requires i < |docs|
    ensures i < |Steps(disk, Puts(docs))|
    ensures Steps(disk, Puts(docs))[i] == Disk(Apply(disk.files, Puts(docs[..i + 1])), disk.index)
  {
    PutsPrefix(docs, i + 1);
  }

  lemma StoredHasIndex(size: Doc -> nat, disk: Disk, docs: seq<Doc>)
    requires Stored(size, disk, docs)
    ensures disk.index.Some? && Flatten(docs) != [] && Ascending(Flatten(docs))
  {}

  lemma UnlinksSomething(size: Doc -> nat, before: Disk, docs: seq<Doc>)
    requires Stored(size, before, docs)
    ensures UnlinkSteps(before, before.index.value.shards) != []
  {
    assert docs != [];
    assert docs[0] in docs;
    UnlinkStates(before, before.index.value.shards);
  }

  /** So a rewrite that does not keep every old shard reads nowhere before its index write. */
  lemma ChangedRewriteUnreadable(size: Doc -> nat, before: Disk, docs: seq<Doc>, next: seq<Doc>, crashed: Disk)
    requires Stored(size, before, docs) && Contiguous(next, before.index.value.identity.Series(), 0) && !(docs <= next)
    requires crashed in RewriteSteps(before, before.index.value, next)
    ensures ReadDisk(size, crashed).Fail?
  {
    var states := RewriteSteps(before, before.index.value, next);
    var k :| 0 <= k < |states| && states[k] == crashed;
    MidRewriteReadable(size, before, docs, next, k);
    PrefixOfPrefix(docs, next);
  }

  lemma PrefixOfPrefix(a: seq<Doc>, b: seq<Doc>)
    ensures forall j :: 0 <= j <= |b| && a <= b[..j] ==> a <= b
  {
    forall j | 0 <= j <= |b| && a <= b[..j] ensures a <= b {
      assert b == b[..j] + b[j..];
    }
  }

  // ---------- the whole maintenance operation ----------

  /** The old logical series, kept before the first file is replaced. */
  datatype Archive = Archive(index: Index, rows: seq<Bar>, revisions: seq<Revision>, replacementCount: int)

  /** A replacement row must carry all five numeric fields. */
  predicate FullBar(b: Bar) {
    && WellFormed(b)
    && forall f :: f in {"open", "high", "low", "close", "volume"} ==> f in b.fields && b.fields[f].Numeric()
  }

  datatype Settings = Settings(target: int, limit: int, tail: int)

  /** What a rebase would archive and write, decided before it touches anything. */
  function PlanRebase(size: Doc -> nat, disk: Disk, archived: bool, answer: nat -> seq<Bar>, effective: Option<int>,
                      cutoff: int, today: int, cfg: Settings): Result<(seq<Bar>, Archive), RebaseError>
  {
    match disk.index
    case None => Fail(NoSeries)
    case Some(index) =>
      match ReadRows(size, disk.files, index)
      case Fail(e) => Fail(Unreadable(e))
      case Ok(existing) =>
        match OutputSize(existing, cutoff, cfg.target, today)
        case Fail(e) => Fail(e)
        case Ok(n) =>
          match SelectWindow(existing, SortByDay(answer(n)), effective, cutoff, cfg.target)
          case Fail(e) => Fail(e)
          case Ok(rows) =>
            if exists b :: b in rows && !FullBar(b) then Fail(BadBar)
            else
              match Validated(existing, rows, cfg.limit, cfg.tail)
              case Fail(e) => Fail(e)
              case Ok(revisions) =>
                if archived then Fail(ArchiveExists)
                else Ok((rows, Archive(index, existing, revisions, |rows|)))
  }

  /** An archive left by a rebase whose cut failed stands in the way of the next rebase
      with the same cutoff, whatever the provider then answers. */
  lemma LeftoverArchiveBlocks(size: Doc -> nat, disk: Disk, answer: nat -> seq<Bar>, effective: Option<int>, cutoff: int,
                              today: int, cfg: Settings)
    ensures PlanRebase(size, disk, true, answer, effective, cutoff, today, cfg).Fail?
    ensures PlanRebase(size, disk, false, answer, effective, cutoff, today, cfg).Ok? ==>
              PlanRebase(size, disk, true, answer, effective, cutoff, today, cfg) == Fail(ArchiveExists)
  {
    hide SortByDay, SelectWindow, Validated, OutputSize, ReadRows, FullBar;
  }

  /** One series directory together with its recovery archives by trade date. */
  class RebaseJob {
    const dir: SeriesDir
    var archives: map<int, Archive>
    /** For each archive, the position in the directory's trail from which on it is on disk. */
    ghost var since: map<int, nat>

    constructor (dir: SeriesDir)
      ensures this.dir == dir && archives == map[] && since == map[]
    {
      this.dir, archives, since := dir, map[], map[];
    }

    /** The archives on disk when the directory was in the state at position `k` of its trail. */
    ghost function ArchivesAt(k: nat): map<int, Archive>
      reads this
    {
      map c | c in archives && c in since && since[c] <= k :: archives[c]
    }

    /** `_archive_old_series`, once the name is known to be free. */
    method WriteArchive(cutoff: int, archive: Archive)
      modifies this
      ensures archives == old(archives)[cutoff := archive] && since == old(since)[cutoff := |dir.trail|]
    {
      archives := archives[cutoff := archive];
      since := since[cutoff := |dir.trail|];
    }

    /** The body of `rebase` for one symbol. The archive is written before the first
        unlink: the old rows are archived in every state the call puts on disk. */
    method Rebase(answer: nat -> seq<Bar>, effective: Option<int>, cutoff: int, today: int, cfg: Settings)
      returns (r: Result<int, RebaseError>)
      modifies this, dir
      ensures var was := old(dir.Now());
              match PlanRebase(dir.size, was, cutoff in old(archives), answer, effective, cutoff, today, cfg)
              case Fail(e) =>
                r == Fail(e) && dir.Now() == was && dir.trail == old(dir.trail)
                && archives == old(archives) && since == old(since)
              case Ok((rows, archive)) =>
                var p, sorted := Packer(dir.size, Effective(archive.index.limits)), SortByDay(rows);
                var cut := p.Pack(archive.index.identity.Series(), 0, sorted);
                && rows != [] && archives == old(archives)[cutoff := archive]
                && archive.index == was.index.value && ReadDisk(dir.size, was) == Ok(archive.rows)
                // the archive lists every row the replacement changes, and the result is their number
                && ListsChanges(archive.rows, rows, archive.revisions) && archive.replacementCount == |rows|
                && (r.Ok? ==> r.value == |ChangedRows(archive.rows, rows)|)
                && (r.Ok? <==> cut.complete)
                && (r.Ok? ==> r.value == |archive.revisions|
                              && dir.Now() == Rewritten(p, was, archive.index, sorted, [Segment("rebase", 0, |sorted| - 1)])
                              && dir.trail == old(dir.trail) + RewriteSteps(was, archive.index, cut.docs) + [dir.Now()])
                && (r.Fail? ==> r == Fail(TooLarge) && dir.Now() == was && dir.trail == old(dir.trail))
                && (forall k :: |old(dir.trail)| <= k < |dir.trail| ==>
                      cutoff in ArchivesAt(k) && ArchivesAt(k)[cutoff] == archive)
    {
      hide SortByDay, SelectWindow, Validated, OutputSize, ReadRows, Packer.Pack, FullBar, RewriteSteps, ListsChanges,
           Ascending, Acceptable;
      if dir.index.None? { return Fail(NoSeries); }
      var index := dir.index.value;
      var loaded := dir.ReadAll(index);
      if loaded.Fail? { return Fail(Unreadable(loaded.error)); }
      var existing := loaded.value;
      ReadAscends(dir.size, dir.files, index);
      var size := OutputSize(existing, cutoff, cfg.target, today);
      if size.Fail? { return Fail(size.error); }
      SizeNeeds(existing, cutoff, cfg.target, today);
      var window := SelectWindow(existing, SortByDay(answer(size.value)), effective, cutoff, cfg.target);
      if window.Fail? { return Fail(window.error); }
      var rows := window.value;
      if exists b :: b in rows && !FullBar(b) { return Fail(BadBar); }
      var checked := ValidateReplacement(existing, rows, cfg.limit, cfg.tail);
      if checked.Fail? { return Fail(checked.error); }
      NonEmptyReplacement(existing, rows, cfg.limit, cfg.tail);
      ListsAll(existing, rows, checked.value);
      if cutoff in archives { return Fail(ArchiveExists); }
      WriteArchive(cutoff, Archive(index, existing, checked.value, |rows|));
      var ok := ReplaceSeries(dir, index, rows);
      if !ok { return Fail(TooLarge); }
      return Ok(|checked.value|);
    }
  }

  lemma ReadAscends(size: Doc -> nat, files: map<int, Doc>, index: Index)
    requires ReadRows(size, files, index).Ok?
    ensures Ascending(ReadRows(size, files, index).value)
  {}

  lemma ListsAll(was: seq<Bar>, now: seq<Bar>, v: seq<Revision>)
    requires ListsChanges(was, now, v)
    ensures |v| == |ChangedRows(was, now)|
  {}

  lemma SizeNeeds(existing: seq<Bar>, cutoff: int, target: int, today: int)
    requires OutputSize(existing, cutoff, target, today).Ok?
    ensures existing != [] && target >= 1
  {}

  lemma NonEmptyReplacement(existing: seq<Bar>, rows: seq<Bar>, limit: int, tail: int)
    requires Validated(existing, rows, limit, tail).Ok?
    ensures rows != [] && DistinctDays(SortByDay(rows)) && Ascending(SortByDay(rows))
  {
    DaysCount(SortByDay(rows));
  }
}
