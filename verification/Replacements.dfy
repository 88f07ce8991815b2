/** What a replacement is, said of the provider's answer itself: which of its rows are kept,
    and when a rebase goes ahead with them. */
module Replacements {
  import opened Bars
  import opened SeriesStore
  import opened Rebase
  import Shards

  // ---------- which rows of an answer are kept ----------

  /** Dated before the cutoff, and not before the effective date if there is one. */
  predicate Eligible(b: Bar, effective: Option<int>, cutoff: int) {
    b.day < cutoff && (effective.Some? ==> effective.value <= b.day)
  }

  /** How many eligible rows of an answer are dated `from` or later. */
  function CountFrom(answer: seq<Bar>, from: Option<int>, effective: Option<int>, cutoff: int): nat {
    if answer == [] then 0
    else
      var b := answer[|answer| - 1];
      CountFrom(answer[..|answer| - 1], from, effective, cutoff)
      + if Eligible(b, effective, cutoff) && (from.Some? ==> from.value <= b.day) then 1 else 0
  }

  /** A row is kept if it is eligible and either not older than `first`, the oldest stored
      date, or among the `target` latest eligible rows. */
  predicate Kept(answer: seq<Bar>, b: Bar, first: int, effective: Option<int>, cutoff: int, target: int) {
    && b in answer && Eligible(b, effective, cutoff)
    && (first <= b.day || CountFrom(answer, Some(b.day + 1), effective, cutoff) < target)
  }

  lemma CountSnoc(init: seq<Bar>, b: Bar, from: Option<int>, effective: Option<int>, cutoff: int)
    ensures CountFrom(init + [b], from, effective, cutoff)
         == CountFrom(init, from, effective, cutoff)
            + if Eligible(b, effective, cutoff) && (from.Some? ==> from.value <= b.day) then 1 else 0
  {
    assert (init + [b])[..|init|] == init;
  }

  lemma {:induction false} CountInsert(sorted: seq<Bar>, b: Bar, from: Option<int>, effective: Option<int>, cutoff: int)
    requires Sorted(sorted)
    ensures CountFrom(Insert(sorted, b), from, effective, cutoff) == CountFrom(sorted + [b], from, effective, cutoff)
    decreases |sorted|
  {
    CountSnoc(sorted, b, from, effective, cutoff);
    if !(sorted == [] || sorted[|sorted| - 1].day <= b.day) {
      var init, last := sorted[..|sorted| - 1], sorted[|sorted| - 1];
      assert sorted == init + [last];
      CountInsert(init, b, from, effective, cutoff);
      CountSnoc(init, b, from, effective, cutoff);
      CountSnoc(init, last, from, effective, cutoff);
      CountSnoc(Insert(init, b), last, from, effective, cutoff);
    }
  }

  /** The order of an answer does not matter. */
  lemma {:induction false} CountSorted(rows: seq<Bar>, from: Option<int>, effective: Option<int>, cutoff: int)
    ensures CountFrom(SortByDay(rows), from, effective, cutoff) == CountFrom(rows, from, effective, cutoff)
    decreases |rows|
  {
    if rows != [] {
      var init, b := rows[..|rows| - 1], rows[|rows| - 1];
      assert rows == init + [b];
      CountSorted(init, from, effective, cutoff);
      CountInsert(SortByDay(init), b, from, effective, cutoff);
      CountSnoc(SortByDay(init), b, from, effective, cutoff);
      CountSnoc(init, b, from, effective, cutoff);
    }
  }

  lemma BetweenSnoc(init: seq<Bar>, b: Bar, lo: Option<int>, hi: int)
    ensures Between(init + [b], lo, hi) == Between(init, lo, hi) + if Within(b.day, lo, hi) then [b] else []
  {
    assert (init + [b])[..|init|] == init;
  }

  /** Filtering out what is not eligible changes no count. */
  lemma {:induction false} CountBetween(rows: seq<Bar>, from: Option<int>, effective: Option<int>, cutoff: int)
    ensures CountFrom(Between(rows, effective, cutoff), from, effective, cutoff) == CountFrom(rows, from, effective, cutoff)
    ensures CountFrom(rows, None, effective, cutoff) == |Between(rows, effective, cutoff)|
    decreases |rows|
  {
    if rows != [] {
      var init, b := rows[..|rows| - 1], rows[|rows| - 1];
      assert rows == init + [b];
      CountBetween(init, from, effective, cutoff);
      BetweenSnoc(init, b, effective, cutoff);
      CountSnoc(init, b, from, effective, cutoff);
      CountSnoc(init, b, None, effective, cutoff);
      CountSnoc(Between(init, effective, cutoff), b, from, effective, cutoff);
      hide Between, CountFrom;
      assert Between(init, effective, cutoff) + [] == Between(init, effective, cutoff);
    }
  }

  /** The filter keeps each eligible row as often as it stands in the list. */
  lemma {:induction false} BetweenTimes(rows: seq<Bar>, lo: Option<int>, hi: int, b: Bar)
    ensures multiset(Between(rows, lo, hi))[b] == if Eligible(b, lo, hi) then multiset(rows)[b] else 0
    decreases |rows|
  {
    if rows != [] {
      var init, last := rows[..|rows| - 1], rows[|rows| - 1];
      assert rows == init + [last];
      BetweenTimes(init, lo, hi, b);
      BetweenSnoc(init, last, lo, hi);
      hide Between;
    }
  }

  lemma {:induction false} BetweenSorted(rows: seq<Bar>, lo: Option<int>, hi: int)
    requires Sorted(rows)
    ensures Sorted(Between(rows, lo, hi))
  {
    if rows != [] {
      var init, b := rows[..|rows| - 1], rows[|rows| - 1];
      BetweenSorted(init, lo, hi);
      assert b in rows && forall x :: x in init ==> x.day <= b.day;
    }
  }

  /** In date order, the rows from a date on are a suffix. */
  lemma {:induction false} CountSuffix(rows: seq<Bar>, from: int, k: nat, effective: Option<int>, cutoff: int)
    requires k <= |rows| && forall b :: b in rows ==> Eligible(b, effective, cutoff)
    requires forall i :: 0 <= i < |rows| ==> (k <= i <==> from <= rows[i].day)
    ensures CountFrom(rows, Some(from), effective, cutoff) == |rows| - k
    decreases |rows|
  {
    if rows != [] {
      var init, b := rows[..|rows| - 1], rows[|rows| - 1];
      assert rows == init + [b] && b in rows;
      assert forall i :: 0 <= i < |init| ==> init[i] == rows[i] && init[i] in rows;
      CountSnoc(init, b, Some(from), effective, cutoff);
      CountSuffix(init, from, if k == |rows| then k - 1 else k, effective, cutoff);
    }
  }

  lemma {:induction false} FirstFrom(rows: seq<Bar>, day: int) returns (k: nat)
    requires Sorted(rows)
    ensures k <= |rows| && forall i :: 0 <= i < |rows| ==> (k <= i <==> day <= rows[i].day)
    decreases |rows|
  {
    if rows == [] || rows[|rows| - 1].day < day {
      k := |rows|;
    } else {
      k := FirstFrom(rows[..|rows| - 1], day);
      assert forall i :: 0 <= i < |rows| - 1 ==> rows[..|rows| - 1][i] == rows[i];
    }
  }

  /** A row is dated at or after the `target`-th latest one exactly when fewer than `target` are later. */
  lemma AmongLatest(eligible: seq<Bar>, b: Bar, target: int, effective: Option<int>, cutoff: int)
    requires Sorted(eligible) && eligible != [] && target >= 1 && b in eligible
    requires forall x :: x in eligible ==> Eligible(x, effective, cutoff)
    ensures Latest(eligible, target) != []
    ensures Latest(eligible, target)[0].day <= b.day <==>
            CountFrom(eligible, Some(b.day + 1), effective, cutoff) < target
  {
    var k := FirstFrom(eligible, b.day + 1);
    CountSuffix(eligible, b.day + 1, k, effective, cutoff);
    var s := if target >= |eligible| then 0 else |eligible| - target;
    assert Latest(eligible, target)[0] == eligible[s];
    var i :| 0 <= i < |eligible| && eligible[i] == b;
    assert i < k;
  }

  /** The window of an answer in date order holds exactly the kept rows, as often as the answer does. */
  lemma WindowExact(existing: seq<Bar>, fetched: seq<Bar>, effective: Option<int>, cutoff: int, target: int)
    requires existing != [] && target >= 1 && Sorted(fetched)
    ensures var w := SelectWindow(existing, fetched, effective, cutoff, target);
            && (w.Fail? <==> effective.None? && CountFrom(fetched, None, effective, cutoff) < target)
            && (w.Fail? ==> w.error == TooFewRows)
            && (w.Ok? ==> Sorted(w.value) && Holds(fetched, w.value, existing[0].day, effective, cutoff, target))
  {
    CountBetween(fetched, None, effective, cutoff);
    BetweenSorted(fetched, effective, cutoff);
    var eligible := Between(fetched, effective, cutoff);
    if eligible != [] {
      var lo := Min(existing[0].day, Latest(eligible, target)[0].day);
      BetweenSorted(eligible, Some(lo), cutoff);
    }
    if SelectWindow(existing, fetched, effective, cutoff, target).Ok? {
      var rows := SelectWindow(existing, fetched, effective, cutoff, target).value;
      hide Sorted;
      forall b ensures Times(fetched, rows, b, existing[0].day, effective, cutoff, target) {
        WindowTimes(existing, fetched, effective, cutoff, target, b);
      }
    }
  }

  /** `rows` has `b` as often as the answer if it is kept, and else not at all. */
  ghost predicate Times(answer: seq<Bar>, rows: seq<Bar>, b: Bar, first: int, effective: Option<int>, cutoff: int, target: int)
  {
    multiset(rows)[b] == if Kept(answer, b, first, effective, cutoff, target) then multiset(answer)[b] else 0
  }

  ghost predicate Holds(answer: seq<Bar>, rows: seq<Bar>, first: int, effective: Option<int>, cutoff: int, target: int) {
    forall b :: Times(answer, rows, b, first, effective, cutoff, target)
  }

  lemma WindowTimes(existing: seq<Bar>, fetched: seq<Bar>, effective: Option<int>, cutoff: int, target: int, b: Bar)
    requires existing != [] && target >= 1 && Sorted(fetched)
    requires SelectWindow(existing, fetched, effective, cutoff, target).Ok?
    ensures Times(fetched, SelectWindow(existing, fetched, effective, cutoff, target).value, b, existing[0].day, effective,
                  cutoff, target)
  {
    hide Sorted, Between, CountFrom, Latest, SelectWindow;
    var first, rows := existing[0].day, SelectWindow(existing, fetched, effective, cutoff, target).value;
    var eligible := Between(fetched, effective, cutoff);
    BetweenTimes(fetched, effective, cutoff, b);
    BetweenSorted(fetched, effective, cutoff);
    BetweenEligible(fetched, effective, cutoff);
    WindowIs(existing, fetched, effective, cutoff, target);
    InMultiset(fetched, b);
    InMultiset(eligible, b);
    if b in eligible {
      AmongLatest(eligible, b, target, effective, cutoff);
      CountBetween(fetched, Some(b.day + 1), effective, cutoff);
      BetweenTimes(eligible, Some(Min(first, Latest(eligible, target)[0].day)), cutoff, b);
    } else {
      InMultiset(rows, b);
    }
  }

  lemma BetweenEligible(rows: seq<Bar>, effective: Option<int>, cutoff: int)
    ensures forall x :: x in Between(rows, effective, cutoff) ==> Eligible(x, effective, cutoff)
  {}

  lemma InMultiset(rows: seq<Bar>, b: Bar)
    ensures multiset(rows)[b] > 0 <==> b in rows
  {
    assert b in multiset(rows) <==> b in rows;
  }

  lemma WindowIs(existing: seq<Bar>, fetched: seq<Bar>, effective: Option<int>, cutoff: int, target: int)
    requires existing != [] && target >= 1
    requires SelectWindow(existing, fetched, effective, cutoff, target).Ok?
    ensures var eligible := Between(fetched, effective, cutoff);
            var rows := SelectWindow(existing, fetched, effective, cutoff, target).value;
            && (eligible == [] ==> rows == [])
            && (eligible != [] ==> Latest(eligible, target) != [])
            && (eligible != [] ==>
                  rows == Between(eligible, Some(Min(existing[0].day, Latest(eligible, target)[0].day)), cutoff))
            && forall b :: b in rows ==> b in eligible
  {}

  // ---------- when an answer is accepted, said of the answer ----------

  /** What the kept rows of an answer must be: some, one a day, covering every stored date,
      with every row unchanged that has `tail` later stored rows, and at least one, and at
      most `limit` stored rows changed. */
  ghost predicate GoesAhead(existing: seq<Bar>, answer: seq<Bar>, effective: Option<int>, cutoff: int, target: int, limit: int,
                            tail: int)
    requires existing != []
  {
    var first := existing[0].day;
    && (effective.Some? || CountFrom(answer, None, effective, cutoff) >= target)
    && (exists b :: Kept(answer, b, first, effective, cutoff, target))
    && OneADay(answer, first, effective, cutoff, target)
    && (forall a :: a in existing ==> exists b :: Kept(answer, b, first, effective, cutoff, target) && b.day == a.day)
    && (forall i :: 0 <= i < |existing| && |existing| - 1 - i >= tail && |existing| - 1 - i >= 1 ==>
          Kept(answer, existing[i], first, effective, cutoff, target))
    && |LostRows(existing, answer, effective, cutoff, target)| <= limit
  }

  /** No two kept rows of the answer share a day. */
  ghost predicate OneADay(answer: seq<Bar>, first: int, effective: Option<int>, cutoff: int, target: int) {
    forall i, j ::
      (&& 0 <= i < j < |answer| && Kept(answer, answer[i], first, effective, cutoff, target)
       && Kept(answer, answer[j], first, effective, cutoff, target)) ==> answer[i].day != answer[j].day
  }

  /** The positions of the stored rows that are not among the kept ones. */
  ghost function LostRows(existing: seq<Bar>, answer: seq<Bar>, effective: Option<int>, cutoff: int, target: int): set<int>
    requires existing != []
  {
    set i | 0 <= i < |existing| && !Kept(answer, existing[i], existing[0].day, effective, cutoff, target)
  }

  /** Exactly the kept rows, in strict date order. */
  ghost predicate KeepsExactly(rows: seq<Bar>, answer: seq<Bar>, first: int, effective: Option<int>, cutoff: int, target: int) {
    Ascending(rows) && forall b :: b in rows <==> Kept(answer, b, first, effective, cutoff, target)
  }

  lemma KeptSorted(answer: seq<Bar>, b: Bar, first: int, effective: Option<int>, cutoff: int, target: int)
    ensures Kept(SortByDay(answer), b, first, effective, cutoff, target) <==> Kept(answer, b, first, effective, cutoff, target)
  {
    CountSorted(answer, Some(b.day + 1), effective, cutoff);
    hide SortByDay, CountFrom;
  }

  lemma HoldsSorted(answer: seq<Bar>, rows: seq<Bar>, first: int, effective: Option<int>, cutoff: int, target: int)
    requires Holds(SortByDay(answer), rows, first, effective, cutoff, target)
    ensures Holds(answer, rows, first, effective, cutoff, target)
  {
    SortPermutes(answer);
    hide SortByDay, Kept;
    forall b ensures Times(answer, rows, b, first, effective, cutoff, target) {
      KeptSorted(answer, b, first, effective, cutoff, target);
      assert Times(SortByDay(answer), rows, b, first, effective, cutoff, target);
    }
  }

  lemma HeldRows(answer: seq<Bar>, rows: seq<Bar>, first: int, effective: Option<int>, cutoff: int, target: int)
    requires Holds(answer, rows, first, effective, cutoff, target)
    ensures forall b :: b in rows <==> Kept(answer, b, first, effective, cutoff, target)
  {
    forall b ensures b in rows <==> Kept(answer, b, first, effective, cutoff, target) {
      InMultiset(rows, b);
      InMultiset(answer, b);
      assert Times(answer, rows, b, first, effective, cutoff, target);
    }
  }

  lemma {:induction false} TwiceInMultiset(rows: seq<Bar>, b: Bar)
    ensures multiset(rows)[b] >= 2 <==> exists i, j :: 0 <= i < j < |rows| && rows[i] == b == rows[j]
    decreases |rows|
  {
    if rows != [] {
      var init, last := rows[..|rows| - 1], rows[|rows| - 1];
      assert rows == init + [last];
      TwiceInMultiset(init, b);
      InMultiset(init, b);
      if multiset(rows)[b] >= 2 {
        if multiset(init)[b] >= 2 {
          var i, j :| 0 <= i < j < |init| && init[i] == b == init[j];
          assert rows[i] == b == rows[j];
        } else {
          var i :| 0 <= i < |init| && init[i] == b;
          assert rows[i] == b == rows[|rows| - 1];
        }
      }
      if i, j :| 0 <= i < j < |rows| && rows[i] == b == rows[j] {
        assert init[i] == b;
        if j < |init| { assert init[j] == b; }
      }
    }
  }

  /** The kept rows repeat no day exactly when the answer's kept rows do not. */
  lemma DistinctKept(answer: seq<Bar>, rows: seq<Bar>, first: int, effective: Option<int>, cutoff: int, target: int)
    requires Holds(answer, rows, first, effective, cutoff, target)
    ensures DistinctDays(rows) <==> OneADay(answer, first, effective, cutoff, target)
  {
    HeldRows(answer, rows, first, effective, cutoff, target);
    hide Kept, Holds;
    if i, j :| 0 <= i < j < |answer| && Kept(answer, answer[i], first, effective, cutoff, target)
               && Kept(answer, answer[j], first, effective, cutoff, target) && answer[i].day == answer[j].day {
      RepeatedDay(answer, rows, i, j, first, effective, cutoff, target);
    }
    if i, j :| 0 <= i < j < |rows| && rows[i].day == rows[j].day {
      RepeatedRow(answer, rows, i, j, first, effective, cutoff, target);
    }
  }

  lemma RepeatedDay(answer: seq<Bar>, rows: seq<Bar>, i: int, j: int, first: int, effective: Option<int>, cutoff: int,
                    target: int)
    requires Holds(answer, rows, first, effective, cutoff, target) && 0 <= i < j < |answer|
    requires answer[i] in rows && answer[j] in rows && answer[i].day == answer[j].day
    requires Kept(answer, answer[i], first, effective, cutoff, target)
    ensures !DistinctDays(rows)
  {
    hide Kept;
    var b := answer[i];
    if b == answer[j] {
      TwiceInMultiset(answer, b);
      TwiceInMultiset(rows, b);
      assert Times(answer, rows, b, first, effective, cutoff, target);
    } else {
      var k :| 0 <= k < |rows| && rows[k] == b;
      var l :| 0 <= l < |rows| && rows[l] == answer[j];
    }
  }

  lemma RepeatedRow(answer: seq<Bar>, rows: seq<Bar>, i: int, j: int, first: int, effective: Option<int>, cutoff: int,
                    target: int)
    requires Holds(answer, rows, first, effective, cutoff, target) && 0 <= i < j < |rows| && rows[i].day == rows[j].day
    requires forall b :: b in rows <==> Kept(answer, b, first, effective, cutoff, target)
    ensures !OneADay(answer, first, effective, cutoff, target)
  {
    var b, c := rows[i], rows[j];
    assert b in rows && c in rows && b in answer && c in answer;
    hide Kept;
    if b == c {
      TwiceInMultiset(rows, b);
      TwiceInMultiset(answer, b);
      assert Times(answer, rows, b, first, effective, cutoff, target);
    } else {
      var k :| 0 <= k < |answer| && answer[k] == b;
      var l :| 0 <= l < |answer| && answer[l] == c;
      if k < l { assert answer[k].day == answer[l].day; } else { assert answer[l].day == answer[k].day; }
    }
  }

  /** The window is accepted exactly when the answer says so, and is then exactly the kept rows. */
  lemma AnswerMeaning(existing: seq<Bar>, answer: seq<Bar>, effective: Option<int>, cutoff: int, target: int, limit: int,
                      tail: int)
    requires Ascending(existing) && existing != [] && target >= 1
    ensures var w := SelectWindow(existing, SortByDay(answer), effective, cutoff, target);
            && (w.Ok? && Validated(existing, w.value, limit, tail).Ok?
                <==> GoesAhead(existing, answer, effective, cutoff, target, limit, tail))
            && (w.Ok? ==> forall b :: b in w.value <==> Kept(answer, b, existing[0].day, effective, cutoff, target))
            && (w.Ok? && Validated(existing, w.value, limit, tail).Ok? ==>
                  KeepsExactly(w.value, answer, existing[0].day, effective, cutoff, target)
                  && ListsChanges(existing, w.value, Validated(existing, w.value, limit, tail).value))
  {
    var first, w := existing[0].day, SelectWindow(existing, SortByDay(answer), effective, cutoff, target);
    WindowExact(existing, SortByDay(answer), effective, cutoff, target);
    CountSorted(answer, None, effective, cutoff);
    if w.Ok? {
      HoldsSorted(answer, w.value, first, effective, cutoff, target);
      HeldRows(answer, w.value, first, effective, cutoff, target);
      DistinctKept(answer, w.value, first, effective, cutoff, target);
      ValidatedMeaning(existing, w.value, limit, tail);
      hide *;
      AcceptedKept(existing, answer, w.value, effective, cutoff, target, limit, tail);
    }
  }

  lemma AcceptedKept(existing: seq<Bar>, answer: seq<Bar>, rows: seq<Bar>, effective: Option<int>, cutoff: int, target: int,
                     limit: int, tail: int)
    requires existing != [] && Sorted(rows)
    requires effective.Some? || CountFrom(answer, None, effective, cutoff) >= target
    requires forall b :: b in rows <==> Kept(answer, b, existing[0].day, effective, cutoff, target)
    requires DistinctDays(rows) <==> OneADay(answer, existing[0].day, effective, cutoff, target)
    ensures Acceptable(existing, rows, limit, tail) <==> GoesAhead(existing, answer, effective, cutoff, target, limit, tail)
    ensures Acceptable(existing, rows, limit, tail) ==>
              KeepsExactly(rows, answer, existing[0].day, effective, cutoff, target)
  {
    hide Kept, OneADay, CountFrom;
    assert ChangedRows(existing, rows) == LostRows(existing, answer, effective, cutoff, target);
    if rows != [] { assert rows[0] in rows; }
  }

  // ---------- the rebase of one series ----------

  /** The longer of two calendar spans: back to the oldest stored date, and `target` rows
      back from the cutoff, both up to today. */
  ghost predicate IsSpan(n: nat, existing: seq<Bar>, cutoff: int, target: int, today: int)
    requires existing != []
  {
    && n >= today - existing[0].day + 1 && n >= target + (today - cutoff) + 1
    && (n == today - existing[0].day + 1 || n == target + (today - cutoff) + 1)
  }

  /** A rebase goes ahead exactly when the series reads, the request is sensible and within
      the limit, the answer's kept rows are acceptable full bars, and no archive of the
      cutoff is there. It then writes exactly the kept rows, and archives the old rows with
      the list of what changed. */
  lemma PlanRebaseMeaning(size: Shards.Doc -> nat, disk: Disk, archived: bool, answer: nat -> seq<Bar>, effective: Option<int>,
                          cutoff: int, today: int, cfg: Settings, n: nat)
    requires disk.index.Some? && ReadDisk(size, disk).Ok? && ReadDisk(size, disk).value != []
    requires IsSpan(n, ReadDisk(size, disk).value, cutoff, cfg.target, today)
    ensures var plan, existing := PlanRebase(size, disk, archived, answer, effective, cutoff, today, cfg),
                                  ReadDisk(size, disk).value;
            var first := existing[0].day;
            && (plan.Ok? <==>
                  && cfg.target >= 1 && cutoff <= today && n <= REQUEST_LIMIT && !archived
                  && GoesAhead(existing, answer(n), effective, cutoff, cfg.target, cfg.limit, cfg.tail)
                  && forall b :: Kept(answer(n), b, first, effective, cutoff, cfg.target) ==> FullBar(b))
            && (plan.Ok? ==>
                  var (rows, archive) := plan.value;
                  && KeepsExactly(rows, answer(n), first, effective, cutoff, cfg.target)
                  && archive.index == disk.index.value && archive.rows == existing && archive.replacementCount == |rows|
                  && ListsChanges(existing, rows, archive.revisions))
  {
    var existing, index := ReadDisk(size, disk).value, disk.index.value;
    ReadAscends(size, disk.files, index);
    SizeMeaning(existing, cutoff, cfg.target, today, n);
    hide *;
    if cfg.target >= 1 && cutoff <= today && n <= REQUEST_LIMIT {
      PlanIs(size, disk, archived, answer, effective, cutoff, today, cfg, n);
      AnswerMeaning(existing, answer(n), effective, cutoff, cfg.target, cfg.limit, cfg.tail);
    } else {
      NoPlan(size, disk, archived, answer, effective, cutoff, today, cfg);
    }
  }

  lemma PlanIs(size: Shards.Doc -> nat, disk: Disk, archived: bool, answer: nat -> seq<Bar>, effective: Option<int>,
               cutoff: int, today: int, cfg: Settings, n: nat)
    requires disk.index.Some? && ReadDisk(size, disk).Ok? && ReadDisk(size, disk).value != [] && cfg.target >= 1
    requires OutputSize(ReadDisk(size, disk).value, cutoff, cfg.target, today) == Ok(n)
    ensures var plan, existing := PlanRebase(size, disk, archived, answer, effective, cutoff, today, cfg),
                                  ReadDisk(size, disk).value;
            var w := SelectWindow(existing, SortByDay(answer(n)), effective, cutoff, cfg.target);
            && (plan.Ok? <==> w.Ok? && Validated(existing, w.value, cfg.limit, cfg.tail).Ok? && !archived
                              && forall b :: b in w.value ==> FullBar(b))
            && (plan.Ok? ==>
                  plan.value == (w.value, Archive(disk.index.value, existing,
                                                  Validated(existing, w.value, cfg.limit, cfg.tail).value, |w.value|)))
  {
    hide SelectWindow, SortByDay, Validated, FullBar, ReadRows, OutputSize;
  }

  lemma NoPlan(size: Shards.Doc -> nat, disk: Disk, archived: bool, answer: nat -> seq<Bar>, effective: Option<int>,
               cutoff: int, today: int, cfg: Settings)
    requires disk.index.Some? && ReadDisk(size, disk).Ok?
    requires OutputSize(ReadDisk(size, disk).value, cutoff, cfg.target, today).Fail?
    ensures PlanRebase(size, disk, archived, answer, effective, cutoff, today, cfg).Fail?
  {
    hide SelectWindow, SortByDay, Validated, FullBar, ReadRows, OutputSize;
  }

  /** Without a series, or with one that does not read or is empty, there is no rebase. */
  lemma NoSeriesNoRebase(size: Shards.Doc -> nat, disk: Disk, archived: bool, answer: nat -> seq<Bar>, effective: Option<int>,
                         cutoff: int, today: int, cfg: Settings)
    requires disk.index.None? || ReadDisk(size, disk).Fail? || ReadDisk(size, disk).value == []
    ensures PlanRebase(size, disk, archived, answer, effective, cutoff, today, cfg).Fail?
  {
    hide SelectWindow, SortByDay, Validated, FullBar;
  }

  lemma SizeMeaning(existing: seq<Bar>, cutoff: int, target: int, today: int, n: nat)
    requires existing != [] && IsSpan(n, existing, cutoff, target, today)
    ensures OutputSize(existing, cutoff, target, today).Ok? <==> target >= 1 && cutoff <= today && n <= REQUEST_LIMIT
    ensures OutputSize(existing, cutoff, target, today).Ok? ==> OutputSize(existing, cutoff, target, today).value == n
  {}
}
