/** Daily bars: what a provider row must look like to enter the Store, and the
    day order every stored series keeps. */
module Bars {

  datatype Option<+T> = None | Some(value: T)

  datatype Result<+T, +E> = Ok(value: T) | Fail(error: E)

  // A JSON leaf. Integers and floats stay apart: the Store compares canonical
  // text, where 1 and 1.0 differ.
  datatype Value = Null | Flag(b: bool) | Int(i: int) | Float(r: real) | Text(s: string) {
    predicate Numeric() { Int? || Float? }
  }

  /** A stored row. `day` is the trade date as a day number. */
  datatype Bar = Bar(day: int, fields: map<string, Value>)

  datatype DayText = Absent | Malformed | Day(day: int)

  /** A row as a caller hands it over, before validation. */
  datatype RawBar = RawBar(date: DayText, fields: map<string, Value>)

  datatype BarError = MissingField | BadDate | CloseNotNumeric | BadVolume

  const BAR_FIELDS: set<string> := {"open", "high", "low", "close", "volume", "source_timestamp"}

  /** `_normalize_bar`: keep the known fields that are present and not null. A
      flag passes the volume test, as Python counts booleans as integers. */
  function Normalize(raw: RawBar): (r: Result<Bar, BarError>)
    ensures r.Ok? <==> Clean(raw)
    ensures r.Ok? ==> WellFormed(r.value) && Day(r.value.day) == raw.date
    ensures r.Ok? ==> forall f :: f in r.value.fields <==> f in BAR_FIELDS && f in raw.fields && raw.fields[f] != Null
    ensures r.Ok? ==> forall f :: f in r.value.fields ==> r.value.fields[f] == raw.fields[f]
  {
    if raw.date.Absent? || "close" !in raw.fields then Fail(MissingField)
    else if raw.date.Malformed? then Fail(BadDate)
    else
      var kept := map f | f in BAR_FIELDS && f in raw.fields && raw.fields[f] != Null :: raw.fields[f];
      if "close" !in kept then Fail(MissingField)
      else if !kept["close"].Numeric() then Fail(CloseNotNumeric)
      else if "volume" in kept && BadVolumeValue(kept["volume"]) then Fail(BadVolume)
      else Ok(Bar(raw.date.day, kept))
  }

  /** A date, a numeric close, and a volume that is absent, null, a flag or a number not below zero. */
  predicate Clean(raw: RawBar) {
    && raw.date.Day? && "close" in raw.fields && (raw.fields["close"].Int? || raw.fields["close"].Float?)
    && ("volume" in raw.fields ==>
          match raw.fields["volume"]
          case Null => true
          case Flag(_) => true
          case Int(i) => i >= 0
          case Float(r) => r >= 0.0
          case Text(_) => false)
  }

  predicate BadVolumeValue(v: Value) {
    match v
    case Int(i) => i < 0
    case Float(r) => r < 0.0
    case Flag(_) => false
    case _ => true
  }

  /** What normalization guarantees of a stored row; in particular no field is null. */
  predicate WellFormed(bar: Bar) {
    && bar.fields.Keys <= BAR_FIELDS
    && (forall f :: f in bar.fields ==> bar.fields[f] != Null)
    && "close" in bar.fields && bar.fields["close"].Numeric()
    && ("volume" in bar.fields ==> !BadVolumeValue(bar.fields["volume"]))
  }

  function Raw(bar: Bar): RawBar { RawBar(Day(bar.day), bar.fields) }

  /** Normalizing a stored row again changes nothing, so re-submitting history is safe. */
  lemma NormalizeStored(bar: Bar)
    requires WellFormed(bar)
    ensures Normalize(Raw(bar)) == Ok(bar)
  {
    assert (map f | f in BAR_FIELDS && f in bar.fields && bar.fields[f] != Null :: bar.fields[f]) == bar.fields;
  }

  // ---------- slices of lists ----------

  lemma SliceInside<T>(a: seq<T>, b: seq<T>, n: nat)
    requires n <= |a|
    ensures (a + b)[..n] == a[..n] && (a + b)[n..] == a[n..] + b
  {}

  lemma SliceBeyond<T>(a: seq<T>, b: seq<T>, n: nat)
    requires n <= |b|
    ensures (a + b)[..|a| + n] == a + b[..n] && (a + b)[|a| + n..] == b[n..]
  {}

  lemma SliceJoin<T>(a: seq<T>, n: nat, k: nat)
    requires n + k <= |a|
    ensures a[..n] + a[n..][..k] == a[..n + k]
  {}

  lemma InitCons<T>(x: T, s: seq<T>)
    requires s != []
    ensures ([x] + s)[..|s|] == [x] + s[..|s| - 1] && ([x] + s)[|s|] == s[|s| - 1]
  {}

  // ---------- day order ----------

  ghost predicate Ascending(rows: seq<Bar>) {
    forall i, j :: 0 <= i < j < |rows| ==> rows[i].day < rows[j].day
  }

  ghost predicate Sorted(rows: seq<Bar>) {
    forall i, j :: 0 <= i < j < |rows| ==> rows[i].day <= rows[j].day
  }

  ghost predicate DistinctDays(rows: seq<Bar>) {
    forall i, j :: 0 <= i < j < |rows| ==> rows[i].day != rows[j].day
  }

  function Days(rows: seq<Bar>): set<int> { set i | 0 <= i < |rows| :: rows[i].day }

  /** The source tests for repeated days by counting the distinct ones. */
  lemma DaysCount(rows: seq<Bar>)
    ensures |Days(rows)| <= |rows|
    ensures |Days(rows)| == |rows| <==> DistinctDays(rows)
  {
    if rows != [] {
      var init, b := rows[..|rows| - 1], rows[|rows| - 1];
      DaysCount(init);
      assert Days(rows) == Days(init) + {b.day};
    }
  }

  /** Python's stable sort by trade date. */
  function SortByDay(rows: seq<Bar>): (s: seq<Bar>)
    ensures Sorted(s) && |s| == |rows|
    ensures forall x :: x in s <==> x in rows
  {
    if rows == [] then []
    else
      var init, b := rows[..|rows| - 1], rows[|rows| - 1];
      assert rows == init + [b];
      Insert(SortByDay(init), b)
  }

  function Insert(sorted: seq<Bar>, b: Bar): (s: seq<Bar>)
    requires Sorted(sorted)
    ensures Sorted(s) && |s| == |sorted| + 1
    ensures forall x :: x in s <==> x in sorted || x == b
  {
    if sorted == [] || sorted[|sorted| - 1].day <= b.day then sorted + [b]
    else
      var init, last := sorted[..|sorted| - 1], sorted[|sorted| - 1];
      assert sorted == init + [last];
      assert forall x :: x in init ==> x.day <= last.day;
      var s := Insert(init, b);
      assert forall i :: 0 <= i < |s| ==> s[i] in s && s[i].day <= last.day;
      s + [last]
  }

  /** Sorting rearranges: it neither drops nor repeats a row. */
  lemma SortPermutes(rows: seq<Bar>)
    ensures multiset(SortByDay(rows)) == multiset(rows)
  {
    if rows != [] {
      var init, b := rows[..|rows| - 1], rows[|rows| - 1];
      SortPermutes(init);
      InsertPermutes(SortByDay(init), b);
      assert rows == init + [b];
    }
  }

  lemma InsertPermutes(sorted: seq<Bar>, b: Bar)
    requires Sorted(sorted)
    ensures multiset(Insert(sorted, b)) == multiset(sorted) + multiset{b}
  {
    if !(sorted == [] || sorted[|sorted| - 1].day <= b.day) {
      var init, last := sorted[..|sorted| - 1], sorted[|sorted| - 1];
      assert sorted == init + [last];
      InsertPermutes(init, b);
    }
  }

  /** An ascending list is determined by its members. */
  lemma {:induction false} AscendingUnique(a: seq<Bar>, b: seq<Bar>)
    requires Ascending(a) && Ascending(b)
    requires forall x :: x in a <==> x in b
    ensures a == b
    decreases |a|
  {
    assert a == [] <==> b == [] by {
      if a != [] { assert a[0] in b; }
      if b != [] { assert b[0] in a; }
    }
    if a != [] {
      SameFirst(a, b);
      TailMembers(a, b);
      TailMembers(b, a);
      AscendingUnique(a[1..], b[1..]);
      assert a == [a[0]] + a[1..] && b == [b[0]] + b[1..];
    }
  }

  lemma SameFirst(a: seq<Bar>, b: seq<Bar>)
    requires a != [] && b != [] && Ascending(a) && Ascending(b) && a[0] in b && b[0] in a
    ensures a[0] == b[0]
  {
    var i :| 0 <= i < |b| && b[i] == a[0];
    var j :| 0 <= j < |a| && a[j] == b[0];
  }

  lemma TailMembers(a: seq<Bar>, b: seq<Bar>)
    requires a != [] && b != [] && a[0] == b[0] && Ascending(a) && forall x :: x in a ==> x in b
    ensures forall x :: x in a[1..] ==> x in b[1..]
  {
    forall x | x in a[1..] ensures x in b[1..] {
      var k :| 0 <= k < |a| - 1 && a[1..][k] == x;
      assert a[k + 1] == x && a[k + 1] in a && a[0].day < x.day;
      var m :| 0 <= m < |b| && b[m] == x;
      assert b[1..][m - 1] == x;
    }
  }

  lemma DayMember(rows: seq<Bar>, b: Bar)
    requires b in rows
    ensures b.day in Days(rows)
  {}

  /** Sorting changes neither the members nor whether a day is repeated. */
  lemma SortedRows(rows: seq<Bar>)
    ensures Days(SortByDay(rows)) == Days(rows) && (DistinctDays(SortByDay(rows)) <==> DistinctDays(rows))
  {
    var n := SortByDay(rows);
    forall d ensures d in Days(n) <==> d in Days(rows) {
      if d in Days(n) {
        var i :| 0 <= i < |n| && n[i].day == d;
        assert n[i] in n;
        DayMember(rows, n[i]);
      }
      if d in Days(rows) {
        var i :| 0 <= i < |rows| && rows[i].day == d;
        assert rows[i] in rows;
        DayMember(n, rows[i]);
      }
    }
    DaysCount(n);
    DaysCount(rows);
  }

  /** A sorted list with distinct days is its own sort. */
  lemma SortFixed(rows: seq<Bar>)
    requires Ascending(rows)
    ensures SortByDay(rows) == rows
  {}

  /** The row stored for a day, as a by-date dictionary finds it. */
  function Find(rows: seq<Bar>, day: int): (r: Option<Bar>)
    ensures r.Some? ==> r.value in rows && r.value.day == day
    ensures r.None? ==> forall b :: b in rows ==> b.day != day
  {
    if rows == [] then None
    else if rows[|rows| - 1].day == day then Some(rows[|rows| - 1])
    else
      assert forall b :: b in rows ==> b in rows[..|rows| - 1] || b == rows[|rows| - 1];
      Find(rows[..|rows| - 1], day)
  }

  lemma FindMember(rows: seq<Bar>, b: Bar)
    requires DistinctDays(rows) && b in rows
    ensures Find(rows, b.day) == Some(b)
  {}

  predicate Within(day: int, lo: Option<int>, hi: int) { (lo.Some? ==> lo.value <= day) && day < hi }

  /** Keep the rows dated before `hi` and, if a lower bound is given, not before it. */
  function Between(rows: seq<Bar>, lo: Option<int>, hi: int): (r: seq<Bar>)
    ensures forall b :: b in r <==> b in rows && Within(b.day, lo, hi)
    ensures |r| <= |rows|
  {
    if rows == [] then []
    else
      var init, b := rows[..|rows| - 1], rows[|rows| - 1];
      assert rows == init + [b];
      Between(init, lo, hi) + (if Within(b.day, lo, hi) then [b] else [])
  }

  lemma BetweenAscending(rows: seq<Bar>, lo: Option<int>, hi: int)
    requires Ascending(rows)
    ensures Ascending(Between(rows, lo, hi))
  {}

  /** On an ascending list the kept rows are one stretch. */
  lemma BetweenStretch(rows: seq<Bar>, lo: Option<int>, hi: int, i: nat, j: nat)
    requires Ascending(rows) && i <= j <= |rows|
    requires forall k :: 0 <= k < |rows| ==> (i <= k < j <==> Within(rows[k].day, lo, hi))
    ensures Between(rows, lo, hi) == rows[i..j]
  {
    BetweenAscending(rows, lo, hi);
    forall x ensures x in Between(rows, lo, hi) <==> x in rows[i..j] {
      if x in rows {
        var k :| 0 <= k < |rows| && rows[k] == x;
        if i <= k < j { assert rows[i..j][k - i] == x; }
      }
      if x in rows[i..j] {
        var m :| 0 <= m < j - i && rows[i..j][m] == x;
        assert rows[i + m] == x;
      }
    }
    AscendingUnique(Between(rows, lo, hi), rows[i..j]);
  }

  /** Distinct days on a calendar leave no room for more rows than days. */
  lemma {:induction false} AscendingGap(rows: seq<Bar>, i: nat, j: nat)
    requires Ascending(rows) && i <= j < |rows|
    ensures rows[j].day - rows[i].day >= j - i
    decreases j - i
  {
    if i < j {
      AscendingGap(rows, i, j - 1);
    }
  }
}
