/** The provider credit ledger: a day total and a per-minute table that forgets all
    but the latest sixteen minutes. */
module Ledger {
  import opened Bars
  import opened Git

  datatype BudgetError = DayExceeded | MinuteExceeded

  const KEPT_MINUTES := 16

  function At(table: map<int, int>, minute: int): int { if minute in table then table[minute] else 0 }

  function Newer(table: map<int, int>, minute: int): set<int> { set k | k in table && k > minute }

  /** Keep the sixteen latest minutes. */
  function Latest16(table: map<int, int>): map<int, int> {
    map k | k in table && |Newer(table, k)| < KEPT_MINUTES :: table[k]
  }

  /** `consume_twelve_credit` on the ledger's contents. */
  function Consume(state: Minutes, minute: int, amount: int, perDay: int, perMinute: int): Result<Minutes, BudgetError> {
    var day, now := state.credits + amount, At(state.byMinute, minute) + amount;
    if day > perDay then Fail(DayExceeded)
    else if now > perMinute then Fail(MinuteExceeded)
    else Ok(Minutes(day, Latest16(state.byMinute[minute := now])))
  }

  /** Whether the minute is among the sixteen latest of a table and one more minute. */
  ghost predicate Recent(table: map<int, int>, minute: int, m: int) {
    (m in table || m == minute) && |set k | k in table.Keys + {minute} && k > m| < 16
  }

  lemma FirstMinute(table: map<int, int>, minute: int)
    requires forall m :: m in table <==> Recent(map[], minute, m)
    ensures minute in table && table == map[minute := table[minute]]
  {
    var none: map<int, int> := map[];
    assert (set k | k in none.Keys + {minute} && k > minute) == {};
    assert Recent(none, minute, minute);
    assert forall m :: m in table <==> m == minute;
  }

  /** A debit is accepted exactly when day and minute both have room. It adds to the day total
      and to its minute, and the sixteen latest minutes stay as they are. */
  lemma ConsumeMeaning(state: Minutes, minute: int, amount: int, perDay: int, perMinute: int)
    ensures var r, now := Consume(state, minute, amount, perDay, perMinute), At(state.byMinute, minute) + amount;
            && (r.Ok? <==> state.credits + amount <= perDay && now <= perMinute)
            && (r.Fail? ==> r.error == if state.credits + amount > perDay then DayExceeded else MinuteExceeded)
            && (r.Ok? ==>
                  && r.value.credits == state.credits + amount
                  && (forall m :: m in r.value.byMinute <==> Recent(state.byMinute, minute, m))
                  && (forall m :: m in r.value.byMinute ==>
                        r.value.byMinute[m] == if m == minute then now else state.byMinute[m]))
  {
    var now := At(state.byMinute, minute) + amount;
    var next := state.byMinute[minute := now];
    forall m ensures m in Latest16(next) <==> Recent(state.byMinute, minute, m) {
      assert Newer(next, m) == set k | k in state.byMinute.Keys + {minute} && k > m;
    }
  }

  /** The first debit of a day. */
  lemma FirstDebit(minute: int, amount: int, perDay: int, perMinute: int)
    ensures var r := Consume(Minutes(0, map[]), minute, amount, perDay, perMinute);
            r.Ok? ==> r.value == Minutes(amount, map[minute := amount])
  {
    ConsumeMeaning(Minutes(0, map[]), minute, amount, perDay, perMinute);
    hide Recent, Latest16;
    var r := Consume(Minutes(0, map[]), minute, amount, perDay, perMinute);
    if r.Ok? { FirstMinute(r.value.byMinute, minute); }
  }

  /** The ledger file of one trade date. */
  class TwelveBudget {
    var file: Option<Minutes>

    constructor ()
      ensures file == None
    {
      file := None;
    }

    function State(): Minutes
      reads this
    {
      if file.Some? then file.value else Minutes(0, map[])
    }

    method ConsumeTwelveCredit(minute: int, amount: int, perDay: int, perMinute: int) returns (e: Option<BudgetError>)
      modifies this
      ensures match Consume(old(State()), minute, amount, perDay, perMinute)
              case Ok(next) => e.None? && file == Some(next)
              case Fail(why) => e == Some(why) && file == old(file)
      ensures e.None? <==>
                && old(State()).credits + amount <= perDay
                && (if minute in old(State()).byMinute then old(State()).byMinute[minute] else 0) + amount <= perMinute
      ensures e.None? && old(file).None? ==> file == Some(Minutes(amount, map[minute := amount]))
    {
      ConsumeMeaning(State(), minute, amount, perDay, perMinute);
      FirstDebit(minute, amount, perDay, perMinute);
      hide Recent, Latest16;
      var state := State();
      var day := state.credits + amount;
      var now := At(state.byMinute, minute) + amount;
      if day > perDay { return Some(DayExceeded); }
      if now > perMinute { return Some(MinuteExceeded); }
      file := Some(Minutes(day, Latest16(state.byMinute[minute := now])));
      return None;
    }
  }

  // ---------- whole runs ----------

  datatype Debit = Debit(minute: int, amount: int)

  /** The ledger after a run of attempted debits: a refused one changes nothing. */
  function RunLedger(debits: seq<Debit>, perDay: int, perMinute: int): Minutes {
    if debits == [] then Minutes(0, map[])
    else
      var before, d := RunLedger(debits[..|debits| - 1], perDay, perMinute), debits[|debits| - 1];
      match Consume(before, d.minute, d.amount, perDay, perMinute)
      case Ok(next) => next
      case Fail(_) => before
  }

  /** The true total consumed in a minute (or over the day), refused debits left out. */
  function Spent(debits: seq<Debit>, minute: Option<int>, perDay: int, perMinute: int): int {
    if debits == [] then 0
    else
      var before, d := RunLedger(debits[..|debits| - 1], perDay, perMinute), debits[|debits| - 1];
      Spent(debits[..|debits| - 1], minute, perDay, perMinute)
      + if Consume(before, d.minute, d.amount, perDay, perMinute).Ok? && (minute.None? || minute.value == d.minute)
        then d.amount else 0
  }

  /** A minute the table still knows about: it is not older than everything kept. */
  predicate Visible(table: map<int, int>, minute: int) {
    |table| < KEPT_MINUTES || exists k :: k in table && k <= minute
  }

  ghost predicate AlwaysVisible(debits: seq<Debit>, perDay: int, perMinute: int) {
    forall i :: 0 <= i < |debits| ==>
      debits[i].amount > 0 && Visible(RunLedger(debits[..i], perDay, perMinute).byMinute, debits[i].minute)
  }

  ghost function Total(table: map<int, int>): int {
    if !exists k :: k in table then 0
    else var k :| k in table; table[k] + Total(table - {k})
  }

  lemma {:induction false} TotalWithout(table: map<int, int>, k: int)
    requires k in table
    ensures Total(table) == table[k] + Total(table - {k})
    decreases |table|
  {
    var j :| j in table && Total(table) == table[j] + Total(table - {j});
    if j != k {
      SwapOut(table, j, k);
      TotalWithout(table - {j}, k);
      TotalWithout(table - {k}, j);
    }
  }

  lemma SwapOut(table: map<int, int>, j: int, k: int)
    requires j in table && k in table && j != k
    ensures table - {j} - {k} == table - {k} - {j}
    ensures |table - {j}| < |table| && |table - {k}| < |table|
  {}

  lemma {:induction false} TotalPart(part: map<int, int>, table: map<int, int>)
    requires part.Keys <= table.Keys && forall k :: k in part ==> part[k] == table[k]
    requires forall k :: k in table ==> table[k] >= 0
    ensures Total(part) <= Total(table)
    decreases |table|
  {
    if !exists k :: k in table {
      assert part == map[];
    } else {
      var k :| k in table;
      TotalWithout(table, k);
      if k in part {
        TotalWithout(part, k);
        TotalPart(part - {k}, table - {k});
      } else {
        TotalPart(part, table - {k});
      }
    }
  }

  /** A table that tells the truth about `spent`, the true totals by minute: a kept
      entry is exact, no total exceeds the limit, and a minute with credits that is no
      longer kept is older than all sixteen kept. */
  ghost predicate Truthful(table: map<int, int>, spent: int -> int, perMinute: int) {
    && |table| <= KEPT_MINUTES
    && (forall m :: m in table ==> 0 < table[m] == spent(m) <= perMinute)
    && (forall m :: 0 <= spent(m) <= Max(perMinute, 0))
    && (forall m :: m !in table && spent(m) > 0 ==> |table| == KEPT_MINUTES && forall k :: k in table ==> k > m)
  }

  /** The true totals of a run, by minute. */
  ghost function ByMinute(debits: seq<Debit>, perDay: int, perMinute: int): int -> int {
    m => Spent(debits, Some(m), perDay, perMinute)
  }

  /** The day total is exact and bounded, the table is truthful and sums to no more. */
  ghost predicate Faithful(state: Minutes, debits: seq<Debit>, perDay: int, perMinute: int) {
    && state.credits == Spent(debits, None, perDay, perMinute) <= Max(perDay, 0)
    && Truthful(state.byMinute, ByMinute(debits, perDay, perMinute), perMinute)
    && Total(state.byMinute) <= state.credits
  }

  function Max(a: int, b: int): int { if a < b then b else a }

  lemma NewerShrinks(table: map<int, int>, j: int, k: int)
    requires j in table && k in table && j < k
    ensures |Newer(table, k)| < |Newer(table, j)|
  {
    assert k in Newer(table, j) && k !in Newer(table, k);
    assert Newer(table, k) < Newer(table, j);
    Proper(Newer(table, k), Newer(table, j));
  }

  lemma Proper(a: set<int>, b: set<int>)
    requires a < b
    ensures |a| < |b|
  {
    assert b == a + (b - a);
    assert |b| == |a| + |b - a|;
    assert b - a != {};
  }

  lemma MinKey(table: map<int, int>) returns (m: int)
    requires exists k :: k in table
    ensures m in table && forall k :: k in table ==> m <= k
    decreases |table|
  {
    var k :| k in table;
    var rest := table - {k};
    assert table.Keys == rest.Keys + {k};
    m := k;
    if exists j :: j in rest {
      var least := MinKey(rest);
      m := if k < least then k else least;
    }
  }

  /** Keeping sixteen drops nothing from a table of sixteen, and exactly the oldest of seventeen. */
  lemma Latest16Drops(table: map<int, int>)
    requires |table| <= KEPT_MINUTES + 1
    ensures |table| <= KEPT_MINUTES ==> Latest16(table) == table
    ensures |table| == KEPT_MINUTES + 1 ==>
              forall m :: m in table && (forall k :: k in table ==> m <= k) ==>
                                              Latest16(table) == table - {m}
  {
    if exists k :: k in table {
      assert |table.Keys| == |table|;
      var m := MinKey(table);
      assert Newer(table, m) == table.Keys - {m};
      forall k | k in table && k != m ensures |Newer(table, k)| < KEPT_MINUTES {
        NewerShrinks(table, m, k);
      }
      forall n | n in table && forall k :: k in table ==> n <= k ensures n == m {}
    }
  }

  lemma TotalPut(table: map<int, int>, m: int, amount: int)
    ensures Total(table[m := At(table, m) + amount]) == Total(table) + amount
  {
    var next := table[m := At(table, m) + amount];
    TotalWithout(next, m);
    if m in table {
      TotalWithout(table, m);
      assert next - {m} == table - {m};
    } else {
      assert next - {m} == table;
    }
  }

  lemma PutSize(table: map<int, int>, m: int, now: int)
    ensures |table[m := now]| == |table| + if m in table then 0 else 1
  {}

  /** The table after one accepted debit: if it drops anything, its oldest minute of seventeen. */
  lemma TableStep(next: map<int, int>, m: int) returns (dropped: Option<int>)
    requires |next| <= KEPT_MINUTES + 1 && m in next
    ensures dropped.None? ==> Latest16(next) == next && |next| <= KEPT_MINUTES
    ensures dropped.Some? ==> Latest16(next) == next - {dropped.value} && dropped.value in next
                              && (forall k :: k in next ==> dropped.value <= k)
                              && |next| == KEPT_MINUTES + 1 && |Latest16(next)| == KEPT_MINUTES
  {
    Latest16Drops(next);
    dropped := None;
    if |next| == KEPT_MINUTES + 1 {
      var e := MinKey(next);
      dropped := Some(e);
      assert next.Keys == (next - {e}).Keys + {e};
      assert |next.Keys| == |next| && |(next - {e}).Keys| == |next - {e}|;
    }
  }

  lemma TruthfulStep(table: map<int, int>, spent: int -> int, m: int, amount: int, perMinute: int, after: int -> int)
    requires Truthful(table, spent, perMinute) && Visible(table, m) && amount > 0
    requires At(table, m) + amount <= perMinute
    requires forall x :: after(x) == spent(x) + if x == m then amount else 0
    ensures Truthful(Latest16(table[m := At(table, m) + amount]), after, perMinute)
  {
    var next := table[m := At(table, m) + amount];
    ChargedEntries(table, spent, m, amount, perMinute, after);
    hide Latest16, Newer;
    PutSize(table, m, At(table, m) + amount);
    var dropped := TableStep(next, m);
    hide *;
    KeepNewest(table, spent, m, perMinute, next, dropped, Latest16(next), after);
  }

  lemma ChargedEntries(table: map<int, int>, spent: int -> int, m: int, amount: int, perMinute: int, after: int -> int)
    requires Truthful(table, spent, perMinute) && Visible(table, m) && amount > 0
    requires At(table, m) + amount <= perMinute
    requires forall x :: after(x) == spent(x) + if x == m then amount else 0
    ensures var next := table[m := At(table, m) + amount];
            forall x :: x in next ==> 0 < next[x] == after(x) <= perMinute
    ensures forall x :: 0 <= after(x) <= Max(perMinute, 0)
  {}

  lemma KeepNewest(table: map<int, int>, spent: int -> int, m: int, perMinute: int, next: map<int, int>,
                   dropped: Option<int>, kept: map<int, int>, after: int -> int)
    requires Truthful(table, spent, perMinute) && Visible(table, m) && next.Keys == table.Keys + {m}
    requires forall x :: x != m ==> after(x) == spent(x)
    requires forall x :: x in next ==> 0 < next[x] == after(x) <= perMinute
    requires forall x :: 0 <= after(x) <= Max(perMinute, 0)
    requires dropped.None? ==> kept == next && |next| <= KEPT_MINUTES
    requires dropped.Some? ==> kept == next - {dropped.value} && dropped.value in next
                               && (forall k :: k in next ==> dropped.value <= k) && |kept| == KEPT_MINUTES
    requires m !in table ==> |next| == |table| + 1
    requires m in table ==> |next| == |table|
    ensures Truthful(kept, after, perMinute)
  {
    forall x | x !in kept && after(x) > 0 ensures |kept| == KEPT_MINUTES && forall k :: k in kept ==> k > x {
      if x !in next {
        ForgottenEarlier(table, spent, m, perMinute, x);
        assert |kept| == KEPT_MINUTES;
        forall k | k in kept ensures k > x { assert k in next; }
      } else {
        assert dropped == Some(x);
        forall k | k in kept ensures k > x { assert k in next && k != x; }
      }
    }
    forall x | x in kept ensures 0 < kept[x] == after(x) <= perMinute { assert x in next && kept[x] == next[x]; }
    assert |kept| <= KEPT_MINUTES;
  }

  /** A minute already forgotten is older than everything kept and than the minute charged. */
  lemma ForgottenEarlier(table: map<int, int>, spent: int -> int, m: int, perMinute: int, x: int)
    requires Truthful(table, spent, perMinute) && Visible(table, m) && x !in table && x != m && spent(x) > 0
    ensures |table| == KEPT_MINUTES && m > x && forall k :: k in table ==> k > x
  {}

  lemma TotalStep(table: map<int, int>, spent: int -> int, m: int, amount: int, perMinute: int)
    requires Truthful(table, spent, perMinute) && amount > 0
    ensures Total(Latest16(table[m := At(table, m) + amount])) <= Total(table) + amount
  {
    TotalPut(table, m, amount);
    TotalPart(Latest16(table[m := At(table, m) + amount]), table[m := At(table, m) + amount]);
  }

  lemma AcceptedSpent(before: Minutes, init: seq<Debit>, d: Debit, perDay: int, perMinute: int)
    requires before == RunLedger(init, perDay, perMinute)
    requires Consume(before, d.minute, d.amount, perDay, perMinute).Ok?
    ensures var debits := init + [d];
            && RunLedger(debits, perDay, perMinute)
               == Minutes(before.credits + d.amount,
                          Latest16(before.byMinute[d.minute := At(before.byMinute, d.minute) + d.amount]))
            && Spent(debits, None, perDay, perMinute) == Spent(init, None, perDay, perMinute) + d.amount
            && (forall x :: ByMinute(debits, perDay, perMinute)(x)
                         == ByMinute(init, perDay, perMinute)(x) + if x == d.minute then d.amount else 0)
  {}

  lemma AcceptedStep(before: Minutes, init: seq<Debit>, d: Debit, perDay: int, perMinute: int)
    requires Faithful(before, init, perDay, perMinute) && d.amount > 0 && Visible(before.byMinute, d.minute)
    requires before == RunLedger(init, perDay, perMinute)
    requires Consume(before, d.minute, d.amount, perDay, perMinute).Ok?
    ensures Faithful(RunLedger(init + [d], perDay, perMinute), init + [d], perDay, perMinute)
  {
    hide Spent, RunLedger, Visible, Truthful, Total, Latest16, ByMinute;
    AcceptedSpent(before, init, d, perDay, perMinute);
    TruthfulStep(before.byMinute, ByMinute(init, perDay, perMinute), d.minute, d.amount, perMinute,
                 ByMinute(init + [d], perDay, perMinute));
    TotalStep(before.byMinute, ByMinute(init, perDay, perMinute), d.minute, d.amount, perMinute);
  }

  /** The ledger is bounded despite forgetting: as long as no debit falls in a minute
      older than everything kept, the day total is the exact sum, no minute's true
      total exceeds its limit, and the table stays a faithful window on it. */
  lemma {:induction false} LedgerBounded(debits: seq<Debit>, perDay: int, perMinute: int)
    requires AlwaysVisible(debits, perDay, perMinute)
    ensures Faithful(RunLedger(debits, perDay, perMinute), debits, perDay, perMinute)
    decreases |debits|
  {
    if debits != [] {
      var init, d := debits[..|debits| - 1], debits[|debits| - 1];
      assert debits == init + [d];
      var before := RunLedger(init, perDay, perMinute);
      VisiblePrefix(init, d, perDay, perMinute);
      hide *;
      LedgerBounded(init, perDay, perMinute);
      if Consume(before, d.minute, d.amount, perDay, perMinute).Ok? {
        AcceptedStep(before, init, d, perDay, perMinute);
      } else {
        RefusedStep(before, init, d, perDay, perMinute);
      }
    }
  }

  lemma VisiblePrefix(init: seq<Debit>, d: Debit, perDay: int, perMinute: int)
    requires AlwaysVisible(init + [d], perDay, perMinute)
    ensures AlwaysVisible(init, perDay, perMinute)
    ensures d.amount > 0 && Visible(RunLedger(init, perDay, perMinute).byMinute, d.minute)
  {
    var debits := init + [d];
    hide RunLedger, Visible;
    assert debits[..|init|] == init && debits[|init|] == d;
    forall i | 0 <= i < |init|
      ensures init[i].amount > 0 && Visible(RunLedger(init[..i], perDay, perMinute).byMinute, init[i].minute) {
      assert init[..i] == debits[..i] && init[i] == debits[i];
    }
  }

  lemma RefusedStep(before: Minutes, init: seq<Debit>, d: Debit, perDay: int, perMinute: int)
    requires Faithful(before, init, perDay, perMinute) && before == RunLedger(init, perDay, perMinute)
    requires Consume(before, d.minute, d.amount, perDay, perMinute).Fail?
    ensures Faithful(RunLedger(init + [d], perDay, perMinute), init + [d], perDay, perMinute)
  {}

  // ---------- a clock that never goes back ----------

  ghost predicate ClockNeverBack(debits: seq<Debit>) {
    (forall i :: 0 <= i < |debits| ==> debits[i].amount > 0)
    && forall i, j :: 0 <= i <= j < |debits| ==> debits[i].minute <= debits[j].minute
  }

  lemma {:induction false} KeptAreReal(debits: seq<Debit>, perDay: int, perMinute: int)
    ensures forall k :: k in RunLedger(debits, perDay, perMinute).byMinute ==>
              exists i :: 0 <= i < |debits| && debits[i].minute == k
    ensures debits == [] ==> RunLedger(debits, perDay, perMinute).byMinute == map[]
    decreases |debits|
  {
    if debits != [] {
      var init, d := debits[..|debits| - 1], debits[|debits| - 1];
      KeptAreReal(init, perDay, perMinute);
      var after := RunLedger(debits, perDay, perMinute);
      forall k | k in after.byMinute ensures exists i :: 0 <= i < |debits| && debits[i].minute == k {
        if k == d.minute {
          assert debits[|debits| - 1].minute == k;
        } else {
          assert k in RunLedger(init, perDay, perMinute).byMinute;
          var i :| 0 <= i < |init| && init[i].minute == k;
          assert debits[i].minute == k;
        }
      }
    }
  }

  lemma ClockVisible(debits: seq<Debit>, i: nat, perDay: int, perMinute: int)
    requires ClockNeverBack(debits) && i < |debits|
    ensures Visible(RunLedger(debits[..i], perDay, perMinute).byMinute, debits[i].minute)
  {
    KeptAreReal(debits[..i], perDay, perMinute);
    hide RunLedger;
    var table := RunLedger(debits[..i], perDay, perMinute).byMinute;
    if |table| >= KEPT_MINUTES {
      if !exists k :: k in table { assert false; }
      var k :| k in table;
      var j :| 0 <= j < i && debits[..i][j].minute == k;
      assert debits[j].minute <= debits[i].minute;
    }
  }

  /** With a clock that never goes back every debit is visible, so the bound holds for every run. */
  lemma LedgerBoundedByClock(debits: seq<Debit>, perDay: int, perMinute: int)
    requires ClockNeverBack(debits)
    ensures Faithful(RunLedger(debits, perDay, perMinute), debits, perDay, perMinute)
    ensures forall m :: Spent(debits, Some(m), perDay, perMinute) <= Max(perMinute, 0)
  {
    hide Visible, RunLedger, Total;
    forall i | 0 <= i < |debits| { ClockVisible(debits, i, perDay, perMinute); }
    LedgerBounded(debits, perDay, perMinute);
    forall m ensures Spent(debits, Some(m), perDay, perMinute) <= Max(perMinute, 0) {
      assert ByMinute(debits, perDay, perMinute)(m) == Spent(debits, Some(m), perDay, perMinute);
    }
  }
}
