/** The order a run must keep, as an automaton over its log: a push waits for the
    previous one to be verified, a debit is charged, pushed and verified before it
    counts, and a provider request spends exactly one such debit. What the log calls
    verified, debited or requested must also be grounded: in reads of the remote and in
    the ledger of the pushed commit. */
module Discipline {
  import opened Bars
  import opened Git
  import Ledger

  const MICROS_PER_MINUTE := 60_000_000

  function MinuteOf(at: int): int { at / MICROS_PER_MINUTE }

  // ---------- the ledger file of a commit ----------

  function LedgerOf(tree: Tree): Option<Minutes> {
    if Budget !in tree then Some(Minutes(0, map[]))
    else if tree[Budget].LedgerFile? && tree[Budget].state.credits >= 0 then Some(tree[Budget].state)
    else None
  }

  function Credits(tree: Tree): int { if LedgerOf(tree).Some? then LedgerOf(tree).value.credits else 0 }

  /** `next` is the ledger of `tree` after one more credit, charged to `minute` and to no other,
      with the sixteen latest minutes. */
  ghost predicate Charge(tree: Tree, next: Minutes, minute: int) {
    LedgerOf(tree).Some?
    && var before := LedgerOf(tree).value;
    next.credits == before.credits + 1
    && minute in next.byMinute && next.byMinute[minute] == Ledger.At(before.byMinute, minute) + 1
    && (forall k :: k in next.byMinute && k != minute ==> next.byMinute[k] == Ledger.At(before.byMinute, k))
    && forall k :: k in next.byMinute <==> Ledger.Recent(before.byMinute, minute, k)
  }

  /** The first charge of a day. */
  lemma FirstCharge(tree: Tree, next: Minutes, minute: int)
    requires Charge(tree, next, minute) && Budget !in tree
    ensures next == Minutes(1, map[minute := 1])
  {
    Ledger.FirstMinute(next.byMinute, minute);
  }

  /** The commit charges exactly one credit, to `minute`, against the ledger of its one parent. */
  ghost predicate ChargedCommit(c: Commit, minute: int) {
    |c.parents| == 1 && LedgerOf(c.tree).Some? && Charge(c.parents[0].tree, LedgerOf(c.tree).value, minute)
  }

  /** The commit charges one credit or leaves the ledger alone. */
  ghost predicate Booked(c: Commit) {
    |c.parents| == 1 && (LedgerOf(c.tree) == LedgerOf(c.parents[0].tree) || exists minute :: ChargedCommit(c, minute))
  }

  ghost predicate AllBooked(log: seq<Event>, from: nat) {
    forall k :: from <= k < |log| && log[k].PushedMain? ==> Booked(log[k].candidate)
  }

  // ---------- the automaton ----------

  datatype Pub = Settled(head: Commit) | Unconfirmed(head: Commit, candidate: Commit)

  datatype Phase =
    | Idle
    | Owed(since: int)
    | Sent(since: int, receipt: Commit)
    | Durable(since: int, receipt: Commit)
    | Held(receipt: Commit, minute: int)

  datatype State = State(pub: Pub, phase: Phase, ok: bool)

  function Next(s: State, e: Event): State {
    match e
    case PushedMain(c) =>
      if s.pub.Settled? && c.parents == [s.pub.head]
      then State(Unconfirmed(s.pub.head, c), if s.phase.Owed? then Sent(s.phase.since, c) else Idle, s.ok)
      else s.(ok := false)
    case Verified(c) =>
      if s.pub.Unconfirmed? && s.pub.candidate == c
      then State(Settled(c), if s.phase.Sent? && s.phase.receipt == c then Durable(s.phase.since, c) else s.phase, s.ok)
      else if s.pub == Settled(c) then s
      else s.(ok := false)
    case Charged(at) => s.(phase := Owed(at))
    case Debited(c, minute, at) =>
      if s.phase.Durable? && s.phase.receipt == c && s.phase.since <= at
         && MinuteOf(s.phase.since) == minute && MinuteOf(at) == minute
      then s.(phase := Held(c, minute))
      else s.(ok := false)
    case Requested(_, c, at) =>
      if s.phase.Held? && s.phase.receipt == c && s.phase.minute == MinuteOf(at)
      then s.(phase := Idle)
      else s.(ok := false)
    case _ => s
  }

  /** The automaton's state after the events from position `from` on. */
  function After(base: Commit, log: seq<Event>, from: nat): State {
    if |log| <= from then State(Settled(base), Idle, true)
    else Next(After(base, log[..|log| - 1], from), log[|log| - 1])
  }

  lemma AfterSnoc(base: Commit, log: seq<Event>, from: nat, e: Event)
    requires from <= |log|
    ensures After(base, log + [e], from) == Next(After(base, log, from), e)
    ensures Grounded(log, from) && Ground(log + [e], from, |log|) ==> Grounded(log + [e], from)
  {
    var now := log + [e];
    if Grounded(log, from) && Ground(now, from, |log|) {
      forall k | from <= k < |now| ensures Ground(now, from, k) {
        if k < |log| { SameGround(log, now, from, k); }
      }
    }
  }

  // ---------- what stands behind the labels ----------

  /** Directly before position `k` the tag, HEAD and main were all read as `c`. */
  ghost predicate ReadBack(log: seq<Event>, from: nat, k: int, c: Commit) {
    from + 3 <= k <= |log| && log[k - 3] == SawTag(c, Some(c)) && log[k - 2] == SawHead(c) && log[k - 1] == SawMain(c)
  }

  /** A verified commit was just read back; a debited one charges its minute; a request
      follows a read of main at its debit; an answer follows its request. */
  ghost predicate Ground(log: seq<Event>, from: nat, k: int)
    requires from <= k < |log|
  {
    match log[k]
    case Verified(c) => ReadBack(log, from, k, c)
    case Debited(c, minute, _) => ChargedCommit(c, minute)
    case Requested(_, c, _) => k > from && log[k - 1] == SawMain(c)
    case Answered(symbol, _) => k > from && log[k - 1].Requested? && log[k - 1].symbol == symbol
    case _ => true
  }

  ghost predicate Grounded(log: seq<Event>, from: nat) {
    forall k :: from <= k < |log| ==> Ground(log, from, k)
  }

  lemma SameGround(was: seq<Event>, now: seq<Event>, from: nat, k: int)
    requires was <= now && from <= k < |was|
    ensures Ground(now, from, k) <==> Ground(was, from, k)
  {
    assert forall i :: 0 <= i <= k ==> now[i] == was[i];
  }

  lemma GroundedEarlier(log: seq<Event>, from: nat, k: nat)
    requires Grounded(log, from) && k <= |log|
    ensures Grounded(log[..k], from)
  {
    forall i | from <= i < k ensures Ground(log[..k], from, i) { SameGround(log[..k], log, from, i); }
  }

  ghost predicate Neutral(was: seq<Event>, now: seq<Event>) {
    was <= now && forall k :: |was| <= k < |now| ==> now[k].Neutral()
  }

  lemma {:induction false} AfterNeutral(base: Commit, was: seq<Event>, now: seq<Event>, from: nat)
    requires from <= |was| && Neutral(was, now)
    ensures After(base, now, from) == After(base, was, from)
    ensures Grounded(was, from) ==> Grounded(now, from)
    decreases |now| - |was|
  {
    if |now| == |was| {
      assert now == was;
    } else {
      var init, e := now[..|now| - 1], now[|now| - 1];
      assert now == init + [e] && e.Neutral();
      AfterNeutral(base, was, init, from);
      AfterSnoc(base, init, from, e);
    }
  }

  lemma {:induction false} OkEarlier(base: Commit, log: seq<Event>, from: nat, k: nat)
    requires After(base, log, from).ok && k <= |log|
    ensures After(base, log[..k], from).ok
    decreases |log| - k
  {
    if k == |log| {
      assert log[..k] == log;
    } else if |log| <= from {
    } else {
      var init := log[..|log| - 1];
      OkEarlier(base, init, from, k);
      assert init[..k] == log[..k];
    }
  }

  // ---------- what an accepted log means ----------

  /** The life of the debit a request spends: charged, pushed, verified and recorded
      in this order and in one UTC minute, with no other request since the charge. The
      pushed commit charges one credit to that minute, it was verified by reading tag,
      HEAD and main, and main still was that commit directly before the request. */
  ghost predicate OwnDebit(log: seq<Event>, from: nat, k: nat, c: Commit, at: int, a: int, b: int, v: int, d: int) {
    && OwnOrder(log, from, k, c, at, a, b, v, d)
    && ChargedCommit(c, MinuteOf(at)) && ReadBack(log, from, v, c) && log[k - 1] == SawMain(c)
  }

  ghost predicate OwnOrder(log: seq<Event>, from: nat, k: nat, c: Commit, at: int, a: int, b: int, v: int, d: int) {
    && from <= a < b < v < d < k < |log|
    && log[a].Charged? && log[b] == PushedMain(c) && log[v] == Verified(c)
    && log[d].Debited? && log[d].receipt == c && log[a].at <= log[d].at
    && MinuteOf(log[a].at) == log[d].minute == MinuteOf(log[d].at) == MinuteOf(at)
    && forall i :: a <= i < k ==> !log[i].Requested?
  }

  /** Where the phases of the current debit stand in the log. */
  ghost predicate Traced(log: seq<Event>, from: nat, phase: Phase) {
    match phase
    case Idle => true
    case Owed(since) => exists a :: TraceOwed(log, from, since, a)
    case Sent(since, c) => exists a, b :: TraceOwed(log, from, since, a) && a < b < |log| && log[b] == PushedMain(c)
    case Durable(since, c) => exists a, b, v :: TraceDurable(log, from, since, c, a, b, v)
    case Held(c, minute) =>
      exists a, b, v, d, since :: TraceDurable(log, from, since, c, a, b, v) && v < d < |log| && log[d].Debited?
                                  && log[d].receipt == c && since <= log[d].at
                                  && MinuteOf(since) == minute == log[d].minute == MinuteOf(log[d].at)
  }

  ghost predicate TraceOwed(log: seq<Event>, from: nat, since: int, a: int) {
    from <= a < |log| && log[a] == Charged(since) && forall i :: a <= i < |log| ==> !log[i].Requested?
  }

  ghost predicate TraceDurable(log: seq<Event>, from: nat, since: int, c: Commit, a: int, b: int, v: int) {
    TraceOwed(log, from, since, a) && a < b < v < |log| && log[b] == PushedMain(c) && log[v] == Verified(c)
  }

  lemma {:induction false} PhaseTraced(base: Commit, log: seq<Event>, from: nat)
    requires After(base, log, from).ok
    ensures Traced(log, from, After(base, log, from).phase)
    decreases |log|
  {
    if |log| > from {
      var init, e := log[..|log| - 1], log[|log| - 1];
      var s := After(base, init, from);
      PhaseTraced(base, init, from);
      assert log == init + [e];
      TracedStep(init, from, s, e);
    }
  }

  lemma TracedStep(init: seq<Event>, from: nat, s: State, e: Event)
    requires Traced(init, from, s.phase) && from <= |init| && Next(s, e).ok
    ensures Traced(init + [e], from, Next(s, e).phase)
  {
    var log := init + [e];
    var t := Next(s, e).phase;
    if t == s.phase && !e.Requested? {
      TracedGrows(init, from, s.phase, e);
    } else if e.Charged? {
      assert TraceOwed(log, from, e.at, |init|);
    } else if t.Sent? {
      var a :| TraceOwed(init, from, s.phase.since, a);
      assert TraceOwed(log, from, t.since, a) && log[|init|] == PushedMain(t.receipt);
    } else if t.Durable? {
      var a, b :| TraceOwed(init, from, s.phase.since, a) && a < b < |init| && init[b] == PushedMain(s.phase.receipt);
      assert TraceDurable(log, from, t.since, t.receipt, a, b, |init|);
    } else if t.Held? {
      var a, b, v :| TraceDurable(init, from, s.phase.since, s.phase.receipt, a, b, v);
      assert TraceDurable(log, from, s.phase.since, t.receipt, a, b, v);
      assert log[|init|] == e;
    }
  }

  lemma TracedGrows(init: seq<Event>, from: nat, phase: Phase, e: Event)
    requires Traced(init, from, phase) && !e.Requested?
    ensures Traced(init + [e], from, phase)
  {
    var log := init + [e];
    assert forall i :: 0 <= i < |init| ==> log[i] == init[i];
    match phase
    case Idle =>
    case Owed(since) =>
      var a :| TraceOwed(init, from, since, a);
      assert TraceOwed(log, from, since, a);
    case Sent(since, c) =>
      var a, b :| TraceOwed(init, from, since, a) && a < b < |init| && init[b] == PushedMain(c);
      assert TraceOwed(log, from, since, a) && log[b] == PushedMain(c);
    case Durable(since, c) =>
      var a, b, v :| TraceDurable(init, from, since, c, a, b, v);
      assert TraceDurable(log, from, since, c, a, b, v);
    case Held(c, minute) =>
      var a, b, v, d, since :| TraceDurable(init, from, since, c, a, b, v) && v < d < |init| && init[d].Debited?
                               && init[d].receipt == c && since <= init[d].at
                               && MinuteOf(since) == minute == init[d].minute == MinuteOf(init[d].at);
      assert TraceDurable(log, from, since, c, a, b, v) && log[d] == init[d];
  }

  /** Debit before request: in an accepted log every request has its own debit,
      charged, pushed and verified earlier in the request's minute. No debit serves
      two requests, since no other request stands between the charge and this one. */
  lemma RequestHasOwnDebit(base: Commit, log: seq<Event>, from: nat, k: nat)
    requires After(base, log, from).ok && Grounded(log, from) && from <= k < |log| && log[k].Requested?
    ensures exists a, b, v, d :: OwnDebit(log, from, k, log[k].debit, log[k].at, a, b, v, d)
  {
    HeldBefore(base, log, from, k);
    PhaseTraced(base, log[..k], from);
    hide After, Next, ChargedCommit, Traced, OwnOrder, ReadBack;
    var a, b, v, d := HeldDebit(log, from, k, After(base, log[..k], from).phase);
    OrderedDebit(log, from, k, log[k].debit, log[k].at, a, b, v, d);
  }

  lemma HeldBefore(base: Commit, log: seq<Event>, from: nat, k: nat)
    requires After(base, log, from).ok && from <= k < |log| && log[k].Requested?
    ensures After(base, log[..k], from).ok && After(base, log[..k], from).phase == Held(log[k].debit, MinuteOf(log[k].at))
  {
    OkEarlier(base, log, from, k + 1);
    assert log[..k + 1] == log[..k] + [log[k]];
    AfterSnoc(base, log[..k], from, log[k]);
    hide After;
  }

  lemma OrderedDebit(log: seq<Event>, from: nat, k: nat, c: Commit, at: int, a: int, b: int, v: int, d: int)
    requires Grounded(log, from) && OwnOrder(log, from, k, c, at, a, b, v, d) && log[k].Requested? && log[k].debit == c
    ensures OwnDebit(log, from, k, c, at, a, b, v, d)
  {
    hide ChargedCommit, ReadBack;
    assert Ground(log, from, v) && Ground(log, from, d) && Ground(log, from, k);
  }

  lemma HeldDebit(log: seq<Event>, from: nat, k: nat, phase: Phase) returns (a: int, b: int, v: int, d: int)
    requires from <= k < |log| && log[k].Requested? && phase.Held? && Traced(log[..k], from, phase)
    requires phase.minute == MinuteOf(log[k].at) && phase.receipt == log[k].debit
    ensures OwnOrder(log, from, k, log[k].debit, log[k].at, a, b, v, d)
  {
    var since;
    a, b, v, d, since :| TraceDurable(log[..k], from, since, phase.receipt, a, b, v) && v < d < k
                         && log[..k][d].Debited? && log[..k][d].receipt == phase.receipt && since <= log[..k][d].at
                         && MinuteOf(since) == phase.minute == log[..k][d].minute == MinuteOf(log[..k][d].at);
    forall i | a <= i < k ensures !log[i].Requested? { assert log[..k][i] == log[i]; }
  }

  function Requests(log: seq<Event>, from: nat): nat {
    if |log| <= from then 0 else Requests(log[..|log| - 1], from) + if log[|log| - 1].Requested? then 1 else 0
  }

  function Debits(log: seq<Event>, from: nat): nat {
    if |log| <= from then 0 else Debits(log[..|log| - 1], from) + if log[|log| - 1].Debited? then 1 else 0
  }

  /** Between two logs nothing is recorded as debited, requested or answered. */
  ghost predicate Still(was: seq<Event>, now: seq<Event>) {
    was <= now && forall k :: |was| <= k < |now| ==> !now[k].Debited? && !now[k].Requested? && !now[k].Answered?
  }

  lemma {:induction false} StillCounts(was: seq<Event>, now: seq<Event>, from: nat)
    requires from <= |was| && Still(was, now)
    ensures Requests(now, from) == Requests(was, from) && Debits(now, from) == Debits(was, from)
    decreases |now| - |was|
  {
    if |now| == |was| {
      assert now == was;
    } else {
      StillCounts(was, now[..|now| - 1], from);
    }
  }

  lemma StillJoin(a: seq<Event>, b: seq<Event>, c: seq<Event>)
    requires Still(a, b) && Still(b, c)
    ensures Still(a, c)
  {}

  lemma CountsSnoc(log: seq<Event>, from: nat, e: Event)
    requires from <= |log|
    ensures Requests(log + [e], from) == Requests(log, from) + if e.Requested? then 1 else 0
    ensures Debits(log + [e], from) == Debits(log, from) + if e.Debited? then 1 else 0
  {
    assert (log + [e])[..|log|] == log;
  }

  /** Requests attempted never exceed durable debits. */
  lemma {:induction false} RequestsWithinDebits(base: Commit, log: seq<Event>, from: nat)
    requires After(base, log, from).ok
    ensures Requests(log, from) + (if After(base, log, from).phase.Held? then 1 else 0) <= Debits(log, from)
    decreases |log|
  {
    if |log| > from {
      RequestsWithinDebits(base, log[..|log| - 1], from);
    }
  }

  /** Each recorded debit charged a credit of its own: the last verified ledger exceeds the
      first by at least the number of debits. */
  lemma {:induction false} DebitsAreCharged(base: Commit, log: seq<Event>, from: nat)
    requires After(base, log, from).ok && Grounded(log, from) && AllBooked(log, from)
    ensures Paid(After(base, log, from), Debits(log, from), base)
    ensures Requests(log, from) <= Debits(log, from) <= Credits(After(base, log, from).pub.head.tree) - Credits(base.tree)
    decreases |log|
  {
    RequestsWithinDebits(base, log, from);
    if |log| > from {
      var init, e := log[..|log| - 1], log[|log| - 1];
      GroundedEarlier(log, from, |log| - 1);
      assert AllBooked(init, from) && Ground(log, from, |log| - 1);
      assert e.PushedMain? ==> Booked(e.candidate);
      DebitsAreCharged(base, init, from);
      hide Ground, Grounded, AllBooked, Booked, ChargedCommit, Next, Paid;
      PaidStep(After(base, init, from), e, Debits(init, from), base);
      PaidMeans(After(base, log, from), Debits(log, from), base);
    }
  }

  /** The verified ledger has paid for `debits`, and for one more while a charge waits for its receipt. */
  ghost predicate Paid(s: State, debits: nat, base: Commit) {
    && debits <= Credits(s.pub.head.tree) - Credits(base.tree)
    && (s.pub.Unconfirmed? ==> s.pub.candidate.parents == [s.pub.head] && Booked(s.pub.candidate))
    && (s.phase.Sent? ==> s.pub.Unconfirmed? && s.pub.candidate == s.phase.receipt)
    && (s.phase.Durable? ==> s.pub == Settled(s.phase.receipt) && Spare(s.phase.receipt, debits, base))
  }

  lemma PaidMeans(s: State, debits: nat, base: Commit)
    requires Paid(s, debits, base)
    ensures debits <= Credits(s.pub.head.tree) - Credits(base.tree)
  {}

  lemma PaidStep(s: State, e: Event, debits: nat, base: Commit)
    requires Paid(s, debits, base) && Next(s, e).ok && (e.PushedMain? ==> Booked(e.candidate))
    requires e.Debited? ==> ChargedCommit(e.receipt, e.minute)
    ensures Paid(Next(s, e), debits + if e.Debited? then 1 else 0, base)
  {
    hide LedgerOf, Credits, Booked, ChargedCommit;
    if e.Verified? && s.pub.Unconfirmed? { BookedCredits(e.commit); }
    if e.Debited? { ChargedCredits(e.receipt, e.minute); }
  }

  /** If the commit charged a credit, one more than `debits` were. */
  ghost predicate Spare(c: Commit, debits: nat, base: Commit) {
    |c.parents| == 1 && Credits(c.tree) == Credits(c.parents[0].tree) + 1 ==> debits + 1 <= Credits(c.tree) - Credits(base.tree)
  }

  lemma BookedCredits(c: Commit)
    requires Booked(c)
    ensures Credits(c.parents[0].tree) <= Credits(c.tree) <= Credits(c.parents[0].tree) + 1
  {}

  lemma ChargedCredits(c: Commit, minute: int)
    requires ChargedCommit(c, minute)
    ensures |c.parents| == 1 && Credits(c.tree) == Credits(c.parents[0].tree) + 1
  {}

  /** One publication at a time: between two pushes of main the first was verified,
      and each push builds on the commit verified last. */
  lemma {:induction false} PushesAreVerified(base: Commit, log: seq<Event>, from: nat, i: nat, k: nat)
    requires After(base, log, from).ok && Grounded(log, from)
    requires from <= i < k < |log| && log[i].PushedMain? && log[k].PushedMain?
    ensures exists v :: i < v < k && log[v] == Verified(log[i].candidate) && ReadBack(log, from, v, log[i].candidate)
  {
    OkEarlier(base, log, from, k + 1);
    assert log[..k + 1][..k] == log[..k];
    OkEarlier(base, log, from, i + 1);
    assert log[..i + 1][..i] == log[..i];
    SettledBy(base, log, from, i, k);
    var v :| i < v < k && log[v] == Verified(log[i].candidate);
    assert Ground(log, from, v);
  }

  lemma {:induction false} SettledBy(base: Commit, log: seq<Event>, from: nat, i: nat, k: nat)
    requires from <= i < k <= |log| && After(base, log[..k], from).ok
    requires log[i].PushedMain? && After(base, log[..i + 1], from).pub.Unconfirmed?
    requires After(base, log[..i + 1], from).pub.candidate == log[i].candidate
    ensures After(base, log[..k], from).pub == After(base, log[..i + 1], from).pub
         || exists v :: i < v < k && log[v] == Verified(log[i].candidate)
    decreases k
  {
    if i + 1 < k {
      assert log[..k][..k - 1] == log[..k - 1];
      SettledBy(base, log, from, i, k - 1);
    }
  }

  /** Every push of an accepted log builds on the commit verified last. */
  lemma {:induction false} PushBuildsOnVerified(base: Commit, log: seq<Event>, from: nat, k: nat)
    requires After(base, log, from).ok && Grounded(log, from) && from <= k < |log| && log[k].PushedMain?
    ensures exists h :: log[k].candidate.parents == [h]
                        && (h == base || exists v :: from <= v < k && log[v] == Verified(h) && ReadBack(log, from, v, h))
  {
    OkEarlier(base, log, from, k + 1);
    assert log[..k + 1][..k] == log[..k];
    OkEarlier(base, log, from, k);
    HeadVerified(base, log[..k], from);
    var h := After(base, log[..k], from).pub.head;
    if h != base {
      var v :| from <= v < k && log[..k][v] == Verified(h);
      assert log[v] == Verified(h) && Ground(log, from, v);
    }
  }

  lemma {:induction false} HeadVerified(base: Commit, log: seq<Event>, from: nat)
    requires After(base, log, from).ok
    ensures var h := After(base, log, from).pub.head;
            h == base || exists v :: from <= v < |log| && log[v] == Verified(h)
    decreases |log|
  {
    if |log| > from {
      HeadVerified(base, log[..|log| - 1], from);
      var h := After(base, log, from).pub.head;
      var g := After(base, log[..|log| - 1], from).pub.head;
      if h != base {
        if h == g {
          var v :| from <= v < |log| - 1 && log[..|log| - 1][v] == Verified(g);
          assert log[v] == Verified(h);
        } else {
          assert log[|log| - 1] == Verified(h);
        }
      }
    }
  }
}
