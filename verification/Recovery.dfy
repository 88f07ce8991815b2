/** Admission and guarded recovery: requests are made only against durable debits,
    and market facts reach the remote in one complete commit or not at all. */
module Recovery {
  import opened Bars
  import opened Git
  import opened Discipline
  import opened Publishing
  import opened Candidates
  import PushExact
  import Retention

  // ---------- the provider request ----------

  /** Every push of main between two logs is a metadata commit. */
  ghost predicate MetadataPushes(was: seq<Event>, now: seq<Event>) {
    was <= now && forall k :: |was| <= k < |now| && now[k].PushedMain? ==> MetadataCommit(now[k].candidate)
  }

  /** What one fetch adds to the log: main read at the debit, the request, the answer if it is one. */
  ghost predicate Exchange(was: seq<Event>, now: seq<Event>, symbol: string, c: Commit, at: int,
                           answer: Result<seq<Bar>, Failure>) {
    now == was + [SawMain(c), Requested(symbol, c, at)] + if answer.Ok? then [Answered(symbol, answer.value)] else []
  }

  /** One fetch: the guard runs inside it, directly before HTTP. */
  method FetchReplacement(w: StorePublisher, symbol: string, debit: BudgetDebit, cfg: Config)
    returns (attempted: bool, answer: Result<seq<Bar>, Failure>)
    requires w.Valid() && w.Safe() && w.S() == State(Settled(w.head), Held(w.head, debit.minute), true)
    requires debit.commit == w.head
    modifies w`time, w.repo
    ensures w.Valid() && w.Safe() && w.repo.Extends() && w.head == old(w.head)
    ensures MetadataPushes(old(w.repo.log), w.repo.log)
    ensures attempted ==> exists at ::
              Timely(cfg, debit.minute, at) && Exchange(old(w.repo.log), w.repo.log, symbol, w.head, at, answer)
    ensures attempted ==> w.repo.head == w.head && w.work == w.head.tree
                          && debit.blob == (if Budget in w.work then Some(w.work[Budget]) else None)
    ensures !attempted ==> Neutral(old(w.repo.log), w.repo.log)
    ensures answer.Ok? ==> attempted
    ensures answer.Fail? ==> !answer.error.published && !answer.error.debited
    ensures Requests(w.repo.log, w.from) == Requests(old(w.repo.log), w.from) + if attempted then 1 else 0
    ensures Debits(w.repo.log, w.from) == Debits(old(w.repo.log), w.from)
  {
    hide After, Ancestor, Facts, MetadataCommit, Requests, Debits, Repo.Valid, Grounded, Still;
    attempted := false;
    ghost var was := w.repo.log;
    var unprepared: bool := *;
    NeutralSends(was, was, w.head, w.head.tree);
    if unprepared { return false, Fail(Plain(ContractInvalid)); }
    var e := w.GuardProviderRequest(debit, cfg);
    NeutralSends(was, w.repo.log, w.head, w.head.tree);
    StillCounts(was, w.repo.log, w.from);
    if e.Some? { return false, Fail(e.value.(debited := false)); }
    var at := w.time;
    Send(w, symbol, debit);
    attempted := true;
    w.Tick();
    var ok: bool := *;
    answer := Fail(Plain(ProviderRejected));
    if ok {
      var rows: seq<Bar> := *;
      Receive(w, symbol, rows);
      answer := Ok(rows);
    }
    assert Exchange(was, w.repo.log, symbol, w.head, at, answer);
  }

  /** The HTTP request itself, which the receipt in hand allows. */
  method Send(w: StorePublisher, symbol: string, debit: BudgetDebit)
    requires w.Valid() && w.Safe() && w.S() == State(Settled(w.head), Held(w.head, MinuteOf(w.time)), true)
    requires debit.commit == w.head && w.from < |w.repo.log| && w.repo.log[|w.repo.log| - 1] == SawMain(w.head)
    modifies w.repo`log
    ensures w.Valid() && w.Safe() && w.S() == old(w.S()).(phase := Idle)
    ensures w.repo.log == old(w.repo.log) + [Requested(symbol, debit.commit, w.time)]
    ensures Requests(w.repo.log, w.from) == Requests(old(w.repo.log), w.from) + 1
    ensures Debits(w.repo.log, w.from) == Debits(old(w.repo.log), w.from)
  {
    hide Repo.Valid, Ancestor, Grounded, After, Requests, Debits;
    ghost var mark := w.repo.log;
    var request := Requested(symbol, debit.commit, w.time);
    w.repo.Note(request);
    AfterSnoc(w.base, mark, w.from, request);
    CountsSnoc(mark, w.from, request);
  }

  /** What the provider returned. */
  method Receive(w: StorePublisher, symbol: string, rows: seq<Bar>)
    requires w.Valid() && w.Safe() && w.from < |w.repo.log|
    requires w.repo.log[|w.repo.log| - 1].Requested? && w.repo.log[|w.repo.log| - 1].symbol == symbol
    modifies w.repo`log
    ensures w.Valid() && w.Safe() && w.repo.log == old(w.repo.log) + [Answered(symbol, rows)]
    ensures Requests(w.repo.log, w.from) == Requests(old(w.repo.log), w.from)
    ensures Debits(w.repo.log, w.from) == Debits(old(w.repo.log), w.from)
  {
    hide Repo.Valid, Ancestor, Grounded, After, Requests, Debits;
    ghost var mark := w.repo.log;
    w.repo.Note(Answered(symbol, rows));
    AfterSnoc(w.base, mark, w.from, Answered(symbol, rows));
    CountsSnoc(mark, w.from, Answered(symbol, rows));
  }

  // ---------- admission ----------

  /** `writer.report`, with what it means for the run. */
  method Diagnose(w: StorePublisher, status: string) returns (r: Result<Commit, Failure>)
    requires w.Valid() && w.Safe()
    modifies w`head, w`work, w`time, w.repo
    ensures w.repo.Valid() && w.repo.Extends() && w.from <= |w.repo.log| && w.S().ok && w.Valid() && w.Safe()
    ensures MetadataPushes(old(w.repo.log), w.repo.log)
    ensures Facts(w.head.tree) == Facts(old(w.head).tree)
    ensures Requests(w.repo.log, w.from) == Requests(old(w.repo.log), w.from)
    ensures Debits(w.repo.log, w.from) == Debits(old(w.repo.log), w.from)
    ensures r.Fail? ==> !r.error.debited
  {
    hide After, Ancestor, Facts, MetadataCommit, Repo.Valid, Grounded, Still, Requests, Debits;
    r := w.PublishReport(status);
    StillCounts(old(w.repo.log), w.repo.log, w.from);
  }

  lemma MetadataNone(log: seq<Event>)
    ensures MetadataPushes(log, log)
  {}

  lemma MetadataTransitive(a: seq<Event>, b: seq<Event>, c: seq<Event>)
    requires MetadataPushes(a, b) && MetadataPushes(b, c)
    ensures MetadataPushes(a, c)
  {}

  datatype Tally = Tally(status: string, requests: nat, debits: nat, admitted: nat, failures: nat)

  /** From position `from` on, the log has an answer for the target that passes the comparison. */
  ghost predicate Admits(log: seq<Event>, from: nat, target: Entry, rules: Rules) {
    exists k :: from <= k < |log| && log[k].Answered? && log[k].symbol == target.symbol
                && Qualify(target, log[k].rows, rules).Some?
  }

  lemma AdmitsGrows(was: seq<Event>, now: seq<Event>, from: nat, earlier: nat, target: Entry, rules: Rules)
    requires was <= now && earlier <= from && Admits(was, from, target, rules)
    ensures Admits(now, earlier, target, rules)
  {
    var k :| from <= k < |was| && was[k].Answered? && was[k].symbol == target.symbol
             && Qualify(target, was[k].rows, rules).Some?;
    assert now[k] == was[k];
  }

  /** `execute`: compare every target with the provider's answer; never write a market fact. */
  method Execute(w: StorePublisher, targets: seq<Entry>, cfg: Config, rules: Rules)
    returns (report: Tally, r: Result<Commit, Failure>)
    requires w.Valid() && w.Safe() && |w.repo.log| == w.from
    modifies w`head, w`work, w`time, w.repo
    // the log passes the discipline, and what it calls verified or debited is grounded
    ensures w.Valid() && w.Safe() && w.repo.Extends()
    // nothing but the budget and the report ever changes on the remote
    ensures MetadataPushes(old(w.repo.log), w.repo.log) && Facts(w.head.tree) == Facts(old(w.head).tree)
    // the reported request count is the true one, and each request was paid for in the published ledger
    ensures report.requests == Requests(w.repo.log, w.from)
    ensures report.requests <= Debits(w.repo.log, w.from) <= Credits(w.head.tree) - Credits(old(w.head).tree)
    ensures Debits(w.repo.log, w.from) <= report.debits <= Debits(w.repo.log, w.from) + 1
    // a pass means every target was requested, once, and its answer passed the comparison
    ensures report.status == "PASS" ==>
              report.requests == |targets| == report.admitted && report.failures == 0
              && forall i :: 0 <= i < |targets| ==> Admits(w.repo.log, w.from, targets[i], rules)
  {
    hide After, Ancestor, Facts, MetadataCommit, Requests, Debits, Repo.Valid, Credits, Admits, Grounded,
         StorePublisher.Valid, StorePublisher.Safe, MetadataPushes, StorePublisher.S, ChangedPaths, LedgerOf;
    report := Tally("IN_PROGRESS", 0, 0, 0, 0);
    FreshRun(w);
    ghost var start, base := w.repo.log, w.head;
    r := Diagnose(w, "IN_PROGRESS");
    if r.Fail? {
      PaidFor(w, start);
      return;
    }
    report := AdmitAll(w, targets, cfg, rules, report, start);
    if report.status != "BLOCKED" {
      report := report.(status := if report.failures == 0 && report.admitted == |targets| then "PASS" else "FAIL");
    }

    ghost var mark := w.repo.log;
    if w.ChangesAllowed() {
      r := Diagnose(w, report.status);
      MetadataTransitive(start, mark, w.repo.log);
      AllAdmitGrow(mark, w.repo.log, w.from, targets, rules);
    } else {
      r := Fail(Plain(UnexpectedChange));
    }
    PaidFor(w, start);
  }

  /** The loop over the targets. */
  method AdmitAll(w: StorePublisher, targets: seq<Entry>, cfg: Config, rules: Rules, before: Tally, ghost start: seq<Event>)
    returns (report: Tally)
    requires w.Valid() && w.Safe() && before == Tally("IN_PROGRESS", 0, 0, 0, 0)
    requires Requests(w.repo.log, w.from) == 0 == Debits(w.repo.log, w.from)
    requires MetadataPushes(start, w.repo.log) && w.from <= |w.repo.log|
    modifies w`head, w`work, w`time, w.repo
    ensures w.Valid() && w.Safe() && w.repo.Extends()
    ensures MetadataPushes(start, w.repo.log) && Facts(w.head.tree) == Facts(old(w.head).tree)
    ensures report.requests == Requests(w.repo.log, w.from)
    ensures Debits(w.repo.log, w.from) <= report.debits <= Debits(w.repo.log, w.from) + 1
    ensures report.status in {"IN_PROGRESS", "BLOCKED"} && report.admitted <= report.requests <= |targets|
    ensures report.failures == 0 && report.admitted == |targets| ==>
              forall i :: 0 <= i < |targets| ==> Admits(w.repo.log, w.from, targets[i], rules)
  {
    hide After, Ancestor, Facts, MetadataCommit, Requests, Debits, Repo.Valid, Admits, Grounded, StorePublisher.Valid,
         StorePublisher.Safe, MetadataPushes;
    report := before;
    var i := 0;
    while i < |targets| && report.status != "BLOCKED"
      invariant 0 <= i <= |targets|
      invariant w.Valid() && w.Safe() && w.repo.Extends() && w.from <= |w.repo.log|
      invariant MetadataPushes(start, w.repo.log) && Facts(w.head.tree) == Facts(old(w.head).tree)
      invariant report.requests == Requests(w.repo.log, w.from)
      invariant report.admitted <= report.requests <= i && report.status in {"IN_PROGRESS", "BLOCKED"}
      invariant report.admitted + report.failures == i
      invariant Debits(w.repo.log, w.from) <= report.debits
      invariant report.debits <= Debits(w.repo.log, w.from) + if report.status == "BLOCKED" then 1 else 0
      invariant report.failures == 0 ==> forall j :: 0 <= j < i ==> Admits(w.repo.log, w.from, targets[j], rules)
    {
      ghost var mark := w.repo.log;
      report := AdmitOne(w, targets[i], cfg, rules, report);
      MetadataTransitive(start, mark, w.repo.log);
      if report.failures == 0 {
        AdmitsGrows(w.repo.log, w.repo.log, |mark|, w.from, targets[i], rules);
        AllAdmitGrow(mark, w.repo.log, w.from, targets[..i], rules);
        assert forall j :: 0 <= j < i ==> targets[..i][j] == targets[j];
      }
      i := i + 1;
    }
  }

  lemma AllAdmitGrow(was: seq<Event>, now: seq<Event>, from: nat, targets: seq<Entry>, rules: Rules)
    requires was <= now
    ensures (forall i :: 0 <= i < |targets| ==> Admits(was, from, targets[i], rules)) ==>
              forall i :: 0 <= i < |targets| ==> Admits(now, from, targets[i], rules)
  {
    hide Admits;
    if forall i :: 0 <= i < |targets| ==> Admits(was, from, targets[i], rules) {
      forall i | 0 <= i < |targets| ensures Admits(now, from, targets[i], rules) {
        AdmitsGrows(was, now, from, from, targets[i], rules);
      }
    }
  }

  /** A run that has only just begun stands at its base and has counted nothing. */
  lemma FreshRun(w: StorePublisher)
    requires w.Valid() && |w.repo.log| == w.from
    ensures w.head == w.base && Requests(w.repo.log, w.from) == 0 == Debits(w.repo.log, w.from)
  {}

  /** The last verified ledger has charged every request of the run. */
  lemma PaidFor(w: StorePublisher, start: seq<Event>)
    requires w.Valid() && |start| == w.from && MetadataPushes(start, w.repo.log)
    ensures Requests(w.repo.log, w.from) <= Debits(w.repo.log, w.from) <= Credits(w.head.tree) - Credits(w.base.tree)
  {
    hide Facts, Booked, Grounded, After, Requests, Debits, Credits, Repo.Valid;
    assert AllBooked(w.repo.log, w.from);
    DebitsAreCharged(w.base, w.repo.log, w.from);
  }

  /** `debit_before_request`, with what it means for the run. */
  method Debit(w: StorePublisher, cfg: Config) returns (r: Result<BudgetDebit, Failure>)
    requires w.Valid() && w.Safe()
    modifies w`head, w`work, w`time, w.repo
    ensures w.Valid() && w.Safe() && w.repo.Extends()
    ensures MetadataPushes(old(w.repo.log), w.repo.log) && Facts(w.head.tree) == Facts(old(w.head).tree)
    ensures NoAnswers(old(w.repo.log), w.repo.log)
    ensures Requests(w.repo.log, w.from) == Requests(old(w.repo.log), w.from)
    ensures Debits(w.repo.log, w.from) == Debits(old(w.repo.log), w.from) + if r.Ok? then 1 else 0
    ensures r.Ok? ==> w.S() == State(Settled(w.head), Held(w.head, r.value.minute), true) && r.value.commit == w.head
                      && w.head.parents == [old(w.head)] && ChargedCommit(w.head, r.value.minute)
                      && w.head in w.repo.past && w.head in w.repo.tags && w.repo.tags[w.head] == w.head
  {
    hide After, Ancestor, Facts, MetadataCommit, Repo.Valid, Grounded, Requests, Debits, ChargedCommit;
    r := w.DebitBeforeRequest(cfg);
  }

  ghost predicate NoAnswers(was: seq<Event>, now: seq<Event>) {
    was <= now && forall k :: |was| <= k < |now| ==> !now[k].Answered?
  }

  /** The day, the deadline and the compute checkout, before a target is debited or facts are pushed. */
  method Blocked(w: StorePublisher, cfg: Config) returns (blocked: bool)
    requires w.Valid() && w.Safe()
    modifies w`time
    ensures w.Valid() && w.Safe() && w.S() == old(w.S())
    ensures !blocked ==> TargetError(cfg, w.time).None? && w.time <= cfg.deadline
  {
    w.Tick();
    var moved: bool := *;
    return TargetError(cfg, w.time).Some? || w.time > cfg.deadline || moved;
  }

  method AdmitOne(w: StorePublisher, target: Entry, cfg: Config, rules: Rules, before: Tally) returns (report: Tally)
    requires w.Valid() && w.Safe() && before.requests == Requests(w.repo.log, w.from)
    modifies w`head, w`work, w`time, w.repo
    ensures w.Valid() && w.Safe() && w.repo.Extends()
    ensures MetadataPushes(old(w.repo.log), w.repo.log) && Facts(w.head.tree) == Facts(old(w.head).tree)
    ensures report.requests == Requests(w.repo.log, w.from)
    ensures before.requests <= report.requests <= before.requests + 1
    ensures report.admitted - before.admitted + report.failures - before.failures == 1
    // admitted exactly when the provider answered this target and the answer passes the comparison
    ensures report.admitted == before.admitted
                               + if Admits(w.repo.log, |old(w.repo.log)|, target, rules) then 1 else 0
    ensures report.admitted - before.admitted <= report.requests - before.requests
    ensures report.status in {before.status, "BLOCKED"}
    ensures var charged := Debits(w.repo.log, w.from) - Debits(old(w.repo.log), w.from);
            charged <= report.debits - before.debits <= charged + if report.status == "BLOCKED" then 1 else 0
  {
    hide After, Ancestor, Facts, MetadataCommit, Requests, Debits, Repo.Valid, Grounded, StorePublisher.Valid,
         StorePublisher.Safe, StorePublisher.S, MetadataPushes, Qualify, ChargedCommit, Exchange, Admits, Neutral, NoAnswers;
    ghost var start := w.repo.log;
    MetadataNone(start);
    NotAdmitted(start, start, start, target, rules);
    report := before;
    var blocked := Blocked(w, cfg);
    if blocked {
      return report.(status := "BLOCKED", failures := report.failures + 1);
    }
    var debit := Debit(w, cfg);
    ghost var mark := w.repo.log;
    NotAdmitted(start, mark, mark, target, rules);
    if debit.Fail? {
      return report.(status := "BLOCKED", failures := report.failures + 1,
                     debits := report.debits + if debit.error.debited then 1 else 0);
    }
    report := report.(debits := report.debits + 1);
    var attempted, answer := FetchReplacement(w, target.symbol, debit.value, cfg);
    MetadataTransitive(start, mark, w.repo.log);
    if attempted {
      report := report.(requests := report.requests + 1);
      ghost var at :| Exchange(mark, w.repo.log, target.symbol, w.head, at, answer);
      AdmitsExchange(start, mark, w.repo.log, w.head, at, answer, target, rules);
    } else {
      NotAdmitted(start, mark, w.repo.log, target, rules);
    }
    if answer.Fail? {
      return report.(failures := report.failures + 1, status := if attempted then report.status else "BLOCKED");
    }
    return if Qualify(target, answer.value, rules).Some? then report.(admitted := report.admitted + 1)
           else report.(failures := report.failures + 1);
  }

  lemma NotAdmitted(start: seq<Event>, mark: seq<Event>, now: seq<Event>, target: Entry, rules: Rules)
    requires start == mark || NoAnswers(start, mark)
    requires mark == now || Neutral(mark, now)
    ensures !Admits(now, |start|, target, rules)
  {
    hide Qualify;
  }

  /** One exchange after the debit admits the target exactly when its answer qualifies. */
  lemma AdmitsExchange(start: seq<Event>, mark: seq<Event>, now: seq<Event>, c: Commit, at: int,
                       answer: Result<seq<Bar>, Failure>, target: Entry, rules: Rules)
    requires NoAnswers(start, mark) && Exchange(mark, now, target.symbol, c, at, answer)
    ensures Admits(now, |start|, target, rules) <==> answer.Ok? && Qualify(target, answer.value, rules).Some?
  {
    hide Qualify;
    assert forall k :: 0 <= k < |mark| ==> now[k] == mark[k];
    if answer.Ok? { assert now[|mark| + 2] == Answered(target.symbol, answer.value); }
  }

  // ---------- recovery ----------

  function Symbols(entries: seq<Entry>): seq<string> { seq(|entries|, i requires 0 <= i < |entries| => entries[i].symbol) }

  predicate Distinct(names: seq<string>) { forall i, j :: 0 <= i < j < |names| ==> names[i] != names[j] }

  /** `require_complete`. */
  predicate Complete(targets: seq<string>, entries: seq<Entry>) {
    && targets != [] && Distinct(targets) && Distinct(Symbols(entries))
    && (set t | t in Symbols(entries)) == (set t | t in targets)
  }

  /** No target comes twice, and each has exactly one entry. */
  ghost predicate EachOnce(targets: seq<string>, entries: seq<Entry>) {
    && (forall i, j :: 0 <= i < j < |targets| ==> targets[i] != targets[j])
    && (forall i, j :: 0 <= i < j < |entries| ==> entries[i].symbol != entries[j].symbol)
    && (forall i :: 0 <= i < |entries| ==> entries[i].symbol in targets)
    && (forall t :: t in targets ==> exists i :: 0 <= i < |entries| && entries[i].symbol == t)
  }

  lemma {:induction false} DistinctCount(names: seq<string>)
    requires forall i, j :: 0 <= i < j < |names| ==> names[i] != names[j]
    ensures |set t | t in names| == |names|
  {
    if names != [] {
      var init, last := names[..|names| - 1], names[|names| - 1];
      DistinctCount(init);
      assert names == init + [last];
      assert (set t | t in names) == (set t | t in init) + {last};
    }
  }

  lemma CompleteMeaning(targets: seq<string>, entries: seq<Entry>)
    requires Complete(targets, entries)
    ensures targets != [] && EachOnce(targets, entries) && |entries| == |targets|
  {
    var names := Symbols(entries);
    var all := set t | t in targets;
    DistinctCount(targets);
    DistinctCount(names);
    DistinctSymbols(entries);
    forall i | 0 <= i < |entries| ensures entries[i].symbol in targets {
      assert names[i] in names;
      assert names[i] in all;
    }
    forall t | t in targets ensures exists i :: 0 <= i < |entries| && entries[i].symbol == t {
      assert t in all;
      var i :| 0 <= i < |names| && names[i] == t;
    }
  }

  /** The paths a fact commit may touch. */
  predicate TouchedBy(p: Path, entries: seq<Entry>) {
    p in {Budget, Git.Report, Inventory}
    || exists i :: 0 <= i < |entries| && (p == Series(entries[i].symbol) || p == ArchiveOf(entries[i].symbol))
  }

  /** The directory and the archive of one target, before and after. */
  predicate Restored(e: Entry, rules: Rules, was: Tree, now: Tree) {
    && Drifted(e, was).None?
    && Series(e.symbol) in now && now[Series(e.symbol)] == SeriesFile(NewDisk(e, rules))
    && ArchiveOf(e.symbol) in now && now[ArchiveOf(e.symbol)] == ArchiveFile(NewArchive(e, rules))
  }

  /** What stands in the way of replacing a target. */
  function Drifted(e: Entry, tree: Tree): Option<Code> {
    if Series(e.symbol) !in tree || tree[Series(e.symbol)] != SeriesFile(e.Old()) then Some(ObjectDrift)
    else if ArchiveOf(e.symbol) in tree then Some(ArchiveTaken) else None
  }

  /** The target is what was loaded, and no archive of the day is there. */
  ghost predicate Unmoved(e: Entry, tree: Tree) {
    && Series(e.symbol) in tree && tree[Series(e.symbol)].SeriesFile? && ArchiveOf(e.symbol) !in tree
    && var disk := tree[Series(e.symbol)].disk; disk.files == e.files && disk.index == Some(e.index)
  }

  /** `c` replaces every target and archives its old rows, and touches nothing else; every
      new directory and archive passes the validation, so it reads as the qualified rows,
      and no credit is added or lost. */
  ghost predicate FactCommit(c: Commit, entries: seq<Entry>, rules: Rules) {
    && |c.parents| == 1
    && var was := c.parents[0].tree;
    && (forall i :: 0 <= i < |entries| ==>
          && Qualified(entries[i], rules) && Restored(entries[i], rules, was, c.tree)
          && Validates(entries[i], rules, NewDisk(entries[i], rules), NewArchive(entries[i], rules)))
    && (forall p :: !TouchedBy(p, entries) ==> (p in c.tree <==> p in was) && (p in was ==> c.tree[p] == was[p]))
    && LedgerOf(c.tree) == LedgerOf(was)
  }

  ghost predicate Replaced(tree: Tree, was: Tree, entries: seq<Entry>, n: nat, rules: Rules)
    requires n <= |entries|
  {
    && (forall i :: 0 <= i < n ==> Restored(entries[i], rules, was, tree))
    && (forall p :: !TouchedBy(p, entries[..n]) ==> (p in tree <==> p in was) && (p in was ==> tree[p] == was[p]))
  }

  /** The tree after one more target. */
  function Restore(tree: Tree, e: Entry, rules: Rules): Tree {
    tree[ArchiveOf(e.symbol) := ArchiveFile(NewArchive(e, rules))][Series(e.symbol) := SeriesFile(NewDisk(e, rules))]
  }

  lemma ReplacedStep(tree: Tree, was: Tree, entries: seq<Entry>, n: nat, rules: Rules)
    requires n < |entries| && Replaced(tree, was, entries, n, rules)
    requires forall i :: 0 <= i < n ==> entries[i].symbol != entries[n].symbol
    ensures Drifted(entries[n], tree) == Drifted(entries[n], was)
    ensures Drifted(entries[n], tree).None? ==> Replaced(Restore(tree, entries[n], rules), was, entries, n + 1, rules)
  {
    hide NewDisk, NewArchive;
    var e := entries[n];
    var next := Restore(tree, e, rules);
    assert !TouchedBy(Series(e.symbol), entries[..n]) && !TouchedBy(ArchiveOf(e.symbol), entries[..n]);
    forall p | !TouchedBy(p, entries[..n + 1])
      ensures (p in next <==> p in was) && (p in was ==> next[p] == was[p]) {
      TouchedGrows(p, entries, n);
      assert entries[..n + 1][n] == e;
    }
    hide TouchedBy;
    if Drifted(e, tree).None? {
      forall i | 0 <= i < n + 1 ensures Restored(entries[i], rules, was, next) {
        if i < n { assert Restored(entries[i], rules, was, tree); }
      }
    }
  }

  lemma TouchedGrows(p: Path, entries: seq<Entry>, n: nat)
    requires n < |entries|
    ensures TouchedBy(p, entries[..n]) ==> TouchedBy(p, entries[..n + 1])
  {}

  lemma ReplacedNone(was: Tree, entries: seq<Entry>, rules: Rules)
    ensures Replaced(was, was, entries, 0, rules)
  {}

  /** Stage the replacement: every target, in a tree apart from the budget checkout, and then
      validate it. It succeeds if and only if no target has changed or has an archive, and
      every replacement can be cut: the validation itself never refuses. */
  method StageTree(was: Tree, entries: seq<Entry>, rules: Rules) returns (r: Result<Tree, Failure>)
    requires forall i, j :: 0 <= i < j < |entries| ==> entries[i].symbol != entries[j].symbol
    requires forall i :: 0 <= i < |entries| ==> Original(entries[i], rules) && Qualified(entries[i], rules)
    ensures r.Ok? <==> forall i :: 0 <= i < |entries| ==> Unmoved(entries[i], was) && Cuttable(entries[i], rules)
    ensures r.Ok? ==> Replaced(r.value, was, entries, |entries|, rules)
    ensures r.Ok? ==> forall i :: 0 <= i < |entries| ==>
                        Validates(entries[i], rules, NewDisk(entries[i], rules), NewArchive(entries[i], rules))
    ensures r.Fail? ==> !r.error.published && !r.error.debited
  {
    ReplacedNone(was, entries, rules);
    StagingMeaning(was, entries, rules);
    hide *;
    var tree := was;
    var i := 0;
    while i < |entries|
      invariant 0 <= i <= |entries| && Replaced(tree, was, entries, i, rules)
      invariant forall k :: 0 <= k < i ==> Drifted(entries[k], was).None? && Cuts(entries[k], rules)
    {
      var e := entries[i];
      ReplacedStep(tree, was, entries, i, rules);
      var drifted := Drifted(e, tree);
      if drifted.Some? { return Fail(Failure(drifted.value, false, false)); }
      if !Cuts(e, rules) { return Fail(Failure(CandidateInvalid, false, false)); }
      tree := Restore(tree, e, rules);
      i := i + 1;
    }
    StagedAllValidate(was, entries, rules);
    var valid := ValidateCandidate(tree, was, entries, rules);
    assert valid;
    return Ok(tree);
  }

  lemma StagingMeaning(was: Tree, entries: seq<Entry>, rules: Rules)
    requires forall i :: 0 <= i < |entries| ==> Qualified(entries[i], rules)
    ensures forall i :: 0 <= i < |entries| ==> (Cuts(entries[i], rules) <==> Cuttable(entries[i], rules))
    ensures forall i :: 0 <= i < |entries| ==> (Drifted(entries[i], was).None? <==> Unmoved(entries[i], was))
  {
    hide Cuts, Cuttable, Rebase.Validated;
    forall i | 0 <= i < |entries| ensures Cuts(entries[i], rules) <==> Cuttable(entries[i], rules) {
      CutsMeaning(entries[i], rules);
    }
  }

  lemma StagedAllValidate(was: Tree, entries: seq<Entry>, rules: Rules)
    requires forall i :: 0 <= i < |entries| ==> Original(entries[i], rules) && Qualified(entries[i], rules)
    requires forall i :: 0 <= i < |entries| ==> Drifted(entries[i], was).None? && Cuts(entries[i], rules)
    ensures forall i :: 0 <= i < |entries| ==>
              Validates(entries[i], rules, NewDisk(entries[i], rules), NewArchive(entries[i], rules))
  {
    hide *;
    forall i | 0 <= i < |entries|
      ensures Validates(entries[i], rules, NewDisk(entries[i], rules), NewArchive(entries[i], rules)) {
      StagedValidates(entries[i], rules);
    }
  }

  /** `validate_candidate`, over the staged tree. */
  method ValidateCandidate(tree: Tree, ghost was: Tree, entries: seq<Entry>, rules: Rules) returns (valid: bool)
    requires Replaced(tree, was, entries, |entries|, rules)
    ensures valid <==> forall i :: 0 <= i < |entries| ==>
                         Validates(entries[i], rules, NewDisk(entries[i], rules), NewArchive(entries[i], rules))
  {
    hide NewDisk, NewArchive, Validates, TouchedBy, Drifted;
    var i := 0;
    while i < |entries|
      invariant 0 <= i <= |entries|
      invariant forall k :: 0 <= k < i ==>
                  Validates(entries[k], rules, NewDisk(entries[k], rules), NewArchive(entries[k], rules))
    {
      var e := entries[i];
      assert Restored(e, rules, was, tree);
      if !Validates(e, rules, tree[Series(e.symbol)].disk, tree[ArchiveOf(e.symbol)].archive) { return false; }
      i := i + 1;
    }
    return true;
  }

  /** The exact outputs the manifest declares: every series, archive, inventory and report. */
  function Declared(tree: Tree, entries: seq<Entry>): seq<Output> {
    if entries == [] then
      (if Inventory in tree then [Output(Inventory, tree[Inventory])] else [])
      + (if Git.Report in tree then [Output(Git.Report, tree[Git.Report])] else [])
    else
      var s := entries[0].symbol;
      (if Series(s) in tree then [Output(Series(s), tree[Series(s)])] else [])
      + (if ArchiveOf(s) in tree then [Output(ArchiveOf(s), tree[ArchiveOf(s)])] else [])
      + Declared(tree, entries[1..])
  }

  /** Whatever is declared is in the tree under its blob, and it is exactly the inventory, the
      report, and the directory and archive of each target. */
  lemma {:induction false} DeclaredMeaning(tree: Tree, entries: seq<Entry>, o: Output)
    ensures o in Declared(tree, entries) <==>
              && o.path in tree && tree[o.path] == o.blob
              && (o.path == Inventory || o.path == Git.Report
                  || exists e :: e in entries && (o.path == Series(e.symbol) || o.path == ArchiveOf(e.symbol)))
  {
    if entries != [] {
      DeclaredMeaning(tree, entries[1..], o);
      var s := entries[0].symbol;
      assert forall e :: e in entries <==> e == entries[0] || e in entries[1..];
      assert o in Declared(tree, entries) <==>
               || (Series(s) in tree && o == Output(Series(s), tree[Series(s)]))
               || (ArchiveOf(s) in tree && o == Output(ArchiveOf(s), tree[ArchiveOf(s)]))
               || o in Declared(tree, entries[1..]);
    }
  }

  lemma FinishedTree(tree: Tree, was: Tree, entries: seq<Entry>, rules: Rules, inventory: Blob, report: Blob, ledger: Blob,
                     c: Commit)
    requires Replaced(tree, was, entries, |entries|, rules) && |c.parents| == 1 && c.parents[0].tree == was
    requires forall i :: 0 <= i < |entries| ==>
               Qualified(entries[i], rules)
               && Validates(entries[i], rules, NewDisk(entries[i], rules), NewArchive(entries[i], rules))
    requires c.tree == tree[Inventory := inventory][Git.Report := report][Budget := ledger]
    requires LedgerOf(c.tree) == LedgerOf(was)
    ensures FactCommit(c, entries, rules)
  {
    hide LedgerOf;
    assert entries[..|entries|] == entries;
    hide Qualified, Validates, NewDisk, NewArchive, Restored, TouchedBy;
    forall p | p !in {Budget, Git.Report, Inventory}
      ensures (p in c.tree <==> p in tree) && (p in tree ==> c.tree[p] == tree[p]) {}
    forall i | 0 <= i < |entries| ensures Restored(entries[i], rules, was, c.tree) {
      RestoredStill(entries[i], rules, was, tree, c.tree);
    }
    forall p | !TouchedBy(p, entries) ensures (p in c.tree <==> p in was) && (p in was ==> c.tree[p] == was[p]) {
      UntouchedPath(p, entries);
    }
  }

  lemma RestoredStill(e: Entry, rules: Rules, was: Tree, tree: Tree, now: Tree)
    requires Restored(e, rules, was, tree)
    requires forall p :: p in {Series(e.symbol), ArchiveOf(e.symbol)} && p in tree ==> p in now && now[p] == tree[p]
    ensures Restored(e, rules, was, now)
  {
    hide Drifted, NewDisk, NewArchive;
  }

  lemma UntouchedPath(p: Path, entries: seq<Entry>)
    requires !TouchedBy(p, entries)
    ensures p !in {Budget, Git.Report, Inventory}
  {}

  /** `stage_and_publish`. A failure before the push publishes nothing; after it, the
      outcome is unknown and the failure says so. */
  method StageAndPublish(w: StorePublisher, entries: seq<Entry>, cfg: Config, rules: Rules)
    returns (r: Result<Commit, Failure>)
    requires w.Valid() && w.Safe()
    requires forall i, j :: 0 <= i < j < |entries| ==> entries[i].symbol != entries[j].symbol
    requires forall i :: 0 <= i < |entries| ==> Original(entries[i], rules) && Qualified(entries[i], rules)
    modifies w`time, w.repo
    ensures w.repo.Valid() && w.repo.Extends() && w.from <= |w.repo.log| && w.S().ok && Grounded(w.repo.log, w.from)
    ensures r.Fail? && !r.error.published ==> w.Valid() && w.Safe()
    ensures r.Fail? ==> !r.error.debited
    ensures Still(old(w.repo.log), w.repo.log)
    ensures forall k :: |old(w.repo.log)| <= k < |w.repo.log| && w.repo.log[k].PushedMain? ==>
              FactCommit(w.repo.log[k].candidate, entries, rules)
              && (r.Ok? || r.error.published)
              && forall j :: k < j < |w.repo.log| ==> !w.repo.log[j].PushedMain?
    ensures r.Ok? ==> w.S().pub == Settled(r.value) && r.value.parents == [w.head]
                      && r.value in w.repo.tags && FactCommit(r.value, entries, rules)
                      && w.Durably(r.value) && w.Declares(r.value.tree, Declared(r.value.tree, entries))
  {
    hide After, Ancestor, Repo.Valid, Original, Qualified, Grounded, FactCommit, Facts, StorePublisher.Durably,
         StorePublisher.Declares, Declared;
    var prepared := PrepareFacts(w, entries, cfg, rules);
    if prepared.Fail? { return Fail(prepared.error); }
    r := PublishFacts(w, prepared.value.0, prepared.value.1);
  }

  /** The part before the push: stage, validate, commit, and recheck that nothing moved. */
  method PrepareFacts(w: StorePublisher, entries: seq<Entry>, cfg: Config, rules: Rules)
    returns (r: Result<(Commit, seq<Output>), Failure>)
    requires w.Valid() && w.Safe()
    requires forall i, j :: 0 <= i < j < |entries| ==> entries[i].symbol != entries[j].symbol
    requires forall i :: 0 <= i < |entries| ==> Original(entries[i], rules) && Qualified(entries[i], rules)
    modifies w`time, w.repo
    ensures w.Valid() && w.Safe() && w.repo.Extends() && Neutral(old(w.repo.log), w.repo.log)
    ensures r.Fail? ==> !r.error.published && !r.error.debited
    ensures r.Ok? ==> FactCommit(r.value.0, entries, rules) && r.value.0.parents == [w.head]
                      && w.repo.main == w.head == w.repo.head && w.S().pub == Settled(w.head)
                      && r.value.1 == Declared(r.value.0.tree, entries)
  {
    hide After, Ancestor, Repo.Valid, Original, Qualified, Replaced, Validates, NewDisk, NewArchive, Drifted, Cuts, LedgerOf,
         Declared, Facts, Grounded, FactCommit;
    var parent := w.head;
    var e := w.AssertCurrent(parent);
    if e.Some? { return Fail(e.value.(debited := false)); }
    var staged := StageTree(parent.tree, entries, rules);
    if staged.Fail? { return Fail(staged.error); }
    var state := LedgerOf(parent.tree);
    if state.None? { return Fail(Plain(BudgetStateInvalid)); }
    var inventory: Blob := *;
    var report := ReportFile("CANDIDATE_VALIDATED");
    var body := staged.value[Inventory := inventory][Git.Report := report];
    var declared := Declared(body, entries);
    var ledger := LedgerFile(state.value, w.run, declared);
    var tree := body[Budget := ledger];
    var nonce: nat := *;
    var candidate := Commit([parent], tree, nonce);
    DeclaredWithout(body, tree, entries);
    SameLedger(parent.tree, tree, w.run, declared);
    FinishedTree(staged.value, parent.tree, entries, rules, inventory, report, ledger, candidate);
    // Recheck after all staging work; never integrate a moving remote.
    e := w.AssertCurrent(parent);
    if e.Some? { return Fail(e.value.(debited := false)); }
    var blocked := Blocked(w, cfg);
    if blocked { return Fail(Plain(DeadlineExceeded)); }
    return Ok((candidate, declared));
  }

  /** The manifest does not declare itself. */
  lemma {:induction false} DeclaredWithout(body: Tree, tree: Tree, entries: seq<Entry>)
    requires forall p :: p != Budget ==> (p in body <==> p in tree) && (p in body ==> body[p] == tree[p])
    ensures Declared(body, entries) == Declared(tree, entries)
    decreases |entries|
  {
    if entries != [] { DeclaredWithout(body, tree, entries[1..]); }
  }

  lemma SameLedger(was: Tree, tree: Tree, header: Header, outputs: seq<Output>)
    requires LedgerOf(was).Some? && Budget in tree && tree[Budget] == LedgerFile(LedgerOf(was).value, header, outputs)
    ensures LedgerOf(tree) == LedgerOf(was)
  {}

  /** The only push of market facts: plain, on the verified head. */
  method PushFacts(w: StorePublisher, candidate: Commit) returns (sent: bool)
    requires w.Valid() && w.repo.main == w.head && w.repo.head == w.head && candidate.parents == [w.head]
    requires w.S().pub == Settled(w.head)
    modifies w.repo
    ensures w.repo.Valid() && w.repo.Extends() && w.from <= |w.repo.log|
    ensures w.repo.log == old(w.repo.log) + [PushedMain(candidate)] && w.repo.head == old(w.repo.head)
    ensures Grounded(w.repo.log, w.from)
    ensures w.S().ok && w.S().pub.Unconfirmed? && w.S().pub.candidate == candidate
  {
    PushExact.NotYetPublished(w.repo, w.head, candidate);
    hide After, Ancestor, Grounded;
    var ack := w.repo.PushMain(candidate);
    AfterSnoc(w.base, old(w.repo.log), w.from, PushedMain(candidate));
    return ack.Answer?;
  }

  method PublishFacts(w: StorePublisher, candidate: Commit, declared: seq<Output>) returns (r: Result<Commit, Failure>)
    requires w.Valid() && w.repo.main == w.head && w.repo.head == w.head && candidate.parents == [w.head]
    requires w.S().pub == Settled(w.head)
    modifies w`time, w.repo
    ensures w.repo.Valid() && w.repo.Extends() && w.from <= |w.repo.log| && w.S().ok && Grounded(w.repo.log, w.from)
    ensures Still(old(w.repo.log), w.repo.log)
    ensures |old(w.repo.log)| < |w.repo.log| && w.repo.log[|old(w.repo.log)|] == PushedMain(candidate)
    ensures forall k :: |old(w.repo.log)| < k < |w.repo.log| ==> !w.repo.log[k].PushedMain?
    ensures r.Ok? ==> r.value == candidate && w.S().pub == Settled(candidate) && candidate in w.repo.tags
                      && w.Durably(candidate) && w.Declares(candidate.tree, declared)
    ensures r.Fail? ==> r.error == Failure(Code.Unconfirmed, true, false)
  {
    hide After, Ancestor, Repo.Valid, Grounded;
    var sent := PushFacts(w, candidate);
    if !sent { return Fail(Failure(Code.Unconfirmed, true, false)); }
    r := ConfirmFacts(w, candidate, declared);
  }

  /** `verify_outputs` runs in the disposable worktree, whose HEAD is the candidate. */
  method ConfirmFacts(w: StorePublisher, candidate: Commit, declared: seq<Output>) returns (r: Result<Commit, Failure>)
    requires w.repo.Valid() && !w.repo.tamper && w.from <= |w.repo.log| && w.S().ok && Grounded(w.repo.log, w.from)
    requires w.S().pub.Unconfirmed? && w.S().pub.candidate == candidate
    modifies w`time, w.repo
    ensures w.repo.Valid() && w.repo.Extends() && w.from <= |w.repo.log| && w.S().ok && Grounded(w.repo.log, w.from)
    ensures Still(old(w.repo.log), w.repo.log)
    ensures forall k :: |old(w.repo.log)| <= k < |w.repo.log| ==> !w.repo.log[k].PushedMain?
    ensures r.Ok? ==> r.value == candidate && w.S().pub == Settled(candidate) && candidate in w.repo.tags
                      && w.Durably(candidate) && w.Declares(candidate.tree, declared)
    ensures r.Fail? ==> r.error == Failure(Code.Unconfirmed, true, false)
  {
    hide After, Ancestor, Repo.Valid, Grounded, ReadBack, StorePublisher.Durably, Retention.VerifiedOutputs,
         Retention.StoreOnly, Facts;
    w.repo.Switch(candidate);
    var durable := w.Durability(candidate, Some(declared));
    w.repo.Switch(w.head);
    if !durable { return Fail(Failure(Code.Unconfirmed, true, false)); }
    w.MarkVerified(candidate);
    return Ok(candidate);
  }

  /** `original_entries`: the target series, before anything is requested. */
  function LoadOne(tree: Tree, symbol: string, rules: Rules): (r: Option<Entry>)
    ensures r.Some? ==> r.value.symbol == symbol && Drifted(r.value, tree).None? && Original(r.value, rules)
  {
    if Series(symbol) !in tree || !tree[Series(symbol)].SeriesFile? || ArchiveOf(symbol) in tree then None
    else Load(tree[Series(symbol)].disk, symbol, rules)
  }

  /** The tree has a directory of the target that can be replaced, and no archive of the day. */
  ghost predicate IsTarget(tree: Tree, t: string, rules: Rules) {
    && Series(t) in tree && tree[Series(t)].SeriesFile? && ArchiveOf(t) !in tree
    && Usable(tree[Series(t)].disk, t, rules)
  }

  lemma TargetMeaning(tree: Tree, t: string, rules: Rules)
    ensures LoadOne(tree, t, rules).Some? <==> IsTarget(tree, t, rules)
  {
    hide Usable, Load;
    if Series(t) in tree && tree[Series(t)].SeriesFile? { LoadMeaning(tree[Series(t)].disk, t, rules); }
  }

  method LoadEntries(tree: Tree, targets: seq<string>, rules: Rules) returns (r: Option<seq<Entry>>)
    ensures r.Some? <==> forall t :: t in targets ==> IsTarget(tree, t, rules)
    ensures r.Some? ==> Symbols(r.value) == targets
    ensures r.Some? ==> forall i :: 0 <= i < |r.value| ==>
              Drifted(r.value[i], tree).None? && Original(r.value[i], rules)
  {
    hide LoadOne, Drifted, Original, IsTarget;
    var entries: seq<Entry> := [];
    var i := 0;
    while i < |targets|
      invariant 0 <= i <= |targets| && |entries| == i
      invariant forall k :: 0 <= k < i ==>
                  IsTarget(tree, targets[k], rules) && entries[k].symbol == targets[k]
                  && Drifted(entries[k], tree).None? && Original(entries[k], rules)
    {
      TargetMeaning(tree, targets[i], rules);
      var loaded := LoadOne(tree, targets[i], rules);
      if loaded.None? { return None; }
      entries := entries + [loaded.value];
      i := i + 1;
    }
    return Some(entries);
  }

  /** The rows that will replace the series are what qualified of an answer to a request for it. */
  ghost predicate Sourced(log: seq<Event>, from: nat, e: Entry, rules: Rules) {
    exists k :: from <= k < |log| && log[k].Answered? && log[k].symbol == e.symbol
                && Qualify(e, log[k].rows, rules) == Some(e.rows)
  }

  ghost predicate AllSourced(log: seq<Event>, from: nat, entries: seq<Entry>, rules: Rules) {
    forall i :: 0 <= i < |entries| ==> Sourced(log, from, entries[i], rules)
  }

  lemma SourcedGrows(was: seq<Event>, now: seq<Event>, from: nat, earlier: nat, e: Entry, rules: Rules)
    requires was <= now && earlier <= from && Sourced(was, from, e, rules)
    ensures Sourced(now, earlier, e, rules)
  {
    hide Qualify;
    var k :| from <= k < |was| && was[k].Answered? && was[k].symbol == e.symbol
             && Qualify(e, was[k].rows, rules) == Some(e.rows);
    assert now[k] == was[k];
  }

  lemma AllSourcedGrow(was: seq<Event>, now: seq<Event>, from: nat, entries: seq<Entry>, rules: Rules)
    requires was <= now && AllSourced(was, from, entries, rules)
    ensures AllSourced(now, from, entries, rules)
  {
    hide Sourced;
    forall i | 0 <= i < |entries| ensures Sourced(now, from, entries[i], rules) {
      SourcedGrows(was, now, from, from, entries[i], rules);
    }
  }

  lemma AllSourcedSnoc(log: seq<Event>, from: nat, entries: seq<Entry>, e: Entry, rules: Rules)
    requires AllSourced(log, from, entries, rules) && Sourced(log, from, e, rules)
    ensures AllSourced(log, from, entries + [e], rules)
  {
    hide Sourced;
  }

  /** The same targets, now with the rows that will replace them. */
  ghost predicate Filled(before: seq<Entry>, after: seq<Entry>, n: nat, rules: Rules)
    requires n <= |before|
  {
    && |after| == n
    && forall i :: 0 <= i < n ==> after[i] == before[i].(rows := after[i].rows) && Qualified(after[i], rules)
  }

  ghost predicate AllOriginal(entries: seq<Entry>, rules: Rules) {
    forall i :: 0 <= i < |entries| ==> Original(entries[i], rules)
  }

  /** New rows leave an original what it is. */
  lemma FilledOriginals(before: seq<Entry>, after: seq<Entry>, rules: Rules)
    requires AllOriginal(before, rules) && Filled(before, after, |before|, rules)
    ensures forall i :: 0 <= i < |after| ==> Original(after[i], rules) && Qualified(after[i], rules)
    ensures Symbols(after) == Symbols(before)
  {
    hide Qualified, Listed, Identified;
    forall i | 0 <= i < |after| ensures Original(after[i], rules) {
      assert Original(before[i], rules) && after[i].Old() == before[i].Old();
    }
  }

  /** The request loop of `recover`: one debit, then one request, per target. */
  method CollectRows(w: StorePublisher, entries: seq<Entry>, cfg: Config, rules: Rules)
    returns (requests: nat, debits: nat, r: Result<seq<Entry>, Failure>)
    requires w.Valid() && w.Safe() && AllOriginal(entries, rules)
    requires Requests(w.repo.log, w.from) == 0 == Debits(w.repo.log, w.from)
    modifies w`head, w`work, w`time, w.repo
    ensures w.Valid() && w.Safe() && w.repo.Extends()
    ensures MetadataPushes(old(w.repo.log), w.repo.log) && Facts(w.head.tree) == Facts(old(w.head).tree)
    ensures requests == Requests(w.repo.log, w.from)
    ensures debits == Debits(w.repo.log, w.from) + if r.Fail? && r.error.debited then 1 else 0
    ensures r.Ok? ==> Filled(entries, r.value, |entries|, rules) && requests == |entries| == debits
                      && AllSourced(w.repo.log, w.from, r.value, rules)
  {
    hide After, Ancestor, Facts, MetadataCommit, Requests, Debits, Repo.Valid, Grounded, StorePublisher.Valid,
         StorePublisher.Safe, Qualified, Original, AllSourced, Sourced, MetadataPushes;
    requests, debits := 0, 0;
    ghost var start := w.repo.log;
    MetadataNone(start);
    var done: seq<Entry> := [];
    NoneSourced(start, w.from, rules);
    var i := 0;
    while i < |entries|
      invariant 0 <= i <= |entries| && Filled(entries, done, i, rules) && requests == i == debits
      invariant w.Valid() && w.Safe() && w.repo.Extends()
      invariant MetadataPushes(start, w.repo.log) && Facts(w.head.tree) == Facts(old(w.head).tree)
      invariant requests == Requests(w.repo.log, w.from) && debits == Debits(w.repo.log, w.from)
      invariant AllSourced(w.repo.log, w.from, done, rules)
    {
      if i == 0 {
        // Not a reservation: every later debit still checks the ledger.
        var state := LedgerOf(w.work);
        if !LedgerWithin(w.work, cfg) || state.None? { return requests, debits, Fail(Plain(BudgetStateInvalid)); }
        if |entries| > cfg.perDay - state.value.credits { return requests, debits, Fail(Plain(BudgetExhausted)); }
      }
      ghost var mark := w.repo.log;
      var attempted, charged, rows := RecoverOne(w, entries[i], cfg, rules);
      MetadataTransitive(start, mark, w.repo.log);
      if attempted { requests := requests + 1; }
      if charged { debits := debits + 1; }
      if rows.Fail? { return requests, debits, Fail(rows.error); }
      var e := entries[i].(rows := rows.value);
      AllSourcedGrow(mark, w.repo.log, w.from, done, rules);
      AllSourcedSnoc(w.repo.log, w.from, done, e, rules);
      done := done + [e];
      i := i + 1;
    }
    return requests, debits, Ok(done);
  }

  lemma NoneSourced(log: seq<Event>, from: nat, rules: Rules)
    ensures AllSourced(log, from, [], rules)
  {}

  method RecoverOne(w: StorePublisher, item: Entry, cfg: Config, rules: Rules)
    returns (attempted: bool, charged: bool, r: Result<seq<Bar>, Failure>)
    requires w.Valid() && w.Safe() && Original(item, rules)
    modifies w`head, w`work, w`time, w.repo
    ensures w.Valid() && w.Safe() && w.repo.Extends()
    ensures MetadataPushes(old(w.repo.log), w.repo.log) && Facts(w.head.tree) == Facts(old(w.head).tree)
    ensures Requests(w.repo.log, w.from) == Requests(old(w.repo.log), w.from) + if attempted then 1 else 0
    ensures Debits(w.repo.log, w.from) + (if r.Fail? && r.error.debited then 1 else 0)
         == Debits(old(w.repo.log), w.from) + if charged then 1 else 0
    ensures r.Ok? ==> attempted && charged && Qualified(item.(rows := r.value), rules)
                      && Sourced(w.repo.log, w.from, item.(rows := r.value), rules)
  {
    hide After, Ancestor, Facts, MetadataCommit, Requests, Debits, Repo.Valid, Grounded, Qualify, Qualified, Original,
         StorePublisher.Safe, MetadataPushes, ChargedCommit, Exchange, Neutral, Sourced;
    ghost var start := w.repo.log;
    MetadataNone(start);
    var blocked := Unready(w, cfg);
    if blocked { return false, false, Fail(Plain(ObjectDrift)); }
    var debit := Debit(w, cfg);
    ghost var mark := w.repo.log;
    if debit.Fail? { return false, debit.error.debited, Fail(debit.error); }
    var answer;
    attempted, answer := FetchReplacement(w, item.symbol, debit.value, cfg);
    MetadataTransitive(start, mark, w.repo.log);
    if answer.Fail? { return attempted, true, Fail(answer.error); }
    var rows := Qualify(item, answer.value, rules);
    if rows.None? { return attempted, true, Fail(Plain(ReplacementRejected)); }
    OriginalAscends(item, rules);
    QualifyOrders(item, answer.value, rules);
    ghost var at :| Exchange(mark, w.repo.log, item.symbol, w.head, at, answer);
    SourcedExchange(mark, w.repo.log, w.from, w.head, at, answer.value, item, rules);
    return attempted, true, Ok(rows.value);
  }

  lemma SourcedExchange(mark: seq<Event>, now: seq<Event>, from: nat, c: Commit, at: int, answer: seq<Bar>, item: Entry,
                        rules: Rules)
    requires from <= |mark| && Exchange(mark, now, item.symbol, c, at, Ok(answer)) && Qualify(item, answer, rules).Some?
    ensures Sourced(now, from, item.(rows := Qualify(item, answer, rules).value), rules)
  {
    hide Qualify;
    assert now[|mark| + 2] == Answered(item.symbol, answer);
    QualifyAgain(item, answer, rules, Qualify(item, answer, rules).value);
  }

  lemma OriginalAscends(e: Entry, rules: Rules)
    requires Original(e, rules)
    ensures Ascending(e.existing)
  {}

  /** The compute checkout and the target day, before a target is debited. */
  method Unready(w: StorePublisher, cfg: Config) returns (unready: bool)
    requires w.Valid() && w.Safe()
    modifies w`time
    ensures w.Valid() && w.Safe() && w.S() == old(w.S())
    ensures !unready ==> TargetError(cfg, w.time).None?
  {
    w.Tick();
    var computeMoved: bool := *;
    return computeMoved || TargetError(cfg, w.time).Some?;
  }

  // ---------- the whole run ----------

  /** Every push a recovery makes leaves the facts alone, except that the very last
      may be the one commit that replaces every target. */
  ghost predicate AllOrNothing(was: seq<Event>, now: seq<Event>, targets: seq<string>, done: seq<Entry>, rules: Rules) {
    was <= now && forall k :: |was| <= k < |now| && now[k].PushedMain? ==>
      || MetadataCommit(now[k].candidate)
      || (&& Complete(targets, done) && FactCommit(now[k].candidate, done, rules)
          && forall j :: k < j < |now| ==> !now[j].PushedMain?)
  }

  /** The part of `recover` whose failures end in a diagnostic. */
  method TryRecover(w: StorePublisher, targets: seq<string>, entries: seq<Entry>, cfg: Config, rules: Rules)
    returns (requests: nat, debits: nat, r: Result<Commit, Failure>, done: seq<Entry>)
    requires w.Valid() && w.Safe() && Complete(targets, entries) && AllOriginal(entries, rules)
    requires Requests(w.repo.log, w.from) == 0 == Debits(w.repo.log, w.from)
    modifies w`head, w`work, w`time, w.repo
    ensures w.repo.Valid() && w.repo.Extends() && w.from <= |w.repo.log| && w.S().ok && Grounded(w.repo.log, w.from)
    ensures AllOrNothing(old(w.repo.log), w.repo.log, targets, done, rules)
    ensures requests == Requests(w.repo.log, w.from)
    ensures debits == Debits(w.repo.log, w.from) + if r.Fail? && r.error.debited then 1 else 0
    ensures AllSourced(w.repo.log, w.from, done, rules)
    ensures r.Ok? ==> Complete(targets, done) && requests == |done| && FactCommit(r.value, done, rules)
                      && r.value in w.repo.tags && w.S().pub == Settled(r.value) && w.Durably(r.value)
                      && w.Declares(r.value.tree, Declared(r.value.tree, done))
    ensures r.Fail? && !r.error.published ==>
              w.Valid() && w.Safe() && MetadataPushes(old(w.repo.log), w.repo.log)
  {
    hide After, Ancestor, Facts, FactCommit, Original, Qualified, Grounded, AllSourced, Requests, Debits, MetadataCommit, Still,
         StorePublisher.Durably, StorePublisher.Declares, Declared, Repo.Valid;
    done := [];
    NoneSourced(w.repo.log, w.from, rules);
    var rows;
    requests, debits, rows := CollectRows(w, entries, cfg, rules);
    NoneSourced(w.repo.log, w.from, rules);
    if rows.Fail? { return requests, debits, Fail(rows.error), []; }
    done := rows.value;
    FilledOriginals(entries, done, rules);
    DistinctSymbols(done);
    ghost var mark := w.repo.log;
    r := StageAndPublish(w, done, cfg, rules);
    StillCounts(mark, w.repo.log, w.from);
    AllSourcedGrow(mark, w.repo.log, w.from, done, rules);
  }

  lemma DistinctSymbols(entries: seq<Entry>)
    requires Distinct(Symbols(entries))
    ensures forall i, j :: 0 <= i < j < |entries| ==> entries[i].symbol != entries[j].symbol
  {
    forall i, j | 0 <= i < j < |entries| ensures entries[i].symbol != entries[j].symbol {
      assert Symbols(entries)[i] == entries[i].symbol && Symbols(entries)[j] == entries[j].symbol;
    }
  }

  lemma MetadataThen(a: seq<Event>, b: seq<Event>, c: seq<Event>, targets: seq<string>, done: seq<Entry>, rules: Rules)
    requires MetadataPushes(a, b)
    ensures AllOrNothing(a, b, targets, done, rules)
    ensures AllOrNothing(b, c, targets, done, rules) ==> AllOrNothing(a, c, targets, done, rules)
    ensures MetadataPushes(b, c) ==> MetadataPushes(a, c)
  {}

  /** `recover`. */
  method Recover(w: StorePublisher, targets: seq<string>, cfg: Config, rules: Rules)
    returns (requests: nat, debits: nat, r: Result<Commit, Failure>, done: seq<Entry>)
    requires w.Valid() && w.Safe() && |w.repo.log| == w.from
    modifies w`head, w`work, w`time, w.repo
    // the log passes the discipline, and what it calls verified or debited is grounded
    ensures w.repo.Valid() && w.repo.Extends() && w.from <= |w.repo.log| && w.S().ok && Grounded(w.repo.log, w.from)
    ensures AllOrNothing(old(w.repo.log), w.repo.log, targets, done, rules)
    // the counts are the true ones, and every request was paid for in the last verified ledger
    ensures requests == Requests(w.repo.log, w.from)
    ensures debits == Debits(w.repo.log, w.from) + if r.Fail? && r.error.debited then 1 else 0
    ensures requests <= Debits(w.repo.log, w.from) <= Credits(w.S().pub.head.tree) - Credits(w.base.tree)
    // every replacing row comes from an answer to this run's request
    ensures AllSourced(w.repo.log, w.from, done, rules)
    ensures r.Ok? ==> Complete(targets, done) && requests == |done| && FactCommit(r.value, done, rules)
                      && r.value in w.repo.tags && w.S().pub == Settled(r.value) && w.Durably(r.value)
                      && w.Declares(r.value.tree, Declared(r.value.tree, done))
    ensures r.Ok? ==> targets != [] && requests == |targets| && EachOnce(targets, done)
    ensures r.Fail? && !r.error.published ==> MetadataPushes(old(w.repo.log), w.repo.log)
    // and so the remote shows every target replaced, or none
    ensures RemoteOutcome(w.repo.past, w.repo.sent - old(w.repo.sent), targets, done, rules)
  {
    assert forall k :: 0 <= k < |w.repo.log| && w.repo.log[k].PushedMain? ==> w.repo.log[k].candidate in w.repo.sent;
    hide After, Ancestor, Facts, FactCommit, Complete, MetadataCommit, Requests, Debits, Credits, Repo.Valid, AllOrNothing,
         MetadataPushes, Grounded, AllSourced, RemoteOutcome, StorePublisher.Durably, StorePublisher.Declares, Declared,
         EachOnce;
    requests, debits, r, done := RecoverLogged(w, targets, cfg, rules);
    if r.Ok? { CompleteMeaning(targets, done); }
    RunIsBooked(old(w.repo.log), w.repo.log, targets, done, rules);
    DebitsAreCharged(w.base, w.repo.log, w.from);
    RemoteAllOrNothing(w.repo, old(w.repo.log), old(w.repo.sent), targets, done, rules);
  }

  /** No push of a run adds more than one credit, and none loses one. */
  lemma RunIsBooked(was: seq<Event>, now: seq<Event>, targets: seq<string>, done: seq<Entry>, rules: Rules)
    requires AllOrNothing(was, now, targets, done, rules)
    ensures AllBooked(now, |was|)
  {
    hide LedgerOf, ChargedCommit, Complete, Facts;
    forall k | |was| <= k < |now| && now[k].PushedMain? ensures Booked(now[k].candidate) {
      var c := now[k].candidate;
      assert MetadataCommit(c) || FactCommit(c, done, rules);
    }
  }

  /** The run as its log tells it. */
  method RecoverLogged(w: StorePublisher, targets: seq<string>, cfg: Config, rules: Rules)
    returns (requests: nat, debits: nat, r: Result<Commit, Failure>, done: seq<Entry>)
    requires w.Valid() && w.Safe() && |w.repo.log| == w.from
    modifies w`head, w`work, w`time, w.repo
    ensures w.repo.Valid() && w.repo.Extends() && w.from <= |w.repo.log| && w.S().ok && Grounded(w.repo.log, w.from)
    ensures AllOrNothing(old(w.repo.log), w.repo.log, targets, done, rules)
    ensures requests == Requests(w.repo.log, w.from)
    ensures debits == Debits(w.repo.log, w.from) + if r.Fail? && r.error.debited then 1 else 0
    ensures AllSourced(w.repo.log, w.from, done, rules)
    ensures r.Ok? ==> Complete(targets, done) && requests == |done| && FactCommit(r.value, done, rules)
                      && r.value in w.repo.tags && w.S().pub == Settled(r.value) && w.Durably(r.value)
                      && w.Declares(r.value.tree, Declared(r.value.tree, done))
    ensures r.Fail? && !r.error.published ==> MetadataPushes(old(w.repo.log), w.repo.log)
  {
    hide After, Ancestor, Facts, FactCommit, MetadataCommit, Requests, Debits, Repo.Valid, AllOrNothing, MetadataPushes,
         Grounded, AllSourced, StorePublisher.Durably, StorePublisher.Declares, Declared, LoadOne, Drifted, Original;
    FreshRun(w);
    MetadataNone(w.repo.log);
    MetadataThen(w.repo.log, w.repo.log, w.repo.log, targets, [], rules);
    NoneSourced(w.repo.log, w.from, rules);
    requests, debits, done := 0, 0, [];
    if Git.Report in w.work { return 0, 0, Fail(Plain(ReportExists)), []; }
    var loaded := LoadEntries(w.work, targets, rules);
    if loaded.None? || !Complete(targets, loaded.value) { return 0, 0, Fail(Plain(IncompleteTargets)), []; }
    r, requests, debits, done := Run(w, targets, loaded.value, cfg, rules);
  }

  /** Between the loaded originals and the end of the run. */
  method Run(w: StorePublisher, targets: seq<string>, entries: seq<Entry>, cfg: Config, rules: Rules)
    returns (r: Result<Commit, Failure>, requests: nat, debits: nat, done: seq<Entry>)
    requires w.Valid() && w.Safe() && Complete(targets, entries) && AllOriginal(entries, rules)
    requires Requests(w.repo.log, w.from) == 0 == Debits(w.repo.log, w.from)
    modifies w`head, w`work, w`time, w.repo
    ensures w.repo.Valid() && w.repo.Extends() && w.from <= |w.repo.log| && w.S().ok && Grounded(w.repo.log, w.from)
    ensures AllOrNothing(old(w.repo.log), w.repo.log, targets, done, rules)
    ensures requests == Requests(w.repo.log, w.from)
    ensures debits == Debits(w.repo.log, w.from) + if r.Fail? && r.error.debited then 1 else 0
    ensures AllSourced(w.repo.log, w.from, done, rules)
    ensures r.Ok? ==> Complete(targets, done) && requests == |done| && FactCommit(r.value, done, rules)
                      && r.value in w.repo.tags && w.S().pub == Settled(r.value) && w.Durably(r.value)
                      && w.Declares(r.value.tree, Declared(r.value.tree, done))
    ensures r.Fail? && !r.error.published ==> MetadataPushes(old(w.repo.log), w.repo.log)
  {
    hide After, Ancestor, Facts, FactCommit, Complete, MetadataCommit, Requests, Debits, Repo.Valid, AllOrNothing,
         MetadataPushes, Grounded, AllSourced, StorePublisher.Safe, StorePublisher.Durably, StorePublisher.Declares, Declared;
    ghost var start := w.repo.log;
    requests, debits, done := 0, 0, [];
    r := Diagnose(w, "IN_PROGRESS");
    ghost var mark := w.repo.log;
    NoneSourced(mark, w.from, rules);
    MetadataThen(start, mark, mark, targets, done, rules);
    if r.Ok? {
      requests, debits, r, done := TryRecover(w, targets, entries, cfg, rules);
      MetadataThen(start, mark, w.repo.log, targets, done, rules);
    }
    // An uncertain publication forbids a new diagnostic: the verified head stays.
    if r.Fail? && !r.error.published {
      mark := w.repo.log;
      var terminal := Diagnose(w, "BLOCKED");
      AllSourcedGrow(mark, w.repo.log, w.from, done, rules);
      MetadataThen(start, mark, w.repo.log, targets, done, rules);
      MetadataThen(start, w.repo.log, w.repo.log, targets, done, rules);
    }
  }

  /** What the remote shows of the commits sent since `was`: each one that became main did
      so directly on its parent, and either left every market fact alone or replaced all
      targets at once and archived their old rows. The latter is one commit. */
  ghost predicate RemoteOutcome(past: seq<Commit>, ours: set<Commit>, targets: seq<string>, done: seq<Entry>, rules: Rules) {
    && (forall i :: 0 < i < |past| && past[i] in ours && past[i] != past[i - 1] ==>
          && past[i].parents == [past[i - 1]]
          && (|| Facts(past[i].tree) == Facts(past[i - 1].tree)
              || (Complete(targets, done) && FactCommit(past[i], done, rules))))
    && (forall a, b :: a in ours && b in ours && !MetadataCommit(a) && !MetadataCommit(b) ==> a == b)
  }

  /** The log of a run decides what the remote can show of it, whatever failed and whoever else wrote. */
  lemma RemoteAllOrNothing(repo: Repo, was: seq<Event>, before: set<Commit>, targets: seq<string>, done: seq<Entry>,
                           rules: Rules)
    requires repo.Valid() && AllOrNothing(was, repo.log, targets, done, rules)
    requires forall k :: 0 <= k < |was| && was[k].PushedMain? ==> was[k].candidate in before
    ensures RemoteOutcome(repo.past, repo.sent - before, targets, done, rules)
  {
    hide Complete, FactCommit, Facts, Ancestor;
    var ours := repo.sent - before;
    assert forall k :: 0 <= k < |was| ==> repo.log[k] == was[k];
    forall c | c in ours ensures exists k :: |was| <= k < |repo.log| && repo.log[k] == PushedMain(c) {
      var k :| 0 <= k < |repo.log| && repo.log[k] == PushedMain(c);
    }
    forall c | c in ours ensures MetadataCommit(c) || (Complete(targets, done) && FactCommit(c, done, rules)) {
      var k :| |was| <= k < |repo.log| && repo.log[k] == PushedMain(c);
    }
    forall a, b | a in ours && b in ours && !MetadataCommit(a) && !MetadataCommit(b) ensures a == b {
      var k :| |was| <= k < |repo.log| && repo.log[k] == PushedMain(a);
      var j :| |was| <= j < |repo.log| && repo.log[j] == PushedMain(b);
    }
  }
}
