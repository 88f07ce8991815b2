/** The exact fast-forward writer of budget and diagnostics, and the durable debit
    each provider request must follow. */
module Publishing {
  import opened Bars
  import opened Git
  import opened Discipline
  import PushExact
  import Retention
  import Ledger

  datatype Code =
    | ObjectDrift | DirtyCheckout | UnexpectedChange | UnsafePath | PublicationFailed | DurabilityFailed | ReportExists
    | BudgetExhausted | BudgetStateInvalid | BudgetSlotExpired | DeadlineExceeded | InvalidTarget | NotMature
    | ReplacementRejected | ProviderRejected | ContractInvalid | IncompleteTargets | CandidateInvalid | ArchiveTaken
    | Unconfirmed

  /** `published`: the failure carries publication evidence, so the run may not write
      again. `debited`: the debit itself was durable. */
  datatype Failure = Failure(code: Code, published: bool, debited: bool)

  function Plain(code: Code): Failure { Failure(code, false, false) }

  /** Everything in a tree except the two files a metadata commit may touch. */
  function Facts(tree: Tree): Tree { tree - {Budget, Report} }

  /** A tree with the named files taken from a checkout. */
  function Overlaid(tree: Tree, paths: set<Path>, work: Tree): Tree {
    tree + (map p | p in paths && p in work :: work[p])
  }

  /** A commit that leaves every market fact of its parent as it was, and the ledger too
      unless it charges one credit. */
  ghost predicate MetadataCommit(c: Commit) {
    |c.parents| == 1 && Facts(c.tree) == Facts(c.parents[0].tree) && Booked(c)
  }

  /** Between two logs every push of main is a metadata commit and no request is made. */
  ghost predicate OnlyMetadata(was: seq<Event>, now: seq<Event>) {
    was <= now && forall k :: |was| <= k < |now| ==>
      !now[k].Requested? && !now[k].Answered? && (now[k].PushedMain? ==> MetadataCommit(now[k].candidate))
  }

  lemma OnlyMetadataJoin(a: seq<Event>, b: seq<Event>, c: seq<Event>)
    requires OnlyMetadata(a, b) && OnlyMetadata(b, c)
    ensures OnlyMetadata(a, c)
  {}

  /** Between two logs nothing is pushed but commits of this tree, the facts of the parent
      in it, on this parent, and no request is made. */
  ghost predicate Sends(was: seq<Event>, now: seq<Event>, parent: Commit, tree: Tree) {
    Still(was, now) && forall k :: |was| <= k < |now| ==>
      now[k].PushedMain? ==>
        now[k].candidate.parents == [parent] && now[k].candidate.tree == tree && Facts(tree) == Facts(parent.tree)
  }

  lemma SendsJoin(a: seq<Event>, b: seq<Event>, c: seq<Event>, parent: Commit, tree: Tree)
    requires Sends(a, b, parent, tree) && Sends(b, c, parent, tree)
    ensures Sends(a, c, parent, tree)
  {}

  /** If the tree keeps or charges the ledger, those are metadata commits. */
  lemma SendsMetadata(was: seq<Event>, now: seq<Event>, parent: Commit, tree: Tree)
    requires Sends(was, now, parent, tree)
    requires LedgerOf(tree) == LedgerOf(parent.tree)
          || (LedgerOf(tree).Some? && exists minute :: Charge(parent.tree, LedgerOf(tree).value, minute))
    ensures OnlyMetadata(was, now) && Still(was, now)
  {
    forall k | |was| <= k < |now| && now[k].PushedMain? ensures MetadataCommit(now[k].candidate) {
      var c := now[k].candidate;
      if LedgerOf(tree) != LedgerOf(parent.tree) {
        var minute :| Charge(parent.tree, LedgerOf(tree).value, minute);
        assert ChargedCommit(c, minute);
      }
    }
  }

  lemma NeutralSends(was: seq<Event>, now: seq<Event>, parent: Commit, tree: Tree)
    requires Neutral(was, now)
    ensures Sends(was, now, parent, tree) && NoPush(was, now) && OnePush(was, now) && OnlyMetadata(was, now)
    ensures Still(was, now)
  {}

  lemma VerifiedSends(was: seq<Event>, now: seq<Event>, c: Commit, parent: Commit, tree: Tree)
    requires Neutral(was, now)
    ensures Sends(was, now + [Verified(c)], parent, tree) && NoPush(was, now + [Verified(c)])
  {}

  /** Nothing was pushed to main. */
  ghost predicate NoPush(was: seq<Event>, now: seq<Event>) {
    was <= now && forall k :: |was| <= k < |now| ==> !now[k].PushedMain?
  }

  /** At most one push of main. */
  ghost predicate OnePush(was: seq<Event>, now: seq<Event>) {
    was <= now && forall j, k :: |was| <= j < k < |now| ==> !(now[j].PushedMain? && now[k].PushedMain?)
  }

  lemma PushJoin(a: seq<Event>, b: seq<Event>, c: seq<Event>)
    ensures NoPush(a, b) ==> OnePush(a, b)
    ensures NoPush(a, b) && NoPush(b, c) ==> NoPush(a, c)
    ensures NoPush(a, b) && OnePush(b, c) ==> OnePush(a, c)
    ensures OnePush(a, b) && NoPush(b, c) ==> OnePush(a, c)
  {}

  datatype BudgetDebit = BudgetDebit(commit: Commit, blob: Option<Blob>, minute: int)

  datatype Config = Config(perDay: int, perMinute: int, dayStart: int, matureAt: int, dayEnd: int, deadline: int)

  // ---------- the ledger file ----------

  function HeaderOf(tree: Tree): Header {
    if Budget in tree && tree[Budget].LedgerFile? then tree[Budget].header else Header(0, "", "", "")
  }

  /** Some minute that none of the table is later than. */
  lemma LatestMinute(table: map<int, int>) returns (last: int)
    ensures forall m :: m in table ==> m <= last
    decreases |table|
  {
    last := 0;
    if exists m :: m in table {
      var m :| m in table;
      last := LatestMinute(table - {m});
      if last < m { last := m; }
      forall k | k in table ensures k <= last { assert k == m || k in table - {m}; }
    }
  }

  function OutputsOf(tree: Tree): seq<Output> {
    if Budget in tree && tree[Budget].LedgerFile? then tree[Budget].outputs else []
  }

  predicate LedgerWithin(tree: Tree, cfg: Config) {
    Budget in tree ==>
      tree[Budget].LedgerFile? && 0 <= tree[Budget].state.credits <= cfg.perDay
      && forall m :: m in tree[Budget].state.byMinute ==> 0 <= tree[Budget].state.byMinute[m] <= cfg.perMinute
  }

  function ChangedMinutes(before: map<int, int>, after: map<int, int>): set<int> {
    set m | m in after && after[m] != Ledger.At(before, m)
  }

  /** `validate_target`. */
  function TargetError(cfg: Config, now: int): Option<Code> {
    if !(cfg.dayStart <= now < cfg.dayEnd) then Some(InvalidTarget)
    else if now < cfg.matureAt then Some(NotMature)
    else None
  }

  /** At some moment of this span the target's day was running and the target mature. */
  ghost predicate WasOpen(cfg: Config, since: int, until: int) {
    exists at :: OpenAt(cfg, at) && since <= at <= until
  }

  ghost predicate OpenAt(cfg: Config, at: int) {
    cfg.dayStart <= at < cfg.dayEnd && cfg.matureAt <= at
  }

  /** The ledger of a tree keeps the limits of the day and of this minute. */
  ghost predicate WithinLimits(tree: Tree, minute: int, cfg: Config) {
    LedgerOf(tree).Some?
    && var book := LedgerOf(tree).value;
       book.credits <= cfg.perDay && minute in book.byMinute && book.byMinute[minute] <= cfg.perMinute
  }

  /** What a refusal to debit says of the target, the ledger in the checkout, and the clock. */
  ghost predicate Refused(code: Code, cfg: Config, work: Tree, since: int, until: int) {
    match code
    case NotMature => since < cfg.matureAt
    case InvalidTarget => since < cfg.dayStart || until >= cfg.dayEnd
    case DeadlineExceeded => until + 61 * SECOND >= cfg.deadline
    case BudgetExhausted => Exhausted(work, cfg)
    case BudgetStateInvalid => BadLedger(work, cfg) || exists m :: Crowded(work, m)
    case _ => true
  }

  /** The ledger file is none, or counts below zero or beyond a limit. */
  ghost predicate BadLedger(work: Tree, cfg: Config) {
    Budget in work
    && (!work[Budget].LedgerFile? || work[Budget].state.credits < 0 || work[Budget].state.credits > cfg.perDay
        || exists m :: m in work[Budget].state.byMinute && !(0 <= work[Budget].state.byMinute[m] <= cfg.perMinute))
  }

  /** The ledger has sixteen minutes later than this one and would forget it at once. */
  ghost predicate Crowded(work: Tree, m: int) {
    LedgerOf(work).Some? && !Ledger.Recent(LedgerOf(work).value.byMinute, m, m)
  }

  /** The day, or some minute, has no credit left. */
  ghost predicate Exhausted(work: Tree, cfg: Config) {
    LedgerOf(work).Some?
    && (LedgerOf(work).value.credits >= cfg.perDay
        || exists m :: Ledger.At(LedgerOf(work).value.byMinute, m) >= cfg.perMinute)
  }

  lemma RefusedLater(code: Code, cfg: Config, work: Tree, since: int, mark: int, until: int, last: int)
    requires since <= mark && until <= last && Refused(code, cfg, work, mark, until)
    ensures Refused(code, cfg, work, since, last)
  {}

  const SECOND := 1_000_000

  function InMinute(at: int): int { at % MICROS_PER_MINUTE }

  /** In the minute of the debit, not in its last two seconds, and on the target day. */
  predicate Timely(cfg: Config, minute: int, at: int) {
    MinuteOf(at) == minute && InMinute(at) < 58 * SECOND && cfg.dayStart <= at < cfg.dayEnd
  }

  class StorePublisher {
    const repo: Repo
    const base: Commit
    ghost const from: nat
    /** How this run names itself in a manifest. */
    const run: Header
    /** The last fully verified commit. */
    var head: Commit
    /** The files of the budget checkout. */
    var work: Tree
    /** The UTC clock, in microseconds; it never goes back. */
    var time: int

    ghost function S(): State
      reads this, repo
    {
      After(base, repo.log, from)
    }

    ghost predicate Valid()
      reads this, repo
    {
      repo.Valid() && !repo.tamper && from <= |repo.log| && S().ok && S().pub.head == head && Grounded(repo.log, from)
    }

    /** An unconfirmed push leaves the checkout off the verified head. */
    ghost predicate Safe()
      reads this, repo
    {
      S().pub.Unconfirmed? ==> repo.head != head
    }

    constructor (repo: Repo, expected: Commit, work: Tree, time: int, request: string, day: string, stage: string)
      requires repo.Valid() && !repo.tamper
      ensures this.repo == repo && base == expected && head == expected && this.work == work && this.time == time
      ensures run == Header(1, request, day, stage)
      ensures from == |repo.log| && Valid() && Safe() && S() == State(Settled(expected), Idle, true)
    {
      this.repo, base, head, this.work, this.time := repo, expected, expected, work, time;
      from := |repo.log|;
      run := Header(1, request, day, stage);
    }

    method Tick()
      modifies this`time
      ensures time >= old(time)
    {
      var later: int := *;
      if later > time { time := later; }
    }

    /** `remote_head`. */
    method RemoteHead() returns (r: Result<Commit, Code>)
      requires Valid()
      modifies this`time, repo
      ensures Valid() && repo.Extends() && Neutral(old(repo.log), repo.log) && S() == old(S())
      ensures repo.head == old(repo.head) && time >= old(time) && repo.sent == old(repo.sent)
      ensures r.Ok? ==> r.value == repo.main && repo.log == old(repo.log) + [SawMain(r.value)]
      ensures r.Fail? ==> !repo.last.Answer? && r.error == if repo.last.Malformed? then ObjectDrift else PublicationFailed
    {
      hide Grounded;
      Tick();
      var reply := repo.ReadMain();
      AfterNeutral(base, old(repo.log), repo.log, from);
      return if reply.Answer? then Ok(reply.value)
             else if reply.Malformed? then Fail(ObjectDrift) else Fail(PublicationFailed);
    }

    /** What a check that found the run not current says. */
    ghost predicate NotCurrent(code: Code, expected: Commit)
      reads this, repo
    {
      match code
      case ObjectDrift => head != expected || repo.head != expected || repo.main != expected || repo.last.Malformed?
      case PublicationFailed => repo.last.Transient? || repo.last.Permanent?
      case DirtyCheckout => work != expected.tree
      case _ => false
    }

    /** `assert_current`: verified head, HEAD and remote main agree, and nothing is modified. */
    method AssertCurrent(expected: Commit) returns (e: Option<Failure>)
      requires Valid()
      modifies this`time, repo
      ensures Valid() && repo.Extends() && Neutral(old(repo.log), repo.log) && S() == old(S())
      ensures repo.head == old(repo.head) && time >= old(time) && repo.sent == old(repo.sent)
      ensures e.None? ==> head == expected && repo.head == expected && repo.main == expected && work == expected.tree
                          && repo.log == old(repo.log) + [SawMain(expected)]
      ensures e.Some? ==> !e.value.published && !e.value.debited && NotCurrent(e.value.code, expected)
    {
      if head != expected || repo.head != expected { return Some(Plain(ObjectDrift)); }
      var main := RemoteHead();
      if main.Fail? { return Some(Plain(main.error)); }
      if main.value != expected { return Some(Plain(ObjectDrift)); }
      if work != expected.tree { return Some(Plain(DirtyCheckout)); }
      return None;
    }

    /** Since the run began the working tree changed on no other path, and both files are still there. */
    ghost predicate OnlyOurs()
      reads this
    {
      forall p :: (p in base.tree || p in work) && (p !in base.tree || p !in work || base.tree[p] != work[p]) ==>
        (p == Budget || p == Report) && p in work
    }

    /** `assert_allowed`: since the run began only the budget and the report changed, and neither was deleted. */
    predicate ChangesAllowed()
      reads this
    {
      var changed := ChangedPaths(base.tree, work);
      changed <= {Budget, Report} && changed <= work.Keys
    }

    /** `publish`: commit the named files on the verified head, push without force,
        read main back, verify durability; only then advance the head. */
    method Publish(paths: set<Path>, declared: Option<seq<Output>>) returns (r: Result<Commit, Failure>)
      requires Valid() && Safe()
      modifies this`head, this`time, repo
      ensures Valid() && Safe() && repo.Extends() && time >= old(time)
      // only the named files, only on the verified head
      ensures Sends(old(repo.log), repo.log, old(head), Overlaid(old(head).tree, paths, work))
      ensures Facts(head.tree) == Facts(old(head).tree)
      ensures r.Ok? ==> r.value == head && repo.head == head && S().pub == Settled(head)
                        && head.tree == Overlaid(old(head).tree, paths, work)
                        && (old(repo.head) == old(head))
                        && S().phase == (if head == old(head) then old(S()).phase
                                         else if old(S()).phase.Owed? then Durable(old(S()).phase.since, head) else Idle)
                        && (head == old(head) <==> head.tree == old(head).tree)
                        && (head != old(head) ==> head.parents == [old(head)])
      // the new head was read back and tagged, last of all
      ensures r.Ok? ==> Durably(head) && |repo.log| >= |old(repo.log)| + 4
      ensures r.Ok? && declared.Some? ==> Declares(head.tree, declared.value)
      ensures r.Fail? ==> head == old(head) && !r.error.debited
      ensures r.Fail? && !r.error.published ==> S() == old(S()) && BeforePush(r.error.code)
      ensures if r.Fail? && r.error == Plain(UnexpectedChange) then !OnlyOurs() else r.Ok? ==> OnlyOurs()
      // at most one push, and none without a new commit or before the failure says so
      ensures OnePush(old(repo.log), repo.log)
      ensures (if r.Ok? then head == old(head) else !r.error.published) ==> NoPush(old(repo.log), repo.log)
    {
      hide NoPush, OnePush, Sends, Facts, After, Ancestor, Repo.Valid, ChangesAllowed, Grounded, ReadBack, Neutral,
           Overlaid, BeforePush, Retention.VerifiedOutputs, HeaderOf;
      ghost var was := repo.log;
      ghost var tree := Overlaid(head.tree, paths, work);
      var e, candidate := Prepare(paths);
      ghost var mark := repo.log;
      NeutralSends(was, mark, head, tree);
      if e.Some? { return Fail(e.value); }
      r := PushAndVerify(candidate, declared);
      SendsJoin(was, mark, repo.log, head, tree);
      PushJoin(was, mark, repo.log);
      if r.Fail? { return; }
      head := candidate;
    }

    lemma OursChanged()
      ensures ChangesAllowed() <==> OnlyOurs()
    {
      var changed := ChangedPaths(base.tree, work);
      if ChangesAllowed() {
        forall p | (p in base.tree || p in work) && (p !in base.tree || p !in work || base.tree[p] != work[p])
          ensures (p == Budget || p == Report) && p in work
        {
          assert p in changed;
        }
      }
    }

    /** The part of `publish` before the push: its checks, and the commit if anything changed. */
    method Prepare(paths: set<Path>) returns (e: Option<Failure>, candidate: Commit)
      requires Valid() && Safe()
      modifies this`time, repo
      ensures Valid() && repo.Extends() && time >= old(time)
      ensures Neutral(old(repo.log), repo.log) && S() == old(S())
      ensures e.Some? ==> !e.value.published && !e.value.debited && Safe() && BeforePush(e.value.code)
      ensures if e == Some(Plain(UnexpectedChange)) then !OnlyOurs() else e.None? ==> OnlyOurs()
      ensures e.None? ==>
                && repo.main == head && repo.head == candidate && S().pub == Settled(head) && old(repo.head) == head
                && candidate.tree == Overlaid(head.tree, paths, work)
                && Facts(candidate.tree) == Facts(head.tree)
                && (candidate == head <==> candidate.tree == head.tree)
                && (candidate != head ==> candidate.parents == [head])
    {
      hide After, Ancestor;
      OursChanged();
      candidate := head;
      if paths == {} || !(paths <= {Budget, Report}) { return Some(Plain(UnsafePath)), candidate; }
      if !ChangesAllowed() { return Some(Plain(UnexpectedChange)), candidate; }
      var main := RemoteHead();
      if main.Fail? { return Some(Plain(main.error)), candidate; }
      if main.value != head || repo.head != head { return Some(Plain(ObjectDrift)), candidate; }
      if !(paths <= work.Keys) { return Some(Plain(UnsafePath)), candidate; }
      var tree := Overlaid(head.tree, paths, work);
      assert Facts(tree) == Facts(head.tree);
      if tree != head.tree {
        candidate := repo.CommitTree(tree);
        PushExact.ParentIsNot(candidate, head);
        var broken: bool := *;
        if broken { return Some(Plain(PublicationFailed)), candidate; }
      }
      e := None;
    }

    /** The part of `publish` whose failures carry publication evidence. */
    method PushAndVerify(candidate: Commit, declared: Option<seq<Output>>) returns (r: Result<Commit, Failure>)
      requires Valid() && repo.main == head && repo.head == candidate && S().pub == Settled(head)
      requires candidate == head || (candidate.parents == [head] && candidate != head)
      requires Facts(candidate.tree) == Facts(head.tree)
      modifies this`time, repo
      ensures repo.Valid() && repo.Extends() && time >= old(time) && repo.head == old(repo.head)
      ensures from <= |repo.log| && S().ok && Grounded(repo.log, from)
      ensures Sends(old(repo.log), repo.log, head, candidate.tree)
      ensures r.Ok? ==> r.value == candidate && S().pub == Settled(candidate)
                        && S().phase == (if candidate == head then old(S()).phase
                                         else if old(S()).phase.Owed? then Durable(old(S()).phase.since, candidate) else Idle)
      ensures r.Ok? ==> Durably(candidate) && |repo.log| >= |old(repo.log)| + 4
      ensures r.Ok? && declared.Some? ==> Declares(candidate.tree, declared.value)
      ensures r.Fail? ==> r.error.published && !r.error.debited && S().pub.head == head
      ensures r.Fail? && candidate == head ==> S().pub == Settled(head)
      ensures OnePush(old(repo.log), repo.log) && (candidate == head ==> NoPush(old(repo.log), repo.log))
    {
      hide NoPush, OnePush, Sends, After, Grounded, ReadBack;
      NeutralSends(repo.log, repo.log, head, candidate.tree);
      ghost var mark := repo.log;
      if candidate != head {
        var sent := PushCandidate(candidate);
        mark := repo.log;
        if !sent { return Fail(Failure(PublicationFailed, true, false)); }
      }
      r := Confirm(candidate, declared, head);
      SendsJoin(old(repo.log), mark, repo.log, head, candidate.tree);
      PushJoin(old(repo.log), mark, repo.log);
    }

    /** The manifest in the tree names this run and lists exactly these outputs. */
    predicate Declares(tree: Tree, outputs: seq<Output>) {
      Retention.VerifiedOutputs(tree, Budget) == Some(outputs) && HeaderOf(tree) == run
    }

    /** The log ends in the verification of `c`: its tag, HEAD and main were read as `c`. */
    ghost predicate Durably(c: Commit)
      reads this, repo
    {
      && from + 4 <= |repo.log| && repo.log[|repo.log| - 1] == Verified(c) && ReadBack(repo.log, from, |repo.log| - 1, c)
      && c in repo.past && c in repo.tags && repo.tags[c] == c
    }

    /** One plain push of a metadata commit on the verified head. */
    method PushCandidate(candidate: Commit) returns (sent: bool)
      requires Valid() && repo.main == head && repo.head == candidate && S().pub == Settled(head)
      requires candidate.parents == [head] && Facts(candidate.tree) == Facts(head.tree)
      modifies this`time, repo
      ensures repo.Valid() && repo.Extends() && time >= old(time) && repo.head == old(repo.head)
      ensures from <= |repo.log| && Grounded(repo.log, from) && repo.log == old(repo.log) + [PushedMain(candidate)]
      ensures Sends(old(repo.log), repo.log, head, candidate.tree)
      ensures S() == Next(old(S()), PushedMain(candidate)) && OnePush(old(repo.log), repo.log)
    {
      PushExact.NotYetPublished(repo, head, candidate);
      hide After, Ancestor, Facts, Grounded;
      var ack := repo.PushMain(candidate);
      AfterSnoc(base, old(repo.log), from, PushedMain(candidate));
      Tick();
      return ack.Answer?;
    }

    /** Read main back and verify durability; nothing is pushed to main here. */
    method Confirm(candidate: Commit, declared: Option<seq<Output>>, ghost parent: Commit)
      returns (r: Result<Commit, Failure>)
      requires repo.Valid() && !repo.tamper && from <= |repo.log| && S().ok && Grounded(repo.log, from)
      requires S().pub == Settled(candidate) || (S().pub.Unconfirmed? && S().pub.candidate == candidate)
      modifies this`time, repo
      ensures repo.Valid() && repo.Extends() && time >= old(time) && repo.head == old(repo.head)
      ensures from <= |repo.log| && Grounded(repo.log, from) && Sends(old(repo.log), repo.log, parent, candidate.tree)
      ensures r.Ok? ==> r.value == candidate && S() == Next(old(S()), Verified(candidate)) && Durably(candidate)
                        && |repo.log| >= |old(repo.log)| + 4
      ensures r.Ok? && declared.Some? ==> Declares(candidate.tree, declared.value)
      ensures r.Fail? ==> r.error.published && !r.error.debited && S() == old(S())
      ensures NoPush(old(repo.log), repo.log)
    {
      hide After, Ancestor, Facts, Repo.Valid, Next, Sends, NoPush, Grounded, Retention.StoreOnly, Retention.VerifiedOutputs,
           Durably;
      Tick();
      var main := repo.ReadMain();
      AfterNeutral(base, old(repo.log), repo.log, from);
      NeutralSends(old(repo.log), repo.log, parent, candidate.tree);
      if !main.Answer? { return Fail(Failure(PublicationFailed, true, false)); }
      if main.value != candidate { return Fail(Failure(ObjectDrift, true, false)); }
      var durable := Durability(candidate, declared);
      NeutralSends(old(repo.log), repo.log, parent, candidate.tree);
      if !durable { return Fail(Failure(DurabilityFailed, true, false)); }
      ghost var mark := repo.log;
      MarkVerified(candidate);
      VerifiedSends(old(repo.log), mark, candidate, parent, candidate.tree);
      return Ok(candidate);
    }

    /** Record that `c`, just read back, is verified. */
    method MarkVerified(c: Commit)
      requires repo.Valid() && from <= |repo.log| && Grounded(repo.log, from) && ReadBack(repo.log, from, |repo.log|, c)
      requires c in repo.past && c in repo.tags && repo.tags[c] == c
      modifies repo`log
      ensures repo.Valid() && repo.log == old(repo.log) + [Verified(c)] && Grounded(repo.log, from)
      ensures S() == Next(old(S()), Verified(c)) && Durably(c)
    {
      hide After, Ancestor, Repo.Valid, Grounded, Next;
      ghost var mark := repo.log;
      repo.Note(Verified(c));
      AfterSnoc(base, mark, from, Verified(c));
    }

    /** `verify_durability`: the publication verifier, and the declared outputs if any. */
    method Durability(candidate: Commit, declared: Option<seq<Output>>) returns (durable: bool)
      requires repo.Valid() && !repo.tamper && from <= |repo.log|
      modifies this`time, repo
      ensures repo.Valid() && repo.Extends() && time >= old(time) && repo.head == old(repo.head)
      ensures Neutral(old(repo.log), repo.log) && from <= |repo.log| && S() == old(S())
      ensures old(Grounded(repo.log, from)) ==> Grounded(repo.log, from)
      ensures durable ==> candidate in repo.tags && repo.tags[candidate] == candidate && candidate in repo.past
      ensures durable ==> |repo.log| >= |old(repo.log)| + 3 && ReadBack(repo.log, from, |repo.log|, candidate)
      ensures durable ==> Retention.StoreOnly(candidate)
      ensures durable && declared.Some? ==>
                Retention.VerifiedOutputs(candidate.tree, Budget) == Some(declared.value) && HeaderOf(candidate.tree) == run
    {
      hide Retention.StoreOnly, Grounded, Repo.Valid;
      var receipt := Retention.VerifyPublication(repo, candidate, if declared.Some? then Some(Budget) else None);
      AfterNeutral(base, old(repo.log), repo.log, from);
      Tick();
      return receipt.Ok? && (declared.Some? ==> receipt.value == declared.value && HeaderOf(candidate.tree) == run);
    }

    /** `report`: write the diagnostic, declare it in the budget file, publish both. */
    method PublishReport(status: string) returns (r: Result<Commit, Failure>)
      requires Valid() && Safe()
      modifies this`head, this`work, this`time, repo
      ensures Valid() && Safe() && repo.Extends() && time >= old(time)
      ensures OnlyMetadata(old(repo.log), repo.log) && Facts(head.tree) == Facts(old(head).tree)
      ensures r.Ok? ==> r.value == head && repo.head == head && S().pub == Settled(head)
      ensures r.Ok? ==> LedgerOf(head.tree) == LedgerOf(old(head).tree)
                        && Retention.VerifiedOutputs(head.tree, Budget) == Some([Output(Report, ReportFile(status))])
                        && HeaderOf(head.tree) == run
      ensures Still(old(repo.log), repo.log)
      ensures r.Fail? ==> head == old(head) && !r.error.debited
      ensures r.Fail? && !r.error.published ==> S() == old(S())
    {
      hide Still, Grounded, OnlyMetadata, Sends, ReadBack, OnePush, NoPush, Neutral, After, Repo.Valid, Ancestor, Durably,
           Facts, LedgerOf, Overlaid, Retention.VerifiedOutputs;
      NeutralSends(repo.log, repo.log, head, head.tree);
      var e := AssertCurrent(head);
      NeutralSends(old(repo.log), repo.log, head, head.tree);
      if e.Some? { return Fail(e.value); }
      var state := LedgerOf(work);
      if state.None? { return Fail(Plain(BudgetStateInvalid)); }
      var blob := ReportFile(status);
      var outputs := [Output(Report, blob)];
      work := work[Report := blob][Budget := LedgerFile(state.value, run, outputs)];
      ghost var mark, parent, tree := repo.log, head, Overlaid(head.tree, {Budget, Report}, work);
      ReportTree(head.tree, status, run, work);
      r := Publish({Budget, Report}, Some(outputs));
      SendsMetadata(mark, repo.log, parent, tree);
      OnlyMetadataJoin(old(repo.log), mark, repo.log);
      StillJoin(old(repo.log), mark, repo.log);
    }

    method CheckDeadline(cfg: Config) returns (e: Option<Failure>)
      modifies this`time
      ensures time >= old(time)
      ensures e.None? ==> time < cfg.deadline
      ensures e.Some? ==> e.value == Plain(DeadlineExceeded) && time >= cfg.deadline
    {
      Tick();
      return if time >= cfg.deadline then Some(Plain(DeadlineExceeded)) else None;
    }

    /** `wait_next`: sleep into the next minute, unless the deadline comes first. */
    method WaitNext(cfg: Config, stamp: int) returns (e: Option<Failure>)
      modifies this`time
      ensures time >= old(time)
      ensures e.None? ==> old(time) < time < cfg.deadline
      ensures e.Some? ==> e.value == Plain(DeadlineExceeded) && time + 61 * SECOND >= cfg.deadline
    {
      var delay := 61 * SECOND - InMinute(stamp);
      if time + delay >= cfg.deadline { return Some(Plain(DeadlineExceeded)); }
      time := time + delay;
      e := CheckDeadline(cfg);
    }

    /** `wait_for_twelve_budget`. Without a deadline it waits until the ledger knows nothing of the
        minute, so it ends if a minute may have a credit at all; else it would wait for ever. */
    method WaitForBudget(cfg: Config, deadline: Option<int>) returns (e: Option<Failure>)
      requires deadline.None? ==> cfg.perMinute > 0
      modifies this`time
      ensures time >= old(time)
      ensures e.Some? ==> !e.value.published && !e.value.debited
      ensures e.None? ==> LedgerOf(work).Some? && LedgerOf(work).value.credits < cfg.perDay
                          && Ledger.At(LedgerOf(work).value.byMinute, MinuteOf(time)) < cfg.perMinute
      ensures deadline.None? && LedgerOf(work).Some? && LedgerOf(work).value.credits < cfg.perDay ==> e.None?
      ensures e.Some? ==>
                match e.value.code
                case BudgetStateInvalid => LedgerOf(work).None?
                case BudgetExhausted => LedgerOf(work).Some? && LedgerOf(work).value.credits >= cfg.perDay
                case DeadlineExceeded => deadline.Some? && time + 61 * SECOND >= deadline.value
                case _ => false
    {
      var state := LedgerOf(work);
      ghost var last := 0;
      if state.Some? { last := LatestMinute(state.value.byMinute); }
      while true
        invariant time >= old(time)
        decreases (if deadline.Some? then deadline.value else (last + 1) * MICROS_PER_MINUTE) - time
      {
        e := Overdue(deadline, 0);
        if e.Some? { return; }
        if state.None? { return Some(Plain(BudgetStateInvalid)); }
        if state.value.credits >= cfg.perDay { return Some(Plain(BudgetExhausted)); }
        if Ledger.At(state.value.byMinute, MinuteOf(time)) < cfg.perMinute { return None; }
        assert deadline.None? ==> MinuteOf(time) <= last;
        var delay := 61 * SECOND - InMinute(time);
        e := Overdue(deadline, delay);
        if e.Some? { return; }
        time := time + delay;
      }
    }

    /** The clock moves on; whether the deadline comes within `delay`. */
    method Overdue(deadline: Option<int>, delay: int) returns (e: Option<Failure>)
      modifies this`time
      ensures time >= old(time)
      ensures e.None? <==> deadline.None? || time + delay < deadline.value
      ensures e.Some? ==> e.value == Plain(DeadlineExceeded)
    {
      Tick();
      return if deadline.Some? && time + delay >= deadline.value then Some(Plain(DeadlineExceeded)) else None;
    }

    /** Everything `debit_before_request` checks before it charges: the ledger, the
        clock window and, last of all, that nothing has moved. */
    method AwaitWindow(cfg: Config) returns (e: Option<Failure>)
      requires Valid() && Safe()
      modifies this`time, repo
      ensures Valid() && Safe() && repo.Extends() && time >= old(time)
      ensures Neutral(old(repo.log), repo.log) && S() == old(S()) && repo.head == old(repo.head)
      ensures e.None? ==> repo.head == head && work == head.tree && LedgerOf(work).Some?
      ensures e.None? ==> WasOpen(cfg, old(time), time)
      ensures e.Some? ==> !e.value.published && !e.value.debited
      ensures e.Some? ==> Refused(e.value.code, cfg, work, old(time), time)
    {
      while true
        invariant Valid() && Safe() && repo.Extends() && time >= old(time)
        invariant Neutral(old(repo.log), repo.log) && S() == old(S()) && repo.head == old(repo.head)
        decreases cfg.deadline - time
      {
        var again;
        ghost var mark := time;
        again, e := TryWindow(cfg);
        if e.Some? { RefusedLater(e.value.code, cfg, work, old(time), mark, time, time); }
        if e.Some? || !again { return; }
      }
    }

    method TryWindow(cfg: Config) returns (again: bool, e: Option<Failure>)
      requires Valid() && Safe()
      modifies this`time, repo
      ensures Valid() && Safe() && repo.Extends() && time >= old(time)
      ensures Neutral(old(repo.log), repo.log) && S() == old(S()) && repo.head == old(repo.head)
      ensures e.None? && again ==> old(time) < time && old(time) < cfg.deadline
      ensures e.None? && !again ==> repo.head == head && work == head.tree && LedgerOf(work).Some?
      ensures e.None? && !again ==> WasOpen(cfg, old(time), time)
      ensures e.Some? ==> !e.value.published && !e.value.debited
      ensures e.Some? ==> Refused(e.value.code, cfg, work, old(time), time)
    {
      hide Grounded, Repo.Valid, After, Ancestor, LedgerWithin;
      SoundLedger(work, cfg);
      again := false;
      e := CheckDeadline(cfg);
      if e.Some? { return; }
      var bad := TargetError(cfg, time);
      if bad.Some? { return false, Some(Plain(bad.value)); }
      if !LedgerWithin(work, cfg) { return false, Some(Plain(BudgetStateInvalid)); }
      e := WaitForBudget(cfg, Some(cfg.deadline));
      if e.Some? { return; }
      e := CheckDeadline(cfg);
      if e.Some? { return; }
      bad := TargetError(cfg, time);
      if bad.Some? { return false, Some(Plain(bad.value)); }
      if InMinute(time) >= 38 * SECOND {
        e := WaitNext(cfg, time);
        return true, e;
      }
      // Waiting and remote reads are not locks: look again directly before the debit.
      e := AssertCurrent(head);
      if e.Some? { return false, Some(e.value.(debited := false)); }
      var computeMoved: bool := *;
      if computeMoved { return false, Some(Plain(ObjectDrift)); }
      e := CheckDeadline(cfg);
      if e.Some? { return; }
      var stamp := time;
      bad := TargetError(cfg, stamp);
      if bad.Some? { return false, Some(Plain(bad.value)); }
      var state := LedgerOf(work);
      if !LedgerWithin(work, cfg) || state.None? { return false, Some(Plain(BudgetStateInvalid)); }
      if state.value.credits >= cfg.perDay { return false, Some(Plain(BudgetExhausted)); }
      if Ledger.At(state.value.byMinute, MinuteOf(stamp)) >= cfg.perMinute {
        e := WaitNext(cfg, stamp);
        return true, e;
      }
      e := CheckDeadline(cfg);
      if e.Some? { return; }
      bad := TargetError(cfg, time);
      if bad.Some? { return false, Some(Plain(bad.value)); }
      if MinuteOf(time) != MinuteOf(stamp) { return true, None; }
      if InMinute(time) >= 38 * SECOND {
        e := WaitNext(cfg, time);
        return true, e;
      }
      assert OpenAt(cfg, time);
      e := CheckDeadline(cfg);
    }

    /** `debit_before_request`: charge one credit, publish and verify the ledger, and
        hand out the receipt only if all of it fell in one UTC minute. */
    method DebitBeforeRequest(cfg: Config) returns (r: Result<BudgetDebit, Failure>)
      requires Valid() && Safe()
      modifies this`head, this`work, this`time, repo
      ensures Valid() && Safe() && repo.Extends() && time >= old(time)
      ensures OnlyMetadata(old(repo.log), repo.log) && Facts(head.tree) == Facts(old(head).tree)
      ensures r.Ok? ==> S() == State(Settled(head), Held(head, r.value.minute), true)
                        && r.value.commit == head && repo.head == head
                        && head in repo.past && head in repo.tags && repo.tags[head] == head
      ensures r.Ok? ==> head.parents == [old(head)] && ChargedCommit(head, r.value.minute)
      ensures r.Ok? ==> WasOpen(cfg, old(time), time) && WithinLimits(head.tree, r.value.minute, cfg)
      ensures Requests(repo.log, from) == Requests(old(repo.log), from)
      ensures Debits(repo.log, from) == Debits(old(repo.log), from) + if r.Ok? then 1 else 0
      ensures r.Fail? && !r.error.published && !r.error.debited ==> head == old(head)
      ensures r.Fail? && !r.error.published && !r.error.debited ==>
                Refused(r.error.code, cfg, old(work), old(time), time)
    {
      hide Still, Grounded, OnlyMetadata, ChargedCommit, Requests, Debits, WithinLimits;
      var e := AwaitWindow(cfg);
      ghost var mark := repo.log;
      NeutralSends(old(repo.log), mark, head, head.tree);
      StillCounts(old(repo.log), mark, from);
      if e.Some? { return Fail(e.value); }
      assert S().pub.Settled?;
      r := ChargeAndPublish(cfg);
      OnlyMetadataJoin(old(repo.log), mark, repo.log);
    }

    method ChargeAndPublish(cfg: Config) returns (r: Result<BudgetDebit, Failure>)
      requires Valid() && Safe() && repo.head == head && work == head.tree && LedgerOf(work).Some?
      modifies this`head, this`work, this`time, repo
      ensures Valid() && Safe() && repo.Extends() && time >= old(time)
      ensures OnlyMetadata(old(repo.log), repo.log) && Facts(head.tree) == Facts(old(head).tree)
      ensures r.Ok? ==> S() == State(Settled(head), Held(head, r.value.minute), true)
                        && r.value.commit == head && repo.head == head
                        && head in repo.past && head in repo.tags && repo.tags[head] == head
      ensures r.Ok? ==> head.parents == [old(head)] && ChargedCommit(head, r.value.minute)
      ensures r.Ok? ==> WithinLimits(head.tree, r.value.minute, cfg)
      ensures Requests(repo.log, from) == Requests(old(repo.log), from)
      ensures Debits(repo.log, from) == Debits(old(repo.log), from) + if r.Ok? then 1 else 0
      ensures r.Fail? && !r.error.published && !r.error.debited ==> head == old(head)
      ensures r.Fail? && !r.error.published && !r.error.debited ==>
                Refused(r.error.code, cfg, old(work), old(time), time)
    {
      hide WithinLimits, Still, Grounded, OnlyMetadata, Sends, ReadBack, OnePush, NoPush, Charge, Facts, After, Repo.Valid,
           Ancestor, LedgerOf, Overlaid, Neutral, Requests, Debits, Refused, BeforePush, OnlyOurs, Declares,
           ChargedCommit;
      var e, since, next := ChargeLedger(cfg);
      StillCounts(old(repo.log), repo.log, from);
      if e.Some? { return Fail(e.value); }
      var minute := MinuteOf(since);
      ghost var was, mark := head, repo.log;
      ghost var tree := Overlaid(was.tree, {Budget}, work);
      ChargeChanges(was.tree, work, next, minute);
      var published := Publish({Budget}, None);
      SendsMetadata(mark, repo.log, was, tree);
      StillCounts(mark, repo.log, from);
      OnlyMetadataJoin(old(repo.log), mark, repo.log);
      if published.Fail? {
        if !published.error.published { NotRefused(published.error.code, cfg, old(work), old(time), time); }
        return Fail(published.error);
      }
      ChargedIs(head, was, next, minute);
      KeepsLimits(head.tree, next, minute, cfg);
      ghost var mark2 := repo.log;
      r := Receipt(cfg, minute, since);
      if r.Ok? { CountsSnoc(mark2, from, repo.log[|repo.log| - 1]); }
      OnlyMetadataJoin(old(repo.log), mark2, repo.log);
    }

    /** `consume_twelve_credit` on the checkout's ledger, and the checks that exactly
        one credit was added to exactly one minute, the current one. */
    method ChargeLedger(cfg: Config) returns (e: Option<Failure>, since: int, next: Minutes)
      requires Valid() && Safe() && repo.head == head && work == head.tree && LedgerOf(work).Some?
      modifies this`work, this`time, repo
      ensures Valid() && Safe() && repo.Extends() && time >= old(time) && repo.head == old(repo.head)
      ensures OnlyMetadata(old(repo.log), repo.log) && Still(old(repo.log), repo.log)
      ensures e.Some? ==> !e.value.published && !e.value.debited && Refused(e.value.code, cfg, old(work), old(time), time)
      ensures e.None? ==> S() == State(Settled(head), Owed(since), true) && since <= time
                          && next.credits <= cfg.perDay && MinuteOf(since) in next.byMinute
                          && next.byMinute[MinuteOf(since)] <= cfg.perMinute
                          && Charge(head.tree, next, MinuteOf(since))
                          && work == head.tree[Budget := LedgerFile(next, HeaderOf(head.tree), OutputsOf(head.tree))]
    {
      hide Ancestor, Repo.Valid, Facts, Grounded, OnlyMetadata, Still, After, Ledger.Recent, BadLedger, Crowded, LedgerWithin,
           LedgerOf;
      Tick();
      SilentLog(repo.log);
      var before := LedgerOf(work).value;
      since, next := time, before;
      var minute := MinuteOf(since);
      var charged := Ledger.Consume(before, minute, 1, cfg.perDay, cfg.perMinute);
      if charged.Fail? { return Some(Plain(BudgetExhausted)), since, next; }
      next := charged.value;
      repo.Note(Charged(since));
      AfterSnoc(base, old(repo.log), from, Charged(since));
      ChargeNoted(old(repo.log), since);
      work := work[Budget := LedgerFile(next, HeaderOf(work), OutputsOf(work))];
      var changed := ChangedMinutes(before.byMinute, next.byMinute);
      if !LedgerWithin(work, cfg) || next.credits != before.credits + 1 || changed != {minute}
         || next.byMinute[minute] != Ledger.At(before.byMinute, minute) + 1 {
        if !BadLedger(old(work), cfg) && !Crowded(old(work), minute) {
          ChargeFits(old(work), next, minute, cfg, HeaderOf(old(work)), OutputsOf(old(work)));
        }
        return Some(Plain(BudgetStateInvalid)), since, next;
      }
      ChargedOnce(before, next, minute, cfg.perDay, cfg.perMinute);
      return None, since, next;
    }

    /** The checks after publication: same minute, early enough, before the deadline. */
    method Receipt(cfg: Config, minute: int, since: int) returns (r: Result<BudgetDebit, Failure>)
      requires Valid() && Safe() && repo.head == head && since <= time && MinuteOf(since) == minute
      requires S() == State(Settled(head), Durable(since, head), true) && ChargedCommit(head, minute)
      modifies this`time, repo
      ensures Valid() && Safe() && repo.Extends() && time >= old(time) && repo.head == old(repo.head)
      ensures OnlyMetadata(old(repo.log), repo.log)
      ensures r.Ok? ==> S() == State(Settled(head), Held(head, minute), true)
                        && r.value == BudgetDebit(head, if Budget in head.tree then Some(head.tree[Budget]) else None, minute)
      ensures r.Ok? <==> S() == State(Settled(head), Held(head, minute), true)
      ensures r.Fail? ==> r.error.debited && repo.log == old(repo.log)
      ensures r.Ok? ==> exists at :: repo.log == old(repo.log) + [Debited(head, minute, at)]
    {
      hide Grounded, Repo.Valid, ChargedCommit;
      var unreadable: bool := *;
      if unreadable { return Fail(Failure(PublicationFailed, false, true)); }
      Tick();
      if MinuteOf(time) != minute || InMinute(time) >= 58 * SECOND { return Fail(Failure(BudgetSlotExpired, false, true)); }
      var at := time;
      var e := CheckDeadline(cfg);
      if e.Some? { return Fail(Failure(DeadlineExceeded, false, true)); }
      repo.Note(Debited(head, minute, at));
      AfterSnoc(base, old(repo.log), from, Debited(head, minute, at));
      return Ok(BudgetDebit(head, if Budget in head.tree then Some(head.tree[Budget]) else None, minute));
    }

    /** `guard_provider_request`, the last gate before HTTP. */
    method GuardProviderRequest(debit: BudgetDebit, cfg: Config) returns (e: Option<Failure>)
      requires Valid() && Safe()
      modifies this`time, repo
      ensures Valid() && Safe() && repo.Extends() && time >= old(time) && repo.head == old(repo.head)
      ensures Neutral(old(repo.log), repo.log) && S() == old(S())
      ensures e.None? ==> head == debit.commit && repo.head == head && repo.main == head
                          && Timely(cfg, debit.minute, time) && repo.log == old(repo.log) + [SawMain(head)]
                          && work == head.tree && debit.blob == (if Budget in work then Some(work[Budget]) else None)
      ensures e.Some? ==> !e.value.published
    {
      hide Grounded;
      e := AssertCurrent(debit.commit);
      if e.Some? { return; }
      if debit.blob != (if Budget in work then Some(work[Budget]) else None) { return Some(Plain(ObjectDrift)); }
      var computeMoved: bool := *;
      if computeMoved { return Some(Plain(ObjectDrift)); }
      Tick();
      if time > cfg.deadline { return Some(Plain(DeadlineExceeded)); }
      Tick();
      if !(cfg.dayStart <= time < cfg.dayEnd) { return Some(Plain(InvalidTarget)); }
      if MinuteOf(time) != debit.minute || InMinute(time) >= 58 * SECOND { return Some(Plain(BudgetSlotExpired)); }
      return None;
    }
  }

  /** The reasons to stop before anything is pushed. */
  predicate BeforePush(code: Code) { code in {UnsafePath, UnexpectedChange, ObjectDrift, PublicationFailed} }

  lemma ChargedIs(c: Commit, was: Commit, next: Minutes, minute: int)
    requires c.parents == [was] && LedgerOf(c.tree) == Some(next) && Charge(was.tree, next, minute)
    ensures ChargedCommit(c, minute)
  {}

  lemma NotRefused(code: Code, cfg: Config, work: Tree, since: int, until: int)
    requires BeforePush(code)
    ensures Refused(code, cfg, work, since, until)
  {}

  /** The report is declared, with its blob, beside the unchanged ledger. */
  lemma ReportTree(tree: Tree, status: string, run: Header, work: Tree)
    requires LedgerOf(tree).Some?
    requires var outputs := [Output(Report, ReportFile(status))];
             work == tree[Report := ReportFile(status)][Budget := LedgerFile(LedgerOf(tree).value, run, outputs)]
    ensures var now := Overlaid(tree, {Budget, Report}, work);
            && LedgerOf(now) == LedgerOf(tree) && HeaderOf(now) == run
            && (Retention.Complete(run) ==>
                  Retention.VerifiedOutputs(now, Budget) == Some([Output(Report, ReportFile(status))]))
  {
    var now, outputs := Overlaid(tree, {Budget, Report}, work), [Output(Report, ReportFile(status))];
    assert now[Budget] == LedgerFile(LedgerOf(tree).value, run, outputs) && now[Report] == ReportFile(status);
    assert outputs[0] == Output(Report, ReportFile(status));
  }

  /** A sound ledger that remembers the minute passes the checks after a charge. */
  lemma ChargeFits(work: Tree, next: Minutes, minute: int, cfg: Config, header: Header, outputs: seq<Output>)
    requires LedgerOf(work).Some? && !BadLedger(work, cfg) && !Crowded(work, minute)
    requires Ledger.Consume(LedgerOf(work).value, minute, 1, cfg.perDay, cfg.perMinute) == Ok(next)
    ensures LedgerWithin(work[Budget := LedgerFile(next, header, outputs)], cfg)
    ensures ChangedMinutes(LedgerOf(work).value.byMinute, next.byMinute) == {minute} && minute in next.byMinute
    ensures next.byMinute[minute] == Ledger.At(LedgerOf(work).value.byMinute, minute) + 1
    ensures next.credits == LedgerOf(work).value.credits + 1
  {
    var before := LedgerOf(work).value;
    Ledger.ConsumeMeaning(before, minute, 1, cfg.perDay, cfg.perMinute);
    hide Ledger.Recent;
    var now := work[Budget := LedgerFile(next, header, outputs)];
    forall m | m in next.byMinute ensures 0 <= next.byMinute[m] <= cfg.perMinute {
      if m != minute { assert Ledger.Recent(before.byMinute, minute, m); OldMinute(before.byMinute, minute, m); }
    }
    forall m | m in next.byMinute && m != minute ensures m !in ChangedMinutes(before.byMinute, next.byMinute) {
      OldMinute(before.byMinute, minute, m);
    }
  }

  lemma OldMinute(table: map<int, int>, minute: int, m: int)
    requires Ledger.Recent(table, minute, m) && m != minute
    ensures m in table
  {}

  lemma SoundLedger(work: Tree, cfg: Config)
    ensures LedgerWithin(work, cfg) <==> !BadLedger(work, cfg)
  {}

  lemma KeepsLimits(tree: Tree, book: Minutes, minute: int, cfg: Config)
    requires LedgerOf(tree) == Some(book)
    requires book.credits <= cfg.perDay && minute in book.byMinute && book.byMinute[minute] <= cfg.perMinute
    ensures WithinLimits(tree, minute, cfg)
  {}

  lemma ChargeNoted(was: seq<Event>, at: int)
    ensures OnlyMetadata(was, was + [Charged(at)]) && Still(was, was + [Charged(at)])
  {}

  lemma SilentLog(log: seq<Event>)
    ensures OnlyMetadata(log, log) && Still(log, log)
  {}

  lemma ChargedOnce(before: Minutes, next: Minutes, minute: int, perDay: int, perMinute: int)
    requires Ledger.Consume(before, minute, 1, perDay, perMinute) == Ok(next)
    requires ChangedMinutes(before.byMinute, next.byMinute) == {minute}
    ensures minute in next.byMinute
    ensures forall k :: k in next.byMinute && k != minute ==> next.byMinute[k] == Ledger.At(before.byMinute, k)
    ensures forall k :: k in next.byMinute <==> Ledger.Recent(before.byMinute, minute, k)
    ensures next.credits <= perDay && next.byMinute[minute] <= perMinute
  {
    Ledger.ConsumeMeaning(before, minute, 1, perDay, perMinute);
    assert minute in ChangedMinutes(before.byMinute, next.byMinute);
    forall k | k in next.byMinute && k != minute ensures next.byMinute[k] == Ledger.At(before.byMinute, k) {
      assert k !in ChangedMinutes(before.byMinute, next.byMinute);
    }
  }

  /** A charged ledger file differs from the one before it, so it makes a new commit. */
  lemma ChargeChanges(tree: Tree, work: Tree, next: Minutes, minute: int)
    requires Charge(tree, next, minute) && work == tree[Budget := LedgerFile(next, HeaderOf(tree), OutputsOf(tree))]
    ensures Overlaid(tree, {Budget}, work) != tree
    ensures LedgerOf(Overlaid(tree, {Budget}, work)) == Some(next)
  {}
}
