/** Pushing one proof-bearing commit: a bounded retry that never pushes without a
    fresh exact observation of the remote. */
module PushExact {
  import opened Bars
  import opened Git

  datatype PushError =
    | InvalidExactIdentity | InvalidRetryBound | LocalIdentityUnreadable | CandidateChanged | DirtyWorktree
    | NotSingleBaseChild | WriteScopeInvalid | RemoteIdentityInvalid | RemoteMainAdvanced
    | RemoteUnreadable | PushReadbackUnavailable | PushRejected | ReadRetriesExhausted | TransportRetriesExhausted
    | ReadbackUnconfirmed

  /** What a failure says of the candidate, of main, and of the command that failed. */
  ghost predicate Justified(e: PushError, base: Commit, candidate: Commit, attempts: int, repo: Repo)
    reads repo
  {
    match e
    case InvalidExactIdentity => base == candidate
    case InvalidRetryBound => attempts < 1 || attempts > 3
    case NotSingleBaseChild => candidate.parents != [base]
    case WriteScopeInvalid =>
      base.tree == candidate.tree || exists p :: p in ChangedPaths(base.tree, candidate.tree) && !p.InScope()
    case RemoteMainAdvanced => LastMain(repo).Some? && LastMain(repo).value != base && LastMain(repo).value != candidate
    case ReadRetriesExhausted => repo.last.Transient?
    case TransportRetriesExhausted => repo.acked.Transient?
    case ReadbackUnconfirmed => repo.acked.Answer?
    case _ => Local(e, candidate, repo)
  }

  /** What the process saw last of all, if that was main, or HEAD. */
  ghost function LastMain(repo: Repo): Option<Commit>
    reads repo
  {
    if repo.log != [] && repo.log[|repo.log| - 1].SawMain? then Some(repo.log[|repo.log| - 1].main) else None
  }

  ghost function LastHead(repo: Repo): Option<Commit>
    reads repo
  {
    if repo.log != [] && repo.log[|repo.log| - 1].SawHead? then Some(repo.log[|repo.log| - 1].head) else None
  }

  /** The failures of the checkout's own checks, and of the transport, each with its cause. */
  ghost predicate Local(e: PushError, candidate: Commit, repo: Repo)
    reads repo
  {
    match e
    case LocalIdentityUnreadable => repo.last.Permanent?
    case CandidateChanged => LastHead(repo).Some? && LastHead(repo).value != candidate
    case DirtyWorktree => !repo.clean
    case RemoteIdentityInvalid => repo.last.Malformed?
    case RemoteUnreadable => repo.last.Permanent?
    case PushReadbackUnavailable => repo.last.Permanent?
    case PushRejected => repo.acked.Permanent? || repo.acked.Malformed?
    case _ => false
  }

  /** A failure of one attempt: not for the candidate's shape, and each for its cause. */
  ghost predicate Final(e: PushError, base: Commit, candidate: Commit, repo: Repo)
    reads repo
  {
    Local(e, candidate, repo)
    || (e.RemoteMainAdvanced? && LastMain(repo).Some? && LastMain(repo).value != base && LastMain(repo).value != candidate)
  }

  lemma FinalJustified(e: PushError, base: Commit, candidate: Commit, attempts: int, repo: Repo)
    requires Final(e, base, candidate, repo)
    ensures Justified(e, base, candidate, attempts, repo) && !Exhausted(e)
  {}

  /** The failures that only come when every attempt has been made. */
  predicate Exhausted(e: PushError) { e.ReadRetriesExhausted? || e.TransportRetriesExhausted? || e.ReadbackUnconfirmed? }

  /** Of those, the one that the last attempt came to. */
  ghost predicate Unlucky(e: PushError, repo: Repo)
    reads repo
  {
    (e.ReadRetriesExhausted? && repo.last.Transient?) || (e.TransportRetriesExhausted? && repo.acked.Transient?)
    || (e.ReadbackUnconfirmed? && repo.acked.Answer?)
  }

  lemma NothingChanged(a: Tree, b: Tree)
    ensures ChangedPaths(a, b) == {} <==> a == b
  {
    if ChangedPaths(a, b) == {} {
      forall p ensures (p in a <==> p in b) && (p in a ==> a[p] == b[p]) {
        assert p !in ChangedPaths(a, b);
      }
    }
  }

  /** How many pushes of main the log shows from position `from` on. */
  function Pushes(log: seq<Event>, from: nat): (n: nat) {
    if |log| <= from then 0
    else Pushes(log[..|log| - 1], from) + if log[|log| - 1].PushedMain? then 1 else 0
  }

  lemma {:induction false} PushesAdded(log: seq<Event>, added: seq<Event>, from: nat)
    requires from <= |log|
    ensures Pushes(log + added, from) == Pushes(log, from) + Pushes(added, 0)
    decreases |added|
  {
    if added == [] {
      assert log + added == log;
    } else {
      var init, e := added[..|added| - 1], added[|added| - 1];
      PushesAdded(log, init, from);
      assert (log + added)[..|log + added| - 1] == log + init;
    }
  }

  /** Every push of main since `from` carries `candidate` and directly follows a read
      of main equal to `base` and a check that the checkout still is the candidate. */
  ghost predicate AllGuarded(log: seq<Event>, from: nat, base: Commit, candidate: Commit) {
    forall k :: from <= k < |log| && log[k].PushedMain? ==>
      && k - 3 >= from && log[k] == PushedMain(candidate)
      && log[k - 3] == SawMain(base) && log[k - 2] == SawHead(candidate) && log[k - 1] == SawClean
  }

  /** The log grew, but by no push of main. */
  ghost predicate Quiet(was: seq<Event>, now: seq<Event>) {
    was <= now && forall k :: |was| <= k < |now| ==> !now[k].PushedMain?
  }

  lemma QuietKeeps(was: seq<Event>, now: seq<Event>, from: nat, base: Commit, candidate: Commit)
    requires from <= |was| && Quiet(was, now) && AllGuarded(was, from, base, candidate)
    ensures AllGuarded(now, from, base, candidate) && Pushes(now, from) == Pushes(was, from)
  {
    var added := now[|was|..];
    assert now == was + added;
    forall e | e in added ensures !e.PushedMain? {
      var i :| 0 <= i < |added| && added[i] == e;
      assert now[|was| + i] == e;
    }
    PushesAdded(was, added, from);
    NoPushes(added);
  }

  lemma GuardedPush(log: seq<Event>, from: nat, base: Commit, candidate: Commit)
    requires from + 3 <= |log| && AllGuarded(log, from, base, candidate)
    requires log[|log| - 3..] == [SawMain(base), SawHead(candidate), SawClean]
    ensures AllGuarded(log + [PushedMain(candidate)], from, base, candidate)
    ensures Pushes(log + [PushedMain(candidate)], from) == Pushes(log, from) + 1
  {}

  lemma {:induction false} NoPushes(added: seq<Event>)
    requires forall e :: e in added ==> !e.PushedMain?
    ensures Pushes(added, 0) == 0
    decreases |added|
  {
    if added != [] {
      NoPushes(added[..|added| - 1]);
    }
  }

  /** A candidate with the single parent `base` cannot have been published while main still reads `base`. */
  lemma NotYetPublished(repo: Repo, base: Commit, candidate: Commit)
    requires repo.Valid() && repo.main == base && candidate.parents == [base]
    ensures candidate !in repo.past
  {
    ParentLighter(candidate, 0, 1);
    if candidate in repo.past {
      var i :| 0 <= i < |repo.past| && repo.past[i] == candidate;
      assert Ancestor(repo.past[i], repo.past[|repo.past| - 1]);
      assert Ancestor(base, candidate.parents[0]);
      AncestorAntisymmetric(base, candidate);
    }
  }

  lemma ParentIsNot(child: Commit, parent: Commit)
    requires child.parents == [parent]
    ensures child != parent
  {
    ParentLighter(child, 0, 1);
  }

  /** `require_unchanged`: HEAD is still the candidate and the worktree is clean. */
  method RequireUnchanged(repo: Repo, candidate: Commit) returns (e: Option<PushError>)
    requires repo.Valid()
    modifies repo`head, repo`clean, repo`log, repo`last
    ensures repo.Valid() && repo.Extends()
    ensures e.None? ==> repo.log == old(repo.log) + [SawHead(candidate), SawClean]
    ensures Quiet(old(repo.log), repo.log)
    ensures e.Some? ==> Local(e.value, candidate, repo)
  {
    var head := repo.ReadHead();
    if !head.Answer? { return Some(LocalIdentityUnreadable); }
    if head.value != candidate { return Some(CandidateChanged); }
    var status := repo.ReadStatus();
    if !status.Answer? { return Some(LocalIdentityUnreadable); }
    if !status.value { return Some(DirtyWorktree); }
    return None;
  }

  /** What an observation of main decides. */
  method CheckRemote(repo: Repo, seen: Commit, base: Commit, candidate: Commit)
    returns (done: bool, e: Option<PushError>)
    requires repo.Valid() && LastMain(repo) == Some(seen)
    modifies repo`head, repo`clean, repo`log, repo`last
    ensures repo.Valid() && repo.Extends()
    ensures e.None? && done ==> seen == candidate && repo.log == old(repo.log) + [SawHead(candidate), SawClean]
    ensures e.None? && !done ==> seen == base && repo.log == old(repo.log)
    ensures Quiet(old(repo.log), repo.log)
    ensures e.Some? ==> Final(e.value, base, candidate, repo)
  {
    if seen == candidate {
      var err := RequireUnchanged(repo, candidate);
      return true, err;
    }
    if seen != base { return false, Some(RemoteMainAdvanced); }
    return false, None;
  }

  /** `push_exact`. */
  method PushExactly(repo: Repo, base: Commit, candidate: Commit, attempts: int) returns (r: Result<nat, PushError>)
    requires repo.Valid()
    modifies repo
    ensures repo.Valid() && repo.Extends()
    // every push is guarded, carries the same commit, and there are at most `attempts`
    ensures AllGuarded(repo.log, |old(repo.log)|, base, candidate)
    ensures Pushes(repo.log, |old(repo.log)|) <= if 1 <= attempts <= 3 then attempts else 0
    ensures repo.sent <= old(repo.sent) + {candidate}
    // whatever main held before is still in its history, and the candidate lands only on its base
    ensures forall c :: c in old(repo.past) ==> Ancestor(c, repo.main)
    ensures candidate in repo.sent ==> forall i :: 0 < i < |repo.past| && repo.past[i] == candidate != repo.past[i - 1]
                                         ==> candidate.parents == [repo.past[i - 1]]
    // success: main was read as the candidate, last of all
    ensures r.Ok? ==> r.value == Pushes(repo.log, |old(repo.log)|) && candidate in repo.past
                      && |repo.log| >= |old(repo.log)| + 3
                      && repo.log[|repo.log| - 3..] == [SawMain(candidate), SawHead(candidate), SawClean]
    // nothing is sent unless the candidate is one in-scope commit on top of the base
    ensures Pushes(repo.log, |old(repo.log)|) > 0 ==>
              base != candidate && candidate.parents == [base]
              && ChangedPaths(base.tree, candidate.tree) != {}
              && forall p :: p in ChangedPaths(base.tree, candidate.tree) ==> p.InScope()
    // a refusal is for the reason it gives, and a transient outcome is tried again
    ensures r.Fail? ==> Justified(r.error, base, candidate, attempts, repo)
    ensures r.Fail? && Exhausted(r.error) ==> repo.asked >= old(repo.asked) + attempts
  {
    ghost var from := |repo.log|;
    assert Pushes(repo.log, from) == 0 && AllGuarded(repo.log, from, base, candidate);
    hide Pushes, AllGuarded, Quiet, Ancestor, ChangedPaths;
    if base == candidate { return Fail(InvalidExactIdentity); }
    if !(1 <= attempts <= 3) { return Fail(InvalidRetryBound); }
    var e := RequireCandidate(repo, base, candidate);
    QuietKeeps(old(repo.log), repo.log, from, base, candidate);
    if e.Some? { return Fail(e.value); }

    r := Tries(repo, base, candidate, attempts, from);
  }

  /** The bounded retry. */
  method Tries(repo: Repo, base: Commit, candidate: Commit, attempts: int, ghost from: nat) returns (r: Result<nat, PushError>)
    requires repo.Valid() && from <= |repo.log| && base != candidate && candidate.parents == [base]
    requires AllGuarded(repo.log, from, base, candidate) && Pushes(repo.log, from) == 0 && 1 <= attempts <= 3
    modifies repo
    ensures repo.Valid() && repo.Extends() && repo.sent <= old(repo.sent) + {candidate}
    ensures AllGuarded(repo.log, from, base, candidate) && Pushes(repo.log, from) <= attempts
    ensures r.Ok? ==> r.value == Pushes(repo.log, from) && candidate in repo.past
                      && |repo.log| >= from + 3
                      && repo.log[|repo.log| - 3..] == [SawMain(candidate), SawHead(candidate), SawClean]
    ensures r.Fail? ==> Justified(r.error, base, candidate, attempts, repo)
    ensures r.Fail? && Exhausted(r.error) ==> repo.asked >= old(repo.asked) + attempts
  {
    hide Pushes, AllGuarded, Quiet, Ancestor, Repo.Valid;
    var pushes: nat := 0;
    var lastError := TransportRetriesExhausted;
    var attempt := 0;
    while attempt < attempts
      invariant 0 <= attempt <= attempts <= 3
      invariant repo.Valid() && repo.Extends()
      invariant AllGuarded(repo.log, from, base, candidate)
      invariant pushes == Pushes(repo.log, from) <= attempt
      invariant repo.sent <= old(repo.sent) + {candidate}
      invariant repo.asked >= old(repo.asked) + attempt && (attempt > 0 ==> Unlucky(lastError, repo))
    {
      attempt := attempt + 1;
      var done, error, ok, outcome := Attempt(repo, base, candidate, from);
      pushes := pushes + outcome;
      if done { return Ok(pushes); }
      if error.Some? {
        FinalJustified(error.value, base, candidate, attempts, repo);
        return Fail(error.value);
      }
      lastError := ok;
    }
    return Fail(lastError);
  }

  /** What must hold of the candidate before the first attempt. */
  method RequireCandidate(repo: Repo, base: Commit, candidate: Commit) returns (e: Option<PushError>)
    requires repo.Valid()
    modifies repo`head, repo`clean, repo`log, repo`last
    ensures repo.Valid() && repo.Extends() && Quiet(old(repo.log), repo.log)
    ensures e.None? ==>
              candidate.parents == [base] && ChangedPaths(base.tree, candidate.tree) != {}
              && forall p :: p in ChangedPaths(base.tree, candidate.tree) ==> p.InScope()
    ensures e.Some? ==> !Exhausted(e.value) && !e.value.RemoteMainAdvanced?
                        && Justified(e.value, base, candidate, 1, repo)
  {
    hide Quiet, Ancestor;
    NothingChanged(base.tree, candidate.tree);
    e := RequireUnchanged(repo, candidate);
    if e.Some? { return; }
    if candidate.parents != [base] { return Some(NotSingleBaseChild); }
    var changed := ChangedPaths(base.tree, candidate.tree);
    if changed == {} || exists p :: p in changed && !p.InScope() { return Some(WriteScopeInvalid); }
  }

  /** Read main once and judge it; a transient failure decides nothing. */
  method Look(repo: Repo, base: Commit, candidate: Commit, unreadable: PushError)
    returns (seen: bool, done: bool, error: Option<PushError>)
    requires repo.Valid() && (unreadable.RemoteUnreadable? || unreadable.PushReadbackUnavailable?)
    modifies repo
    ensures repo.Valid() && repo.Extends() && repo.sent == old(repo.sent)
    ensures Quiet(old(repo.log), repo.log)
    ensures done ==> error.None? && candidate in repo.past && |repo.log| >= |old(repo.log)| + 3
                     && repo.log[|repo.log| - 3..] == [SawMain(candidate), SawHead(candidate), SawClean]
    ensures error.None? && seen && !done ==> repo.main == base && repo.log == old(repo.log) + [SawMain(base)]
    ensures repo.asked == old(repo.asked) + 1 && repo.acked == old(repo.acked)
    ensures error.None? && !done && !seen ==> repo.last.Transient?
    ensures error.Some? ==> Final(error.value, base, candidate, repo)
  {
    hide Repo.Valid;
    seen, done, error := false, false, None;
    var observed := repo.ReadMain();
    if observed.Transient? { return; }
    if observed.Malformed? { return false, false, Some(RemoteIdentityInvalid); }
    if observed.Permanent? { return false, false, Some(unreadable); }
    seen := true;
    done, error := CheckRemote(repo, observed.value, base, candidate);
    if error.Some? { done := false; }
  }

  /** The push itself: only with a fresh exact-base observation directly before it. */
  method PushGuarded(repo: Repo, base: Commit, candidate: Commit, ghost from: nat)
    returns (ack: Reply<()>, error: Option<PushError>)
    requires repo.Valid() && repo.main == base && candidate.parents == [base]
    requires from < |repo.log| && repo.log[|repo.log| - 1] == SawMain(base)
    requires AllGuarded(repo.log, from, base, candidate)
    modifies repo
    ensures repo.Valid() && repo.Extends() && repo.sent <= old(repo.sent) + {candidate}
    ensures AllGuarded(repo.log, from, base, candidate)
    ensures Pushes(repo.log, from) == Pushes(old(repo.log), from) + if error.None? then 1 else 0
    ensures repo.asked == old(repo.asked)
    ensures error.Some? ==> Local(error.value, candidate, repo)
    ensures error.None? ==> ack == repo.acked
  {
    hide AllGuarded, Pushes, Ancestor;
    NotYetPublished(repo, base, candidate);
    ack := Transient;
    error := RequireUnchanged(repo, candidate);
    QuietKeeps(old(repo.log), repo.log, from, base, candidate);
    if error.Some? { return; }
    ghost var mark := repo.log;
    ack := repo.PushMain(candidate);
    GuardedPush(mark, from, base, candidate);
  }

  /** One attempt: re-check the checkout, read main, push, read main back. */
  method Attempt(repo: Repo, base: Commit, candidate: Commit, ghost from: nat)
    returns (done: bool, error: Option<PushError>, lastError: PushError, pushes: nat)
    requires repo.Valid() && candidate.parents == [base]
    requires from <= |repo.log| && AllGuarded(repo.log, from, base, candidate)
    modifies repo
    ensures repo.Valid() && repo.Extends() && repo.sent <= old(repo.sent) + {candidate}
    ensures AllGuarded(repo.log, from, base, candidate)
    ensures pushes <= 1 && Pushes(repo.log, from) == Pushes(old(repo.log), from) + pushes
    ensures done ==> candidate in repo.past && |repo.log| >= |old(repo.log)| + 3
                     && repo.log[|repo.log| - 3..] == [SawMain(candidate), SawHead(candidate), SawClean]
    ensures error.None? ==> repo.asked > old(repo.asked) && (done || Unlucky(lastError, repo))
    ensures error.Some? ==> Final(error.value, base, candidate, repo)
  {
    hide AllGuarded, Pushes, Ancestor, Quiet, Repo.Valid;
    done, error, lastError, pushes := false, None, ReadRetriesExhausted, 0;
    error := RequireUnchanged(repo, candidate);
    QuietKeeps(old(repo.log), repo.log, from, base, candidate);
    if error.Some? { return; }

    ghost var mark := repo.log;
    var seen;
    seen, done, error := Look(repo, base, candidate, RemoteUnreadable);
    QuietKeeps(mark, repo.log, from, base, candidate);
    if error.Some? || done || !seen { return; }

    var ack;
    ack, error := PushGuarded(repo, base, candidate, from);
    if error.Some? { return; }
    pushes := 1;

    mark := repo.log;
    seen, done, error := Look(repo, base, candidate, PushReadbackUnavailable);
    QuietKeeps(mark, repo.log, from, base, candidate);
    if error.Some? || done { return; }
    if ack.Permanent? || ack.Malformed? {
      error := Some(PushRejected);
      return;
    }
    lastError := if ack.Answer? then ReadbackUnconfirmed else TransportRetriesExhausted;
  }
}
