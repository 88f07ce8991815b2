/** Verifying a publication: exact reads of main, the declared outputs, and a
    retention tag that is created once and never retargeted. */
module Retention {
  import opened Bars
  import opened Git

  datatype VerifyError =
    | LocalGitFailed | Deadline | RemoteReadRejected | RemoteReadExhausted | CandidateChanged | RemoteMainChanged
    | TagTaken | TagPushRejected | TagReadbackUnconfirmed | HeadMismatch | MainMismatch | FetchFailed | FetchMismatch
    | OutOfScope | OutputsMissing

  const REMOTE_ATTEMPTS := 3

  /** What a failure says of the commit, and of what was seen or answered last. Running out
      of time and a failed fetch stand for themselves. */
  ghost predicate Caused(e: VerifyError, commit: Commit, manifest: Option<Path>, from: nat, repo: Repo)
    reads repo
  {
    match e
    case LocalGitFailed => repo.last.Permanent?
    case RemoteReadRejected => repo.last.Permanent? || repo.last.Malformed?
    case RemoteReadExhausted => repo.last.Transient?
    case CandidateChanged => SawOtherHead(repo.log, commit)
    case HeadMismatch => SawOtherHead(repo.log, commit)
    case RemoteMainChanged => SawOtherMain(repo.log, commit)
    case MainMismatch => SawOtherMain(repo.log, commit)
    case TagTaken => Taken(repo.log, commit)
    case TagPushRejected => repo.acked.Permanent? || repo.acked.Malformed?
    case TagReadbackUnconfirmed => TagPushes(repo.log, from) == REMOTE_ATTEMPTS
    case OutOfScope =>
      |commit.parents| == 1 && exists p :: p in ChangedPaths(commit.parents[0].tree, commit.tree) && !p.InScope()
    case OutputsMissing => manifest.Some? && VerifiedOutputs(commit.tree, manifest.value).None?
    case _ => true
  }

  /** The tag was last read on another commit. */
  ghost predicate Taken(log: seq<Event>, commit: Commit) {
    log != [] && log[|log| - 1].SawTag? && log[|log| - 1].name == commit
    && log[|log| - 1].target.Some? && log[|log| - 1].target.value != commit
  }

  /** A remote read failed, or there was no time for it. */
  ghost predicate Unread(e: VerifyError, repo: Repo)
    reads repo
  {
    e.Deadline? || (e.RemoteReadRejected? && (repo.last.Permanent? || repo.last.Malformed?))
    || (e.RemoteReadExhausted? && repo.last.Transient?)
  }

  ghost predicate SawOtherHead(log: seq<Event>, commit: Commit) {
    log != [] && log[|log| - 1].SawHead? && log[|log| - 1].head != commit
  }

  ghost predicate SawOtherMain(log: seq<Event>, commit: Commit) {
    log != [] && log[|log| - 1].SawMain? && log[|log| - 1].main != commit
  }

  /** The observations that must stand before a tag push: main read as the commit,
      the tag read as absent, HEAD still the commit. */
  ghost predicate TagsGuarded(log: seq<Event>, from: nat, commit: Commit) {
    forall k :: from <= k < |log| && log[k].PushedTag? ==>
      && k - 3 >= from && log[k] == PushedTag(commit)
      && log[k - 3] == SawMain(commit) && log[k - 2] == SawTag(commit, None) && log[k - 1] == SawHead(commit)
  }

  function TagPushes(log: seq<Event>, from: nat): (n: nat) {
    if |log| <= from then 0
    else TagPushes(log[..|log| - 1], from) + if log[|log| - 1].PushedTag? then 1 else 0
  }

  /** The log grew by reads alone. */
  ghost predicate ReadOnly(was: seq<Event>, now: seq<Event>) {
    was <= now && forall k :: |was| <= k < |now| ==> now[k].Neutral() && !now[k].PushedTag?
  }

  lemma {:induction false} ReadOnlyKeeps(was: seq<Event>, now: seq<Event>, from: nat, commit: Commit)
    requires from <= |was| && ReadOnly(was, now) && TagsGuarded(was, from, commit)
    ensures TagsGuarded(now, from, commit) && TagPushes(now, from) == TagPushes(was, from)
    decreases |now| - |was|
  {
    if |now| == |was| {
      assert now == was;
    } else {
      var init := now[..|now| - 1];
      assert ReadOnly(was, init);
      ReadOnlyKeeps(was, init, from, commit);
    }
  }

  lemma GuardedTagPush(log: seq<Event>, from: nat, commit: Commit)
    requires from + 3 <= |log| && TagsGuarded(log, from, commit)
    requires log[|log| - 3..] == [SawMain(commit), SawTag(commit, None), SawHead(commit)]
    ensures TagsGuarded(log + [PushedTag(commit)], from, commit)
    ensures TagPushes(log + [PushedTag(commit)], from) == TagPushes(log, from) + 1
  {}

  /** `_PublicationTransport.read` of main: up to three tries, each may also run out of time. */
  method TransportMain(repo: Repo) returns (r: Result<Commit, VerifyError>)
    requires repo.Valid()
    modifies repo
    ensures repo.Valid() && repo.Extends() && repo.sent == old(repo.sent)
    ensures r.Ok? ==> r.value == repo.main && repo.log == old(repo.log) + [SawMain(r.value)]
    ensures r.Fail? ==> repo.log == old(repo.log) && Unread(r.error, repo)
    ensures repo.head == old(repo.head) && repo.clean == old(repo.clean)
    ensures repo.asked <= old(repo.asked) + REMOTE_ATTEMPTS && repo.acked == old(repo.acked)
  {
    var attempt := 0;
    while attempt < REMOTE_ATTEMPTS
      invariant 0 <= attempt <= REMOTE_ATTEMPTS && repo.Valid() && repo.Extends()
      invariant repo.asked == old(repo.asked) + attempt && repo.log == old(repo.log) && repo.sent == old(repo.sent)
      invariant repo.head == old(repo.head) && repo.clean == old(repo.clean)
      invariant (attempt > 0 ==> repo.last.Transient?) && repo.acked == old(repo.acked)
    {
      var late: bool := *;
      if late { return Fail(Deadline); }
      var reply := repo.ReadMain();
      if reply.Answer? { return Ok(reply.value); }
      if !reply.Transient? { return Fail(RemoteReadRejected); }
      attempt := attempt + 1;
    }
    return Fail(RemoteReadExhausted);
  }

  /** The same for the retention tag; a tag on another commit is a failure. */
  method TransportTag(repo: Repo, commit: Commit) returns (r: Result<Option<Commit>, VerifyError>)
    requires repo.Valid()
    modifies repo
    ensures repo.Valid() && repo.Extends() && repo.sent == old(repo.sent) && ReadOnly(old(repo.log), repo.log)
    ensures r.Ok? ==> repo.log == old(repo.log) + [SawTag(commit, r.value)]
    ensures r.Fail? ==> Unread(r.error, repo) || (r.error.TagTaken? && Taken(repo.log, commit))
    ensures r.Ok? && r.value.Some? ==> r.value.value == commit && commit in repo.tags && repo.tags[commit] == commit
    ensures repo.head == old(repo.head) && repo.clean == old(repo.clean)
    ensures repo.asked <= old(repo.asked) + REMOTE_ATTEMPTS && repo.acked == old(repo.acked)
  {
    var attempt := 0;
    while attempt < REMOTE_ATTEMPTS
      invariant 0 <= attempt <= REMOTE_ATTEMPTS && repo.Valid() && repo.Extends()
      invariant repo.asked == old(repo.asked) + attempt && repo.log == old(repo.log) && repo.sent == old(repo.sent)
      invariant repo.head == old(repo.head) && repo.clean == old(repo.clean)
      invariant (attempt > 0 ==> repo.last.Transient?) && repo.acked == old(repo.acked)
    {
      var late: bool := *;
      if late { return Fail(Deadline); }
      var reply := repo.ReadTag(commit);
      if reply.Answer? {
        if reply.value.Some? && reply.value.value != commit { return Fail(TagTaken); }
        return Ok(reply.value);
      }
      if !reply.Transient? { return Fail(RemoteReadRejected); }
      attempt := attempt + 1;
    }
    return Fail(RemoteReadExhausted);
  }

  /** HEAD or main is not the commit, or could not be read. */
  ghost predicate NotThere(e: VerifyError, commit: Commit, repo: Repo)
    reads repo
  {
    Unread(e, repo) || (e.LocalGitFailed? && repo.last.Permanent?)
    || (e.CandidateChanged? && SawOtherHead(repo.log, commit)) || (e.RemoteMainChanged? && SawOtherMain(repo.log, commit))
  }

  lemma NotThereCaused(e: VerifyError, commit: Commit, manifest: Option<Path>, from: nat, repo: Repo)
    requires NotThere(e, commit, repo)
    ensures Caused(e, commit, manifest, from, repo)
    ensures e.CandidateChanged? ==> Caused(HeadMismatch, commit, manifest, from, repo)
    ensures e.RemoteMainChanged? ==> Caused(MainMismatch, commit, manifest, from, repo)
  {}

  /** `require_identity`: HEAD, then main, both exactly the commit. */
  method RequireIdentity(repo: Repo, commit: Commit) returns (e: Option<VerifyError>)
    requires repo.Valid()
    modifies repo
    ensures repo.Valid() && repo.Extends() && repo.sent == old(repo.sent) && ReadOnly(old(repo.log), repo.log)
    ensures e.None? ==> repo.log == old(repo.log) + [SawHead(commit), SawMain(commit)] && repo.main == commit
    ensures repo.acked == old(repo.acked) && (e.Some? ==> NotThere(e.value, commit, repo))
    ensures !repo.tamper ==> repo.head == old(repo.head) && repo.clean == old(repo.clean)
  {
    var head := repo.ReadHead();
    if !head.Answer? { return Some(LocalGitFailed); }
    if head.value != commit { return Some(CandidateChanged); }
    var main := TransportMain(repo);
    if main.Fail? { return Some(main.error); }
    if main.value != commit { return Some(RemoteMainChanged); }
    return None;
  }

  /** `_ensure_retention_ref`. */
  method EnsureRetentionRef(repo: Repo, commit: Commit) returns (e: Option<VerifyError>)
    requires repo.Valid()
    modifies repo
    ensures repo.Valid() && repo.Extends() && repo.sent == old(repo.sent)
    // each tag push directly follows reads of main equal to the commit and of the tag absent
    ensures TagsGuarded(repo.log, |old(repo.log)|, commit)
    ensures TagPushes(repo.log, |old(repo.log)|) <= REMOTE_ATTEMPTS
    ensures forall k :: |old(repo.log)| <= k < |repo.log| ==> repo.log[k].Neutral()
    // a normal return means the tag, then HEAD and main, were all read as the commit
    ensures e.None? ==> commit in repo.tags && repo.tags[commit] == commit && commit in repo.past
                        && |repo.log| >= |old(repo.log)| + 3
                        && repo.log[|repo.log| - 3..] == [SawTag(commit, Some(commit)), SawHead(commit), SawMain(commit)]
    // a failure has the cause it names
    ensures e.Some? ==> Caused(e.value, commit, None, |old(repo.log)|, repo)
    ensures !repo.tamper ==> repo.head == old(repo.head) && repo.clean == old(repo.clean)
  {
    ghost var from := |repo.log|;
    hide Ancestor, Repo.Valid;
    var attempt := 0;
    while attempt < REMOTE_ATTEMPTS
      invariant 0 <= attempt <= REMOTE_ATTEMPTS && repo.Valid() && repo.Extends() && repo.sent == old(repo.sent)
      invariant TagsGuarded(repo.log, from, commit) && TagPushes(repo.log, from) == attempt
      invariant forall k :: from <= k < |repo.log| ==> repo.log[k].Neutral()
      invariant !repo.tamper ==> repo.head == old(repo.head) && repo.clean == old(repo.clean)
    {
      var late: bool := *;
      if late { return Some(Deadline); }
      var done;
      done, e := TagAttempt(repo, commit, from);
      if done || e.Some? { return e; }
      attempt := attempt + 1;
    }
    return Some(TagReadbackUnconfirmed);
  }

  method TagAttempt(repo: Repo, commit: Commit, ghost from: nat) returns (done: bool, e: Option<VerifyError>)
    requires repo.Valid() && from <= |repo.log| && TagsGuarded(repo.log, from, commit)
    requires forall k :: from <= k < |repo.log| ==> repo.log[k].Neutral()
    modifies repo
    ensures repo.Valid() && repo.Extends() && repo.sent == old(repo.sent)
    ensures TagsGuarded(repo.log, from, commit)
    ensures TagPushes(repo.log, from) <= TagPushes(old(repo.log), from) + 1
    ensures !done && e.None? ==> TagPushes(repo.log, from) == TagPushes(old(repo.log), from) + 1
    ensures e.Some? ==> Caused(e.value, commit, None, from, repo)
    ensures forall k :: from <= k < |repo.log| ==> repo.log[k].Neutral()
    ensures done && e.None? ==>
              commit in repo.tags && repo.tags[commit] == commit && commit in repo.past
              && |repo.log| >= |old(repo.log)| + 3
              && repo.log[|repo.log| - 3..] == [SawTag(commit, Some(commit)), SawHead(commit), SawMain(commit)]
    ensures !repo.tamper ==> repo.head == old(repo.head) && repo.clean == old(repo.clean)
  {
    hide TagsGuarded, TagPushes, Ancestor, ReadOnly, Repo.Valid, NotThere, Taken, SawOtherHead, SawOtherMain;
    done := false;
    e := RequireIdentity(repo, commit);
    ReadOnlyKeeps(old(repo.log), repo.log, from, commit);
    ReadOnlyMeans(old(repo.log), repo.log);
    if e.Some? {
      NotThereCaused(e.value, commit, None, from, repo);
      return;
    }
    ghost var mark := repo.log;
    done, e := ConfirmTag(repo, commit);
    ReadOnlyKeeps(mark, repo.log, from, commit);
    ReadOnlyMeans(mark, repo.log);
    if e.Some? { UnconfirmedCaused(e.value, commit, from, repo); }
    if done || e.Some? { return; }

    // Push only after these fresh exact main and tag-absence observations.
    mark := repo.log;
    var ack;
    ack, e := PushTagGuarded(repo, commit, from);
    if e.Some? { return; }
    mark := repo.log;
    done, e := ConfirmTag(repo, commit);
    ReadOnlyKeeps(mark, repo.log, from, commit);
    ReadOnlyMeans(mark, repo.log);
    if e.Some? { UnconfirmedCaused(e.value, commit, from, repo); }
    if done || e.Some? { return; }
    if ack.Permanent? || ack.Malformed? { e := Some(TagPushRejected); }
  }

  lemma UnconfirmedCaused(e: VerifyError, commit: Commit, from: nat, repo: Repo)
    requires NotThere(e, commit, repo) || (e.TagTaken? && Taken(repo.log, commit))
    ensures Caused(e, commit, None, from, repo)
  {}

  lemma ReadOnlyMeans(was: seq<Event>, now: seq<Event>)
    requires ReadOnly(was, now)
    ensures was <= now && forall k :: |was| <= k < |now| ==> now[k].Neutral()
  {}

  method PushTagGuarded(repo: Repo, commit: Commit, ghost from: nat) returns (ack: Reply<()>, e: Option<VerifyError>)
    requires repo.Valid() && from + 2 <= |repo.log| && TagsGuarded(repo.log, from, commit)
    requires repo.log[|repo.log| - 2..] == [SawMain(commit), SawTag(commit, None)]
    modifies repo
    ensures repo.Valid() && repo.Extends() && repo.sent == old(repo.sent)
    ensures TagsGuarded(repo.log, from, commit)
    ensures TagPushes(repo.log, from) == TagPushes(old(repo.log), from) + if e.None? then 1 else 0
    ensures e.Some? ==> Caused(e.value, commit, None, from, repo)
    ensures e.None? ==> repo.acked == ack
    ensures forall k :: |old(repo.log)| <= k < |repo.log| ==> repo.log[k].Neutral()
    ensures !repo.tamper ==> repo.head == old(repo.head) && repo.clean == old(repo.clean)
  {
    hide TagsGuarded, TagPushes, Ancestor;
    ack := Transient;
    var head := repo.ReadHead();
    ReadOnlyKeeps(old(repo.log), repo.log, from, commit);
    if !head.Answer? { return ack, Some(LocalGitFailed); }
    if head.value != commit { return ack, Some(CandidateChanged); }
    ghost var mark := repo.log;
    ack := repo.PushTag(commit);
    GuardedTagPush(mark, from, commit);
    e := None;
  }

  /** Read the tag; if it is in place, confirm HEAD and main once more. */
  method ConfirmTag(repo: Repo, commit: Commit) returns (done: bool, e: Option<VerifyError>)
    requires repo.Valid()
    modifies repo
    ensures repo.Valid() && repo.Extends() && repo.sent == old(repo.sent) && ReadOnly(old(repo.log), repo.log)
    ensures !done && e.None? ==> repo.log == old(repo.log) + [SawTag(commit, None)]
    ensures e.Some? ==> NotThere(e.value, commit, repo) || (e.value.TagTaken? && Taken(repo.log, commit))
    ensures repo.acked == old(repo.acked)
    ensures done && e.None? ==>
              commit in repo.tags && repo.tags[commit] == commit && commit in repo.past
              && repo.log == old(repo.log) + [SawTag(commit, Some(commit)), SawHead(commit), SawMain(commit)]
    ensures !repo.tamper ==> repo.head == old(repo.head) && repo.clean == old(repo.clean)
  {
    var tag := TransportTag(repo, commit);
    if tag.Fail? { return false, Some(tag.error); }
    if tag.value.None? { return false, None; }
    e := RequireIdentity(repo, commit);
    return true, e;
  }

  // ---------- the whole verification ----------

  /** It names version, request, day and stage. */
  predicate Complete(header: Header) {
    header.version == 1 && header.request != "" && header.day != "" && header.stage != ""
  }

  /** The declared outputs a manifest lists, if it names its run and each is in the tree under its blob. */
  function VerifiedOutputs(tree: Tree, manifest: Path): Option<seq<Output>> {
    if manifest !in tree || !tree[manifest].LedgerFile? || !Complete(tree[manifest].header) then None
    else
      var outputs := tree[manifest].outputs;
      if outputs == [] || (exists i, j :: 0 <= i < j < |outputs| && outputs[i].path == outputs[j].path)
         || (exists o :: o in outputs && (o.path !in tree || tree[o.path] != o.blob))
      then None
      else Some(outputs)
  }

  /** Exactly when a manifest's outputs are verified, and then they are the ones it lists. */
  lemma OutputsMeaning(tree: Tree, manifest: Path, outputs: seq<Output>)
    ensures VerifiedOutputs(tree, manifest) == Some(outputs) <==>
              && manifest in tree && tree[manifest].LedgerFile? && tree[manifest].outputs == outputs
              && tree[manifest].header.version == 1 && outputs != []
              && tree[manifest].header.request != "" && tree[manifest].header.day != "" && tree[manifest].header.stage != ""
              && (forall i :: 0 <= i < |outputs| ==> outputs[i].path in tree && tree[outputs[i].path] == outputs[i].blob)
              && (forall i, j :: 0 <= i < j < |outputs| ==> outputs[i].path != outputs[j].path)
  {
    forall o | o in outputs ensures exists i :: 0 <= i < |outputs| && outputs[i] == o {}
    forall i | 0 <= i < |outputs| ensures outputs[i] in outputs {}
  }

  /** `_changed_paths`: what a commit changes against its one parent lies in the Store.
      Git lists nothing for a commit with several parents or none. */
  predicate StoreOnly(c: Commit) {
    |c.parents| == 1 ==> forall p :: p in ChangedPaths(c.parents[0].tree, c.tree) ==> p.InScope()
  }

  /** `verify_publication`: exact main, the same object fetched, main again, the
      scope, the declared outputs, then the retention tag. */
  method VerifyPublication(repo: Repo, commit: Commit, manifest: Option<Path>) returns (r: Result<seq<Output>, VerifyError>)
    requires repo.Valid()
    modifies repo
    ensures repo.Valid() && repo.Extends() && repo.sent == old(repo.sent)
    ensures TagsGuarded(repo.log, |old(repo.log)|, commit)
    ensures TagPushes(repo.log, |old(repo.log)|) <= REMOTE_ATTEMPTS
    ensures forall k :: |old(repo.log)| <= k < |repo.log| ==> repo.log[k].Neutral()
    ensures r.Ok? ==> commit in repo.past && commit in repo.tags && repo.tags[commit] == commit
                      && |repo.log| >= |old(repo.log)| + 3
                      && repo.log[|repo.log| - 3..] == [SawTag(commit, Some(commit)), SawHead(commit), SawMain(commit)]
    ensures r.Ok? ==> StoreOnly(commit)
    ensures r.Ok? && manifest.Some? ==> VerifiedOutputs(commit.tree, manifest.value) == Some(r.value)
    ensures r.Fail? ==> Caused(r.error, commit, manifest, |old(repo.log)|, repo)
    ensures !repo.tamper ==> repo.head == old(repo.head) && repo.clean == old(repo.clean)
  {
    hide TagsGuarded, TagPushes, Ancestor, ReadOnly, Repo.Valid, VerifiedOutputs, StoreOnly;
    ghost var was := repo.log;
    var e, outputs := CheckContent(repo, commit, manifest);
    ghost var mark := repo.log;
    NothingTagged(was, mark, commit);
    if e.Some? { return Fail(e.value); }
    e := EnsureRetentionRef(repo, commit);
    TaggedAfterReads(was, mark, repo.log, commit);
    if e.Some? {
      CausedLater(e.value, commit, manifest, |mark|, |was|, repo);
      return Fail(e.value);
    }
    var late: bool := *;
    if late { return Fail(Deadline); }
    return Ok(outputs);
  }

  lemma CausedLater(e: VerifyError, commit: Commit, manifest: Option<Path>, mark: nat, from: nat, repo: Repo)
    requires Caused(e, commit, None, mark, repo) && TagPushes(repo.log, from) == TagPushes(repo.log, mark)
    ensures Caused(e, commit, manifest, from, repo)
  {}

  lemma NothingTagged(was: seq<Event>, now: seq<Event>, commit: Commit)
    requires ReadOnly(was, now)
    ensures TagsGuarded(now, |was|, commit) && TagPushes(now, |was|) == 0
    ensures was <= now && forall k :: |was| <= k < |now| ==> now[k].Neutral()
  {
    ReadOnlyKeeps(was, now, |was|, commit);
  }

  lemma TaggedAfterReads(was: seq<Event>, mark: seq<Event>, now: seq<Event>, commit: Commit)
    requires ReadOnly(was, mark) && mark <= now && TagsGuarded(now, |mark|, commit)
    requires forall k :: |mark| <= k < |now| ==> now[k].Neutral()
    ensures TagsGuarded(now, |was|, commit) && TagPushes(now, |was|) == TagPushes(now, |mark|)
    ensures forall k :: |was| <= k < |now| ==> now[k].Neutral()
  {
    NothingTagged(was, mark, commit);
    hide TagsGuarded, TagPushes;
    TagsGuardedJoin(mark, now, |was|, commit);
  }

  /** The read-only part: main, the fetched object, main again, the scope, and the declared outputs. */
  method CheckContent(repo: Repo, commit: Commit, manifest: Option<Path>)
    returns (e: Option<VerifyError>, outputs: seq<Output>)
    requires repo.Valid()
    modifies repo
    ensures repo.Valid() && repo.Extends() && repo.sent == old(repo.sent) && ReadOnly(old(repo.log), repo.log)
    ensures e.None? ==> StoreOnly(commit)
    ensures e.None? && manifest.Some? ==> VerifiedOutputs(commit.tree, manifest.value) == Some(outputs)
    ensures e.Some? ==> Caused(e.value, commit, manifest, |old(repo.log)|, repo)
    ensures !repo.tamper ==> repo.head == old(repo.head) && repo.clean == old(repo.clean)
  {
    hide Ancestor, Repo.Valid, VerifiedOutputs, NotThere;
    outputs := [];
    e := RequireIdentity(repo, commit);
    if e.Some? {
      NotThereCaused(e.value, commit, manifest, |old(repo.log)|, repo);
      e := Some(if e.value == CandidateChanged then HeadMismatch
                else if e.value == RemoteMainChanged then MainMismatch else e.value);
      return;
    }
    var fetched: bool := *;
    if !fetched { return Some(FetchFailed), []; }
    var same: bool := *;
    if !same { return Some(FetchMismatch), []; }
    e := RequireIdentity(repo, commit);
    if e.Some? {
      NotThereCaused(e.value, commit, manifest, |old(repo.log)|, repo);
      return;
    }
    if !StoreOnly(commit) { return Some(OutOfScope), []; }
    if manifest.Some? {
      var listed := VerifiedOutputs(commit.tree, manifest.value);
      if listed.None? { return Some(OutputsMissing), []; }
      outputs := listed.value;
    }
  }

  lemma {:induction false} TagsGuardedJoin(was: seq<Event>, now: seq<Event>, from: nat, commit: Commit)
    requires from <= |was| && was <= now && TagsGuarded(was, from, commit) && TagsGuarded(now, |was|, commit)
    ensures TagsGuarded(now, from, commit)
    ensures TagPushes(now, from) == TagPushes(was, from) + TagPushes(now, |was|)
    decreases |now| - |was|
  {
    if |now| == |was| {
      assert now == was;
    } else {
      var init := now[..|now| - 1];
      TagsGuardedJoin(was, init, from, commit);
    }
  }
}
