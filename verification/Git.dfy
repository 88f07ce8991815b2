/** Commits, and a remote that this process shares with writers it does not
    control: main may advance between any two commands, an acknowledgement may be
    lost, and a push may be delivered long after its command returned. The remote
    accepts only fast-forward pushes to main and only creates tags. */
module Git {
  import opened Bars
  import SeriesStore
  import Rebase

  datatype Path = Budget | Report | Inventory | Series(symbol: string) | ArchiveOf(symbol: string)
                | Other(name: string, inStore: bool)
  {
    /** Under data/market-data/. */
    predicate InScope() { Other? ==> inStore }
  }

  datatype Minutes = Minutes(credits: int, byMinute: map<int, int>)

  /** What a manifest says of the run that wrote it; an absent field is empty. */
  datatype Header = Header(version: int, request: string, day: string, stage: string)

  datatype Output = Output(path: Path, blob: Blob)

  // Blob contents; equality stands for equality of blob names. A series directory is one entry.
  datatype Blob =
    | LedgerFile(state: Minutes, header: Header, outputs: seq<Output>)
    | ReportFile(status: string)
    | SeriesFile(disk: SeriesStore.Disk)
    | ArchiveFile(archive: Rebase.Archive)
    | Opaque(text: string)

  type Tree = map<Path, Blob>

  datatype Commit = Commit(parents: seq<Commit>, tree: Tree, nonce: nat)

  /** The paths on which two trees differ. */
  function ChangedPaths(a: Tree, b: Tree): set<Path> {
    set p | p in a.Keys + b.Keys && (p !in a || p !in b || a[p] != b[p])
  }

  predicate Ancestor(a: Commit, b: Commit) {
    a == b || exists i :: 0 <= i < |b.parents| && Ancestor(a, b.parents[i])
  }

  ghost function Weight(c: Commit): nat { 1 + WeightAll(c, |c.parents|) }

  ghost function WeightAll(c: Commit, n: nat): nat
    requires n <= |c.parents|
    decreases c, n
  {
    if n == 0 then 0 else WeightAll(c, n - 1) + 1 + WeightAll(c.parents[n - 1], |c.parents[n - 1].parents|)
  }

  lemma ParentLighter(c: Commit, i: nat, n: nat)
    requires i < n <= |c.parents|
    ensures Weight(c.parents[i]) <= WeightAll(c, n)
    decreases n
  {}

  lemma {:induction false} AncestorLighter(a: Commit, b: Commit)
    requires Ancestor(a, b)
    ensures a == b || Weight(a) < Weight(b)
    decreases b
  {
    if a != b {
      var i :| 0 <= i < |b.parents| && Ancestor(a, b.parents[i]);
      AncestorLighter(a, b.parents[i]);
      ParentLighter(b, i, |b.parents|);
    }
  }

  lemma {:induction false} AncestorTransitive(a: Commit, b: Commit, c: Commit)
    requires Ancestor(a, b) && Ancestor(b, c)
    ensures Ancestor(a, c)
    decreases c
  {
    if b != c {
      var i :| 0 <= i < |c.parents| && Ancestor(b, c.parents[i]);
      AncestorTransitive(a, b, c.parents[i]);
    }
  }

  lemma AncestorAntisymmetric(a: Commit, b: Commit)
    requires Ancestor(a, b) && Ancestor(b, a)
    ensures a == b
  {
    AncestorLighter(a, b);
    AncestorLighter(b, a);
  }

  /** A commit with one parent leaves no room between the two. */
  lemma NothingBetween(base: Commit, mid: Commit, candidate: Commit)
    requires candidate.parents == [base] && Ancestor(base, mid) && Ancestor(mid, candidate)
    ensures mid == base || mid == candidate
  {
    if mid != candidate {
      var i :| 0 <= i < |candidate.parents| && Ancestor(mid, candidate.parents[i]);
      AncestorAntisymmetric(base, mid);
    }
  }

  // ---------- what this process did and saw ----------

  datatype Event =
    | SawHead(head: Commit)
    | SawClean
    | SawMain(main: Commit)
    | SawTag(name: Commit, target: Option<Commit>)
    | PushedMain(candidate: Commit)
    | PushedTag(tagged: Commit)
    | Verified(commit: Commit)
    | Charged(at: int)
    | Debited(receipt: Commit, minute: int, at: int)
    | Requested(symbol: string, debit: Commit, at: int)
    | Answered(symbol: string, rows: seq<Bar>)
  {
    /** Reads and tag pushes: they change nothing on main. */
    predicate Neutral() { SawHead? || SawClean? || SawMain? || SawTag? || PushedTag? }
  }

  datatype Reply<+T> = Answer(value: T) | Malformed | Transient | Permanent
  {
    /** What became of the command, without the value read. */
    function Outcome(): Reply<()> {
      match this
      case Answer(_) => Answer(())
      case Malformed => Reply.Malformed
      case Transient => Transient
      case Permanent => Permanent
    }
  }

  class Repo {
    /** Whether other processes may change the checkout behind our back. */
    const tamper: bool
    var head: Commit
    var clean: bool

    var main: Commit
    var tags: map<Commit, Commit>
    /** Commits and tags this process has sent; any of them may still be delivered. */
    var sent: set<Commit>
    var sentTags: set<Commit>

    /** How often main or a tag was asked for, answered or not. */
    ghost var asked: nat
    /** What became of the last read, of checkout or remote, and of the last push. */
    ghost var last: Reply<()>
    ghost var acked: Reply<()>
    ghost var past: seq<Commit>
    ghost var log: seq<Event>

    /** Every value main ever had is an ancestor of every later one; everything we
        sent was built on a value main had; and what landed, landed on its parent. */
    ghost predicate Valid()
      reads this
    {
      && past != [] && past[|past| - 1] == main
      && (forall i, j :: 0 <= i <= j < |past| ==> Ancestor(past[i], past[j]))
      && (forall c :: c in sent ==> |c.parents| == 1 && c.parents[0] in past && PushedMain(c) in log)
      && (forall k :: 0 <= k < |log| && log[k].PushedMain? ==> log[k].candidate in sent)
      && (forall i :: 0 < i < |past| && past[i] in sent && past[i] != past[i - 1] ==> past[i].parents == [past[i - 1]])
    }

    /** What no step of anyone undoes: history is only extended, tags never move. */
    twostate predicate Extends()
      reads this
    {
      && old(past) <= past && old(log) <= log
      && old(sent) <= sent
      && (forall t :: t in old(tags) ==> t in tags && tags[t] == old(tags)[t])
    }

    constructor (main: Commit, head: Commit, tamper: bool)
      ensures Valid() && this.main == main && this.head == head && this.tamper == tamper
      ensures past == [main] && log == [] && sent == {} && tags == map[]
    {
      this.main, this.head, this.tamper, clean := main, head, tamper, true;
      tags, sent, sentTags := map[], {}, {};
      past, log := [main], [];
    }

    /** Main moves to `c`, a descendant. */
    method Advance(c: Commit)
      requires Valid() && Ancestor(main, c)
      requires c in sent ==> c == main || c.parents == [main]
      modifies this`main, this`past
      ensures Valid() && main == c && past == old(past) + [c]
    {
      forall i | 0 <= i < |past| ensures Ancestor(past[i], c) { AncestorTransitive(past[i], main, c); }
      main := c;
      past := past + [c];
    }

    /** A sent commit is delivered late, or again: it lands only on its parent. */
    method Deliver(c: Commit)
      requires Valid()
      modifies this`main, this`past
      ensures Valid() && Extends()
      ensures past == old(past) || past == old(past) + [c]
      ensures past != old(past) ==> c in sent
    {
      if c in sent && Ancestor(main, c) {
        var base := c.parents[0];
        assert Ancestor(base, main) by {
          var i :| 0 <= i < |past| && past[i] == base;
        }
        assert c.parents == [base];
        NothingBetween(base, main, c);
        Advance(c);
      }
    }

    /** Another writer pushes. It cannot have commits of ours that never reached main. */
    method OtherPush(c: Commit)
      requires Valid()
      modifies this`main, this`past
      ensures Valid() && Extends()
      ensures past == old(past) || past == old(past) + [c]
      ensures past != old(past) ==> c !in sent || c == old(main)
    {
      if Ancestor(main, c) && (forall o | o in sent :: Ancestor(o, c) ==> Ancestor(o, main)) {
        if c in sent {
          assert Ancestor(c, main);
          AncestorAntisymmetric(c, main);
        }
        Advance(c);
      }
    }

    /** Anything may happen between two commands of ours. */
    method Interleave()
      requires Valid()
      modifies this`main, this`past, this`tags
      ensures Valid() && Extends()
    {
      var steps: nat := *;
      while steps > 0
        invariant Valid() && Extends()
      {
        var what: nat := *;
        var c: Commit := *;
        var t: Commit := *;
        if what == 0 {
          OtherPush(c);
        } else if what == 1 {
          Deliver(c);
        } else if what == 2 && c !in tags {
          tags := tags[c := t];
        } else if what == 3 && c in sentTags && c !in tags {
          tags := tags[c := c];
        }
        steps := steps - 1;
      }
    }

    // ---------- commands ----------

    /** A step of this process that touches neither checkout nor remote, and observes neither. */
    method Note(e: Event)
      requires Valid() && (e.Verified? || e.Charged? || e.Debited? || e.Requested? || e.Answered?)
      modifies this`log
      ensures Valid() && Extends() && log == old(log) + [e]
    {
      log := log + [e];
    }

    /** Work in another checkout of the same repository. */
    method Switch(c: Commit)
      requires Valid()
      modifies this`head
      ensures Valid() && Extends() && head == c
    {
      head := c;
    }

    /** A local commit on top of HEAD. */
    method CommitTree(tree: Tree) returns (c: Commit)
      requires Valid()
      modifies this`head
      ensures Valid() && Extends() && head == c && c.parents == [old(head)] && c.tree == tree
    {
      var nonce: nat := *;
      c := Commit([head], tree, nonce);
      head := c;
    }

    method ReadHead() returns (r: Reply<Commit>)
      requires Valid()
      modifies this`head, this`log, this`last
      ensures last == r.Outcome() && !r.Malformed? && !r.Transient?
      ensures Valid() && Extends() && (!tamper ==> head == old(head))
      ensures r.Answer? ==> r.value == head && log == old(log) + [SawHead(r.value)]
      ensures !r.Answer? ==> log == old(log)
    {
      var moved: bool := *;
      if tamper && moved { head := *; }
      var readable: bool := *;
      if !readable {
        last := Permanent;
        return Permanent;
      }
      log := log + [SawHead(head)];
      last := Answer(());
      return Answer(head);
    }

    method ReadStatus() returns (r: Reply<bool>)
      requires Valid()
      modifies this`clean, this`log, this`last
      ensures last == r.Outcome() && !r.Malformed? && !r.Transient?
      ensures Valid() && Extends() && (!tamper ==> clean == old(clean))
      ensures r.Answer? ==> r.value == clean && log == old(log) + (if r.value then [SawClean] else [])
      ensures !r.Answer? ==> log == old(log)
    {
      var moved: bool := *;
      if tamper && moved { clean := *; }
      var readable: bool := *;
      if !readable {
        last := Permanent;
        return Permanent;
      }
      if clean { log := log + [SawClean]; }
      last := Answer(());
      return Answer(clean);
    }

    method ReadMain() returns (r: Reply<Commit>)
      requires Valid()
      modifies this`main, this`past, this`tags, this`log, this`asked, this`last
      ensures last == r.Outcome()
      ensures Valid() && Extends() && asked == old(asked) + 1
      ensures r.Answer? ==> r.value == main && log == old(log) + [SawMain(main)]
      ensures !r.Answer? ==> log == old(log)
    {
      hide Ancestor;
      asked := asked + 1;
      Interleave();
      var readable: bool := *;
      if !readable {
        r := *;
        if r.Answer? { r := Transient; }
        last := r.Outcome();
        return;
      }
      last := Answer(());
      log := log + [SawMain(main)];
      return Answer(main);
    }

    method ReadTag(name: Commit) returns (r: Reply<Option<Commit>>)
      requires Valid()
      modifies this`main, this`past, this`tags, this`log, this`asked, this`last
      ensures last == r.Outcome()
      ensures Valid() && Extends() && asked == old(asked) + 1
      ensures r.Answer? ==> r.value == (if name in tags then Some(tags[name]) else None)
                            && log == old(log) + [SawTag(name, r.value)]
      ensures !r.Answer? ==> log == old(log)
    {
      hide Ancestor;
      asked := asked + 1;
      Interleave();
      var readable: bool := *;
      if !readable {
        r := *;
        if r.Answer? { r := Transient; }
        last := r.Outcome();
        return;
      }
      last := Answer(());
      var target := if name in tags then Some(tags[name]) else None;
      log := log + [SawTag(name, target)];
      return Answer(target);
    }

    /** A plain push, never forced: it may land now, later or never, and the
        acknowledgement says nothing certain. */
    method PushMain(c: Commit) returns (ack: Reply<()>)
      requires Valid() && |c.parents| == 1 && c.parents[0] in past
      requires c in past ==> c in sent
      modifies this`main, this`past, this`tags, this`sent, this`log, this`acked
      ensures acked == ack
      ensures Valid() && Extends()
      ensures log == old(log) + [PushedMain(c)] && sent == old(sent) + {c}
    {
      hide Ancestor;
      sent := sent + {c};
      log := log + [PushedMain(c)];
      Interleave();
      ack := *;
      acked := ack;
    }

    method PushTag(c: Commit) returns (ack: Reply<()>)
      requires Valid()
      modifies this`main, this`past, this`tags, this`sentTags, this`log, this`acked
      ensures acked == ack
      ensures Valid() && Extends()
      ensures log == old(log) + [PushedTag(c)]
    {
      hide Ancestor;
      sentTags := sentTags + {c};
      log := log + [PushedTag(c)];
      Interleave();
      ack := *;
      acked := ack;
    }
  }
}
