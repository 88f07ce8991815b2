/** Whole histories of a series: any sequence of appends, verified extensions and audited
    rebases on one directory, completed, or refused or interrupted with the series still readable. */
module Runs {
  import opened Bars
  import opened Shards
  import opened SeriesStore
  import opened StoreLaws
  import opened Rebase
  import opened Extension

  datatype Op =
    | AppendOp(identity: Identity, raw: seq<RawBar>, limits: Limits, kind: Option<string>)
    | ExtendOp(fetched: seq<Bar>)
    | RebaseOp(replacement: seq<Bar>, limit: int)
    | Stopped(what: Op)

  /** A verified extension of `before` that gets as far as writing. */
  ghost predicate CanExtend(size: Doc -> nat, before: Disk, fetched: seq<Bar>) {
    before.index.Some? && ReadDisk(size, before).Ok? && MergedBaseline(ReadDisk(size, before).value, fetched).Ok?
    && var ix, m := before.index.value, MergedBaseline(ReadDisk(size, before).value, fetched).value;
    m.rows != [] && Packer(size, Effective(ix.limits)).Pack(ix.identity.Series(), 0, m.rows).complete
  }

  ghost predicate CanRebase(size: Doc -> nat, tail: int, before: Disk, replacement: seq<Bar>, limit: int) {
    before.index.Some? && ReadDisk(size, before).Ok?
    && Validated(ReadDisk(size, before).value, replacement, limit, tail).Ok?
    && var ix, rows := before.index.value, SortByDay(replacement);
    rows != [] && Packer(size, Effective(ix.limits)).Pack(ix.identity.Series(), 0, rows).complete
  }

  /** The durable states an operation passes through before its index write; a refused
      append ends in the last of them. */
  ghost function Midway(size: Doc -> nat, tail: int, before: Disk, op: Op): seq<Disk> {
    match op
    case AppendOp(identity, raw, limits, _) =>
      var plan := PlanAppend(size, before, identity, raw, limits);
      if plan.Write? && plan.newRows != [] then
        Steps(before, Shape(Packer(size, limits), plan.index, before.files, plan.newRows).puts)
      else []
    case ExtendOp(fetched) =>
      if CanExtend(size, before, fetched) then
        var ix, m := before.index.value, MergedBaseline(ReadDisk(size, before).value, fetched).value;
        RewriteSteps(before, ix, Packer(size, Effective(ix.limits)).Pack(ix.identity.Series(), 0, m.rows).docs)
      else []
    case RebaseOp(replacement, limit) =>
      if CanRebase(size, tail, before, replacement, limit) then
        var ix := before.index.value;
        RewriteSteps(before, ix, Packer(size, Effective(ix.limits)).Pack(ix.identity.Series(), 0, SortByDay(replacement)).docs)
      else []
    case Stopped(_) => []
  }

  /** `after` is the disk `op` leaves on `before`. An append packs by the limits its caller
      passes, the rewriting writers by those of the index. A stopped operation leaves any
      of its states that a reader still accepts. */
  ghost predicate Does(size: Doc -> nat, tail: int, before: Disk, op: Op, after: Disk) {
    match op
    case AppendOp(identity, raw, limits, kind) =>
      var p, plan := Packer(size, limits), PlanAppend(size, before, identity, raw, limits);
      plan.Write? && plan.newRows != [] && Shape(p, plan.index, before.files, plan.newRows).complete
      && after == AfterAppend(p, before, plan, kind)
    case ExtendOp(fetched) =>
      CanExtend(size, before, fetched)
      && var ix, m := before.index.value, MergedBaseline(ReadDisk(size, before).value, fetched).value;
      after == Rewritten(Packer(size, Effective(ix.limits)), before, ix, m.rows, ExtendedLineage(ix.lineage, m))
    case RebaseOp(replacement, limit) =>
      CanRebase(size, tail, before, replacement, limit)
      && var ix, rows := before.index.value, SortByDay(replacement);
      after == Rewritten(Packer(size, Effective(ix.limits)), before, ix, rows, [Segment("rebase", 0, |rows| - 1)])
    case Stopped(what) =>
      after in Midway(size, tail, before, what) && (after.index.Some? ==> ReadDisk(size, after).Ok?)
  }

  /** A run: disk after disk, each left by the operation before it. */
  ghost predicate Run(size: Doc -> nat, tail: int, ops: seq<Op>, disks: seq<Disk>) {
    |disks| == |ops| + 1 && forall i :: 0 <= i < |ops| ==> Does(size, tail, disks[i], ops[i], disks[i + 1])
  }

  /** The rows a disk holds; none before the first append. */
  ghost function RowsOf(size: Doc -> nat, disk: Disk): seq<Bar> {
    if disk.index.Some? && ReadDisk(size, disk).Ok? then ReadDisk(size, disk).value else []
  }

  /** What every disk of a run satisfies: nothing yet, or a stored series. */
  ghost predicate Good(size: Doc -> nat, disk: Disk) {
    disk.index.None? || exists docs :: Stored(size, disk, docs)
  }

  /** The lineage segments tile the positions of the series. */
  ghost predicate Traced(size: Doc -> nat, disk: Disk) {
    disk.index.Some? ==> Tiles(disk.index.value.lineage, 0, |RowsOf(size, disk)|)
  }

  /** The operation records what it added. */
  predicate CarriesLineage(op: Op) { op.AppendOp? ==> op.kind.Some? }

  /** A row with at least max(1, tail) later rows. */
  ghost predicate SettledRow(rows: seq<Bar>, tail: int, b: Bar) {
    exists i :: 0 <= i < Settled(|rows|, tail) && rows[i] == b
  }

  /** What one list must keep of an earlier one. */
  ghost predicate Keeps(was: seq<Bar>, now: seq<Bar>, tail: int) {
    && Days(was) <= Days(now)
    && (forall b :: SettledRow(was, tail, b) ==> SettledRow(now, tail, b))
  }

  // ---------- counting later rows ----------

  /** If no date is lost, no row loses later rows. */
  lemma {:induction false} LaterRows(a: seq<Bar>, b: seq<Bar>, i: nat, j: nat)
    requires Ascending(a) && Ascending(b) && Days(a) <= Days(b)
    requires i < |a| && j < |b| && a[i].day == b[j].day
    ensures |b| - j >= |a| - i
    decreases |a| - i
  {
    if i + 1 < |a| {
      assert a[i + 1].day in Days(a);
      var k :| 0 <= k < |b| && b[k].day == a[i + 1].day;
      LaterRows(a, b, i + 1, k);
    }
  }

  lemma KeepsFrom(was: seq<Bar>, now: seq<Bar>, tail: int)
    requires Ascending(was) && Ascending(now) && Days(was) <= Days(now)
    requires forall i :: 0 <= i < Settled(|was|, tail) ==> was[i] in now
    ensures Keeps(was, now, tail)
  {
    forall b | SettledRow(was, tail, b) ensures SettledRow(now, tail, b) {
      var i :| 0 <= i < Settled(|was|, tail) && was[i] == b;
      var j :| 0 <= j < |now| && now[j] == b;
      LaterRows(was, now, i, j);
    }
  }

  lemma KeepsTransitive(a: seq<Bar>, b: seq<Bar>, c: seq<Bar>, tail: int)
    requires Keeps(a, b, tail) && Keeps(b, c, tail)
    ensures Keeps(a, c, tail)
  {}

  // ---------- each operation keeps the invariant ----------

  lemma GoodRows(size: Doc -> nat, disk: Disk)
    requires Good(size, disk)
    ensures Ascending(RowsOf(size, disk))
    ensures disk.index.Some? ==> ReadDisk(size, disk) == Ok(RowsOf(size, disk)) && RowsOf(size, disk) != []
  {
    if disk.index.Some? {
      var docs :| Stored(size, disk, docs);
      StoredReads(size, disk, docs);
    }
  }

  lemma CanonicalGood(p: Packer, disk: Disk, rows: seq<Bar>)
    requires Canonical(p, disk, rows)
    ensures Good(p.size, disk) && RowsOf(p.size, disk) == rows && disk.index.Some?
  {
    hide *;
    CanonicalReads(p, disk, rows);
    CanonicalFacts(p, disk, rows);
    IsGood(p.size, disk, p.Pack(disk.index.value.identity.Series(), 0, rows).docs);
  }

  lemma IsGood(size: Doc -> nat, disk: Disk, docs: seq<Doc>)
    requires Stored(size, disk, docs)
    ensures Good(size, disk) && disk.index.Some? && RowsOf(size, disk) == Flatten(docs)
  {
    StoredReads(size, disk, docs);
  }

  lemma ConcatKeeps(rows: seq<Bar>, newRows: seq<Bar>, tail: int)
    requires Ascending(rows + newRows)
    ensures Keeps(rows, rows + newRows, tail)
  {
    var all := rows + newRows;
    forall i | 0 <= i < |rows| ensures rows[i] == all[i] && rows[i] in all {}
    forall d | d in Days(rows) ensures d in Days(all) {
      var i :| 0 <= i < |rows| && rows[i].day == d;
      DayMember(all, all[i]);
    }
    KeepsFrom(rows, all, tail);
  }

  lemma AppendTiles(lineage: seq<Segment>, kind: string, from: nat, count: nat)
    requires Tiles(lineage, 0, from) && from < count
    ensures Tiles(lineage + [Segment(kind, from, count - 1)], 0, count)
  {
    var added := [Segment(kind, from, count - 1)];
    assert added[1..] == [];
    assert Tiles(added, from, count);
    TilesConcat(lineage, added, 0, from, count);
  }

  lemma AppendFacts(size: Doc -> nat, tail: int, before: Disk, op: Op, after: Disk) returns (p: Packer, plan: Plan)
    requires op.AppendOp? && Good(size, before) && Does(size, tail, before, op, after)
    ensures p == Packer(size, op.limits) && plan.Write? && plan.newRows != []
    ensures Ascending(plan.existing + plan.newRows) && plan.existing == RowsOf(size, before)
    ensures before.index.None? ==> plan.index.shards == [] && plan.index.lineage == [] && plan.index.limits == op.limits
    ensures before.index.Some? ==> plan.index == before.index.value
    ensures Shape(p, plan.index, before.files, plan.newRows).complete
    ensures after == AfterAppend(p, before, plan, op.kind)
  {
    hide AfterAppend, Shape, ReadDisk, Stored;
    p := Packer(size, op.limits);
    plan := PlanAppend(size, before, op.identity, op.raw, op.limits);
    hide PlanAppend;
    PlanMeaning(size, before, op.identity, op.raw, op.limits);
    GoodRows(size, before);
  }

  /** A completed append leaves a stored series of the old rows then the new. */
  lemma AppendRows(p: Packer, before: Disk, plan: Plan, kind: Option<string>)
    requires Good(p.size, before) && plan.Write? && plan.newRows != []
    requires Ascending(plan.existing + plan.newRows) && plan.existing == RowsOf(p.size, before)
    requires before.index.None? ==> plan.index.shards == []
    requires before.index.Some? ==> plan.index == before.index.value
    requires Shape(p, plan.index, before.files, plan.newRows).complete
    ensures var after := AfterAppend(p, before, plan, kind);
            Good(p.size, after) && after.index.Some? && RowsOf(p.size, after) == plan.existing + plan.newRows
  {
    var after := AfterAppend(p, before, plan, kind);
    if before.index.Some? {
      var docs :| Stored(p.size, before, docs);
      hide *;
      IsGood(p.size, before, docs);
      AppendStored(p, before, docs, plan.newRows, kind);
      var docs' :| Stored(p.size, after, docs') && Flatten(docs') == Flatten(docs) + plan.newRows;
      IsGood(p.size, after, docs');
    } else {
      assert plan.existing == [] && [] + plan.newRows == plan.newRows;
      hide *;
      FirstAppendCanonical(p, before, plan.index, plan.newRows, kind);
      CanonicalGood(p, after, plan.newRows);
    }
  }

  lemma AppendKeeps(size: Doc -> nat, tail: int, before: Disk, op: Op, after: Disk)
    requires op.AppendOp? && Good(size, before) && Does(size, tail, before, op, after)
    ensures Good(size, after) && Keeps(RowsOf(size, before), RowsOf(size, after), tail)
    ensures Traced(size, before) && op.kind.Some? ==> Traced(size, after)
  {
    hide *;
    var p, plan := AppendFacts(size, tail, before, op, after);
    AppendRows(p, before, plan, op.kind);
    ConcatKeeps(plan.existing, plan.newRows, tail);
    AfterWrite(p, before, plan.index, plan.existing, plan.newRows, op.kind);
    NextLineage(plan, Shape(p, plan.index, before.files, plan.newRows).shards, op.kind);
    if op.kind.Some? && Traced(size, before) {
      TracedBefore(size, before, plan);
      AppendTiles(plan.index.lineage, op.kind.value, |plan.existing|, |plan.existing + plan.newRows|);
      IsTraced(size, after, |plan.existing + plan.newRows|);
    }
  }

  lemma NextLineage(plan: Plan, shards: seq<Meta>, kind: Option<string>)
    requires plan.Write? && plan.newRows != []
    ensures var next := NextIndex(plan.index, plan.existing + plan.newRows, shards, kind, |plan.existing|);
            && next.limits == plan.index.limits
            && next.lineage == plan.index.lineage
                 + if kind.Some? then [Segment(kind.value, |plan.existing|, |plan.existing + plan.newRows| - 1)] else []
  {}

  lemma TracedBefore(size: Doc -> nat, before: Disk, plan: Plan)
    requires Traced(size, before) && plan.Write? && plan.existing == RowsOf(size, before)
    requires if before.index.Some? then plan.index == before.index.value else plan.index.lineage == []
    ensures Tiles(plan.index.lineage, 0, |plan.existing|)
  {}

  lemma IsTraced(size: Doc -> nat, disk: Disk, count: nat)
    requires disk.index.Some? && Tiles(disk.index.value.lineage, 0, count) && |RowsOf(size, disk)| == count
    ensures Traced(size, disk)
  {}

  lemma RewriteKeeps(size: Doc -> nat, tail: int, before: Disk, rows: seq<Bar>, lineage: seq<Segment>, after: Disk)
    requires Good(size, before) && before.index.Some?
    requires var ix := before.index.value; var p := Packer(size, Effective(ix.limits));
             && rows != [] && Ascending(rows) && p.Pack(ix.identity.Series(), 0, rows).complete
             && after == Rewritten(p, before, ix, rows, lineage) && Tiles(lineage, 0, |rows|)
    requires var was := RowsOf(size, before);
             Days(was) <= Days(rows) && forall i :: 0 <= i < Settled(|was|, tail) ==> was[i] in rows
    ensures Good(size, after) && Keeps(RowsOf(size, before), RowsOf(size, after), tail) && Traced(size, after)
  {
    hide *;
    var ix := before.index.value;
    var p := Packer(size, Effective(ix.limits));
    GoodRows(size, before);
    RewrittenCanonical(p, before, ix, rows, lineage);
    CanonicalGood(p, after, rows);
    RewrittenLineage(p, before, ix, rows, lineage);
    IsTraced(size, after, |rows|);
    KeepsFrom(RowsOf(size, before), rows, tail);
  }

  lemma RewrittenLineage(p: Packer, was: Disk, index: Index, rows: seq<Bar>, lineage: seq<Segment>)
    requires rows != []
    ensures var after := Rewritten(p, was, index, rows, lineage);
            after.index.Some? && after.index.value.lineage == lineage && after.index.value.limits == index.limits
            && after.index.value.identity == index.identity
  {}

  lemma StretchMembers(was: seq<Bar>, now: seq<Bar>, from: nat)
    requires from + |was| <= |now| && was == now[from..from + |was|]
    ensures (forall i :: 0 <= i < |was| ==> was[i] in now) && Days(was) <= Days(now)
  {
    forall i | 0 <= i < |was| ensures was[i] == now[from + i] && was[i] in now {}
    forall d | d in Days(was) ensures d in Days(now) {
      var i :| 0 <= i < |was| && was[i].day == d;
      DayMember(now, now[from + i]);
    }
  }

  /** Finality and form do not need the old lineage; an extension keeps it tiling. */
  lemma ExtendKeeps(size: Doc -> nat, tail: int, before: Disk, op: Op, after: Disk)
    requires op.ExtendOp? && Good(size, before) && Does(size, tail, before, op, after)
    ensures Good(size, after) && Keeps(RowsOf(size, before), RowsOf(size, after), tail)
    ensures Traced(size, before) ==> Traced(size, after)
  {
    hide *;
    var was, ix, m := ExtendFacts(size, tail, before, op, after);
    var p := Packer(size, Effective(ix.limits));
    ExtensionExact(was, op.fetched);
    StretchMembers(was, m.rows, m.prefix);
    SettledWithin(was, tail);
    GoodRows(size, before);
    RewrittenCanonical(p, before, ix, m.rows, ExtendedLineage(ix.lineage, m));
    CanonicalGood(p, after, m.rows);
    KeepsFrom(was, m.rows, tail);
    if Traced(size, before) {
      TracedIs(size, before);
      ExtendedTiles(ix.lineage, m, |was|);
      RewrittenLineage(p, before, ix, m.rows, ExtendedLineage(ix.lineage, m));
      IsTraced(size, after, |m.rows|);
    }
  }

  lemma TracedIs(size: Doc -> nat, disk: Disk)
    requires Traced(size, disk) && disk.index.Some?
    ensures Tiles(disk.index.value.lineage, 0, |RowsOf(size, disk)|)
  {}

  lemma SameTrace(size: Doc -> nat, before: Disk, after: Disk)
    requires Traced(size, before) && after.index == before.index && RowsOf(size, after) == RowsOf(size, before)
    ensures Traced(size, after)
  {}

  lemma ExtendFacts(size: Doc -> nat, tail: int, before: Disk, op: Op, after: Disk)
    returns (was: seq<Bar>, ix: Index, m: Merged)
    requires op.ExtendOp? && Good(size, before) && Does(size, tail, before, op, after)
    ensures was == RowsOf(size, before) && was != [] && Ascending(was) && before.index == Some(ix)
    ensures MergedBaseline(was, op.fetched) == Ok(m) && m.rows != []
    ensures var p := Packer(size, Effective(ix.limits));
            p.Pack(ix.identity.Series(), 0, m.rows).complete
            && after == Rewritten(p, before, ix, m.rows, ExtendedLineage(ix.lineage, m))
  {
    hide MergedBaseline, Packer.Pack, ReadDisk, Rewritten, ExtendedLineage, Days, Tiles, Keeps, RowsOf, Ascending, Stored;
    GoodRows(size, before);
    was, ix := RowsOf(size, before), before.index.value;
    m := MergedBaseline(was, op.fetched).value;
  }

  lemma SettledWithin(rows: seq<Bar>, tail: int)
    ensures Settled(|rows|, tail) <= |rows|
  {}

  lemma RebaseKeeps(size: Doc -> nat, tail: int, before: Disk, op: Op, after: Disk)
    requires op.RebaseOp? && Good(size, before) && Does(size, tail, before, op, after)
    ensures Good(size, after) && Keeps(RowsOf(size, before), RowsOf(size, after), tail) && Traced(size, after)
  {
    hide *;
    var was, rows, lineage := RebaseFacts(size, tail, before, op, after);
    ValidatedSorted(was, op.replacement, op.limit, tail);
    DistinctSorted(rows);
    RewriteKeeps(size, tail, before, rows, lineage, after);
  }

  lemma RebaseFacts(size: Doc -> nat, tail: int, before: Disk, op: Op, after: Disk)
    returns (was: seq<Bar>, rows: seq<Bar>, lineage: seq<Segment>)
    requires op.RebaseOp? && Good(size, before) && Does(size, tail, before, op, after)
    ensures was == RowsOf(size, before) && Ascending(was) && before.index.Some?
    ensures rows == SortByDay(op.replacement) && rows != [] && Validated(was, op.replacement, op.limit, tail).Ok?
    ensures var ix := before.index.value; var p := Packer(size, Effective(ix.limits));
            p.Pack(ix.identity.Series(), 0, rows).complete && Tiles(lineage, 0, |rows|)
            && after == Rewritten(p, before, ix, rows, lineage)
  {
    hide Validated, Packer.Pack, ReadDisk, Rewritten, SortByDay, RowsOf, Ascending, Stored;
    GoodRows(size, before);
    was, rows := RowsOf(size, before), SortByDay(op.replacement);
    lineage := [Segment("rebase", 0, |rows| - 1)];
    assert lineage[1..] == [];
  }

  lemma MidwayIndex(size: Doc -> nat, tail: int, before: Disk, op: Op, crashed: Disk)
    requires crashed in Midway(size, tail, before, op)
    ensures crashed.index == before.index
  {
    hide PlanAppend, Shape, Steps, RewriteSteps, Packer.Pack, SortByDay, ReadDisk, MergedBaseline, Validated;
    match op
    case AppendOp(identity, raw, limits, _) =>
      var plan := PlanAppend(size, before, identity, raw, limits);
      StepIndex(before, Shape(Packer(size, limits), plan.index, before.files, plan.newRows).puts, crashed);
    case ExtendOp(fetched) =>
      var ix, m := before.index.value, MergedBaseline(ReadDisk(size, before).value, fetched).value;
      RewriteKeepsIndex(before, ix, Packer(size, Effective(ix.limits)).Pack(ix.identity.Series(), 0, m.rows).docs);
    case RebaseOp(replacement, _) =>
      var ix := before.index.value;
      RewriteKeepsIndex(before, ix,
                        Packer(size, Effective(ix.limits)).Pack(ix.identity.Series(), 0, SortByDay(replacement)).docs);
  }

  /** An interrupted or refused operation that leaves the series readable leaves it as it was. */
  lemma StoppedKeeps(size: Doc -> nat, tail: int, before: Disk, op: Op, after: Disk)
    requires op.Stopped? && Good(size, before) && Does(size, tail, before, op, after)
    ensures Good(size, after) && RowsOf(size, after) == RowsOf(size, before) && after.index == before.index
  {
    MidwayIndex(size, tail, before, op.what, after);
    if before.index.Some? {
      var docs :| Stored(size, before, docs);
      hide Stored, ReadDisk, Good, RowsOf, Midway;
      StillStored(size, before, docs, after);
      IsGood(size, before, docs);
      IsGood(size, after, docs);
    }
  }

  lemma KeepsItself(rows: seq<Bar>, tail: int)
    ensures Keeps(rows, rows, tail)
  {}

  /** A directory that no longer reads is a dead end: no operation changes it any more. */
  lemma UnreadableStays(size: Doc -> nat, tail: int, before: Disk, op: Op, after: Disk)
    requires before.index.Some? && ReadDisk(size, before).Fail?
    ensures !Does(size, tail, before, op, after) && Midway(size, tail, before, op) == []
  {
    hide ReadRows, Shape, Steps, RewriteSteps, Packer.Pack, SortByDay, MergedBaseline, Validated, Prepare, SelectNew;
    if op.Stopped? { UnreadableStays(size, tail, before, op.what, after); }
  }

  /** One operation of any kind, under any limits. */
  lemma OpKeeps(size: Doc -> nat, tail: int, before: Disk, op: Op, after: Disk)
    requires Good(size, before) && Does(size, tail, before, op, after)
    ensures Good(size, after) && Keeps(RowsOf(size, before), RowsOf(size, after), tail)
    ensures Traced(size, before) && CarriesLineage(op) ==> Traced(size, after)
  {
    hide Good, Does, Keeps, RowsOf, Traced;
    match op
    case AppendOp(_, _, _, _) => AppendKeeps(size, tail, before, op, after);
    case ExtendOp(_) => ExtendKeeps(size, tail, before, op, after);
    case RebaseOp(_, _) => RebaseKeeps(size, tail, before, op, after);
    case Stopped(_) =>
      StoppedKeeps(size, tail, before, op, after);
      KeepsItself(RowsOf(size, before), tail);
      if Traced(size, before) { SameTrace(size, before, after); }
  }

  // ---------- over whole runs ----------

  /** Every disk of a run is readable and stored in contiguous shards; if every append
      records its lineage, the segments tile the series. */
  lemma {:induction false} RunStaysGood(size: Doc -> nat, tail: int, ops: seq<Op>, disks: seq<Disk>, i: nat)
    requires Run(size, tail, ops, disks) && Good(size, disks[0]) && i < |disks|
    ensures Good(size, disks[i])
    ensures Traced(size, disks[0]) && (forall op :: op in ops ==> CarriesLineage(op)) ==> Traced(size, disks[i])
    decreases i
  {
    hide Good, Does, Traced;
    if i > 0 {
      RunStaysGood(size, tail, ops, disks, i - 1);
      assert ops[i - 1] in ops;
      OpKeeps(size, tail, disks[i - 1], ops[i - 1], disks[i]);
    }
  }

  /** Settlement finality: whatever the run does between two moments, under whatever limits,
      no stored date disappears, and a row that had max(1, tail) later rows is still
      stored unchanged. */
  lemma {:induction false} SettlementFinality(size: Doc -> nat, tail: int, ops: seq<Op>, disks: seq<Disk>, i: nat, j: nat)
    requires Run(size, tail, ops, disks) && Good(size, disks[0]) && i <= j < |disks|
    ensures Days(RowsOf(size, disks[i])) <= Days(RowsOf(size, disks[j]))
    ensures forall b :: SettledRow(RowsOf(size, disks[i]), tail, b) ==> b in RowsOf(size, disks[j])
    ensures Keeps(RowsOf(size, disks[i]), RowsOf(size, disks[j]), tail)
    decreases j
  {
    hide Good, Does, RowsOf;
    if i < j {
      SettlementFinality(size, tail, ops, disks, i, j - 1);
      RunStaysGood(size, tail, ops, disks, j - 1);
      OpKeeps(size, tail, disks[j - 1], ops[j - 1], disks[j]);
      KeepsTransitive(RowsOf(size, disks[i]), RowsOf(size, disks[j - 1]), RowsOf(size, disks[j]), tail);
    }
  }

  // ---------- one pair of limits: the layout ----------

  /** Every append uses the limits of `p`. */
  predicate Uniform(p: Packer, ops: seq<Op>) { forall op :: op in ops && op.AppendOp? ==> op.limits == p.limits }

  /** Under one pair of limits a disk is canonically cut and its index carries them. */
  ghost predicate Regular(p: Packer, disk: Disk) {
    disk.index.Some? ==> Canonical(p, disk, RowsOf(p.size, disk)) && disk.index.value.limits == p.limits
  }

  lemma RegularGood(p: Packer, disk: Disk)
    requires Regular(p, disk)
    ensures Good(p.size, disk)
  {
    if disk.index.Some? { CanonicalGood(p, disk, RowsOf(p.size, disk)); }
  }

  lemma OpStaysRegular(p: Packer, tail: int, before: Disk, op: Op, after: Disk)
    requires Regular(p, before) && Does(p.size, tail, before, op, after)
    requires Effective(p.limits) == p.limits && (op.AppendOp? ==> op.limits == p.limits)
    ensures Regular(p, after)
  {
    RegularGood(p, before);
    match op
    case AppendOp(_, _, _, _) => AppendStaysRegular(p, tail, before, op, after);
    case ExtendOp(_) =>
      var was, ix, m := ExtendFacts(p.size, tail, before, op, after);
      hide *;
      LimitsOf(p, before);
      ExtensionExact(was, op.fetched);
      RewriteRegular(p, before, m.rows, ExtendedLineage(ix.lineage, m), after);
    case RebaseOp(_, _) =>
      var was, rows, lineage := RebaseFacts(p.size, tail, before, op, after);
      hide *;
      LimitsOf(p, before);
      ValidatedSorted(was, op.replacement, op.limit, tail);
      DistinctSorted(rows);
      RewriteRegular(p, before, rows, lineage, after);
    case Stopped(_) =>
      StoppedKeeps(p.size, tail, before, op, after);
      if before.index.Some? { StoppedRegular(p, before, after); }
  }

  lemma StoppedRegular(p: Packer, before: Disk, after: Disk)
    requires Regular(p, before) && before.index.Some? && after.index == before.index
    requires Good(p.size, after) && RowsOf(p.size, after) == RowsOf(p.size, before)
    ensures Regular(p, after)
  {
    hide *;
    LimitsOf(p, before);
    var rows := RowsOf(p.size, before);
    CanonicalFacts(p, before, rows);
    GoodRows(p.size, after);
    StillStored(p.size, before, p.Pack(before.index.value.identity.Series(), 0, rows).docs, after);
    StillCanonical(p, before, after, rows);
    IsRegular(p, after, rows);
  }

  lemma StillCanonical(p: Packer, before: Disk, after: Disk, rows: seq<Bar>)
    requires Canonical(p, before, rows) && after.index == before.index
    requires Stored(p.size, after, p.Pack(before.index.value.identity.Series(), 0, rows).docs)
    ensures Canonical(p, after, rows)
  {}

  lemma LimitsOf(p: Packer, disk: Disk)
    requires Regular(p, disk) && disk.index.Some?
    ensures disk.index.value.limits == p.limits && Canonical(p, disk, RowsOf(p.size, disk))
    ensures Packer(p.size, p.limits) == p
  {}

  lemma IsRegular(p: Packer, disk: Disk, rows: seq<Bar>)
    requires Canonical(p, disk, rows) && disk.index.Some? && disk.index.value.limits == p.limits
    ensures Regular(p, disk)
  {
    CanonicalGood(p, disk, rows);
  }

  lemma RewriteRegular(p: Packer, before: Disk, rows: seq<Bar>, lineage: seq<Segment>, after: Disk)
    requires before.index.Some? && rows != [] && Ascending(rows)
    requires var ix := before.index.value;
             ix.limits == p.limits && p.Pack(ix.identity.Series(), 0, rows).complete
             && after == Rewritten(p, before, ix, rows, lineage)
    ensures Regular(p, after)
  {
    hide *;
    RewrittenCanonical(p, before, before.index.value, rows, lineage);
    RewrittenLineage(p, before, before.index.value, rows, lineage);
    IsRegular(p, after, rows);
  }

  lemma AppendStaysRegular(p: Packer, tail: int, before: Disk, op: Op, after: Disk)
    requires op.AppendOp? && op.limits == p.limits && Regular(p, before) && Good(p.size, before)
    requires Does(p.size, tail, before, op, after)
    ensures Regular(p, after)
  {
    hide *;
    var q, plan := AppendFacts(p.size, tail, before, op, after);
    SamePacker(p, q);
    AfterWrite(p, before, plan.index, plan.existing, plan.newRows, op.kind);
    NextLineage(plan, Shape(p, plan.index, before.files, plan.newRows).shards, op.kind);
    if before.index.Some? {
      LimitsOf(p, before);
      AppendCanonical(p, before, plan.existing, plan.newRows, op.kind);
    } else {
      EmptyRows(p.size, before);
      assert [] + plan.newRows == plan.newRows;
      FirstAppendCanonical(p, before, plan.index, plan.newRows, op.kind);
    }
    IsRegular(p, after, plan.existing + plan.newRows);
  }

  lemma SamePacker(p: Packer, q: Packer)
    requires q == Packer(p.size, p.limits)
    ensures q == p
  {}

  lemma EmptyRows(size: Doc -> nat, disk: Disk)
    requires disk.index.None?
    ensures RowsOf(size, disk) == []
  {}

  lemma {:induction false} RunStaysRegular(p: Packer, tail: int, ops: seq<Op>, disks: seq<Disk>, i: nat)
    requires Run(p.size, tail, ops, disks) && Regular(p, disks[0]) && i < |disks|
    requires Effective(p.limits) == p.limits && Uniform(p, ops)
    ensures Regular(p, disks[i])
    decreases i
  {
    hide Regular, Does;
    if i > 0 {
      RunStaysRegular(p, tail, ops, disks, i - 1);
      assert ops[i - 1] in ops;
      OpStaysRegular(p, tail, disks[i - 1], ops[i - 1], disks[i]);
    }
  }

  /** Two runs under one pair of limits that reach the same rows reach the same layout, by
      whatever mix of operations: same index entries, same shard files. */
  lemma LayoutIsHistoryFree(p: Packer, tail: int, ops: seq<Op>, disks: seq<Disk>, ops': seq<Op>, disks': seq<Disk>)
    requires Run(p.size, tail, ops, disks) && Regular(p, disks[0]) && Run(p.size, tail, ops', disks') && Regular(p, disks'[0])
    requires Effective(p.limits) == p.limits && Uniform(p, ops) && Uniform(p, ops')
    requires disks[|ops|].index.Some? && disks'[|ops'|].index.Some?
    requires disks[|ops|].index.value.identity.Series() == disks'[|ops'|].index.value.identity.Series()
    requires RowsOf(p.size, disks[|ops|]) == RowsOf(p.size, disks'[|ops'|])
    ensures disks[|ops|].index.value.shards == disks'[|ops'|].index.value.shards
    ensures forall m :: m in disks[|ops|].index.value.shards ==>
              m.path in disks[|ops|].files && m.path in disks'[|ops'|].files
              && disks[|ops|].files[m.path] == disks'[|ops'|].files[m.path]
  {
    RunStaysRegular(p, tail, ops, disks, |ops|);
    RunStaysRegular(p, tail, ops', disks', |ops'|);
    CanonicalUnique(p, disks[|ops|], disks'[|ops'|], RowsOf(p.size, disks[|ops|]));
  }

  /** The bound is sharp: any row with fewer later rows can still be revised, since
      a replacement that differs there and nowhere else is accepted. */
  lemma TailIsNotFinal(rows: seq<Bar>, tail: int, i: nat, revised: Bar)
    requires Ascending(rows) && Settled(|rows|, tail) <= i < |rows|
    requires revised.day == rows[i].day && revised != rows[i]
    ensures Validated(rows, rows[i := revised], 1, tail).Ok?
  {
    hide Validated, SortByDay, Revisions, Days;
    var n := rows[i := revised];
    forall k | 0 <= k < |rows| ensures n[k].day == rows[k].day && (k != i ==> n[k] == rows[k] && rows[k] in n) {}
    SortFixed(n);
    SameDays(rows, n);
    OneRevision(rows, n, i);
    ValidatedSorted(rows, n, 1, tail);
  }

  lemma SameDays(a: seq<Bar>, b: seq<Bar>)
    requires |a| == |b| && forall k :: 0 <= k < |a| ==> a[k].day == b[k].day
    ensures Days(a) <= Days(b)
  {}

  lemma {:induction false} OneRevision(e: seq<Bar>, n: seq<Bar>, i: nat)
    requires Days(e) <= Days(n) && DistinctDays(n)
    requires forall k :: 0 <= k < |e| && k != i ==> e[k] in n
    ensures |Revisions(e, n)| <= if i < |e| then 1 else 0
    decreases |e|
  {
    if e != [] {
      var init, b := e[..|e| - 1], e[|e| - 1];
      DaysPrefix(e, |e| - 1);
      OneRevision(init, n, i);
      if i != |e| - 1 {
        FindMember(n, b);
      }
    }
  }

  // ---------- the writers themselves ----------

  /** There is nothing yet, or a series that reads. */
  ghost predicate Readable(size: Doc -> nat, disk: Disk) { disk.index.Some? ==> ReadDisk(size, disk).Ok? }

  lemma ReadableIs(size: Doc -> nat, disk: Disk)
    requires Readable(size, disk)
    ensures disk.index.Some? ==> ReadDisk(size, disk).Ok?
  {}

  /** A refused append ends in the last of its states, or where it began. */
  lemma RefusedState(p: Packer, before: Disk, plan: Plan, kind: Option<string>)
    requires plan.Write? && plan.newRows != [] && !Shape(p, plan.index, before.files, plan.newRows).complete
    ensures var states, after := Steps(before, Shape(p, plan.index, before.files, plan.newRows).puts),
                                 AfterAppend(p, before, plan, kind);
            if states == [] then after == before else after in states
  {
    hide Shape;
    var puts := Shape(p, plan.index, before.files, plan.newRows).puts;
    if puts != [] {
      assert puts[..|puts|] == puts;
      assert Steps(before, puts)[|puts| - 1] == AfterAppend(p, before, plan, kind);
    }
  }

  /** A series directory under its three writers. Each successful call is one step of the
      run recorded in `ops` and `disks`, and the states it puts on disk are the `Midway` states
      of that step: the results above speak of every history of calls, and of every point
      at which a call may stop. */
  class History {
    const job: RebaseJob
    const tail: int
    ghost var ops: seq<Op>
    ghost var disks: seq<Disk>

    ghost predicate Valid()
      reads this, job.dir
    {
      && Run(job.dir.size, tail, ops, disks) && Good(job.dir.size, disks[0])
      && disks[|disks| - 1] == job.dir.Now()
    }

    constructor (job: RebaseJob, tail: int)
      requires Good(job.dir.size, job.dir.Now())
      ensures Valid() && this.job == job && this.tail == tail && ops == [] && disks == [job.dir.Now()]
    {
      this.job, this.tail, ops, disks := job, tail, [], [job.dir.Now()];
    }

    /** One more step. */
    ghost method Step(op: Op)
      requires Run(job.dir.size, tail, ops, disks) && Good(job.dir.size, disks[0])
      requires Does(job.dir.size, tail, disks[|disks| - 1], op, job.dir.Now())
      modifies this
      ensures Valid() && ops == old(ops) + [op] && disks == old(disks) + [job.dir.Now()]
    {
      hide Does, Good;
      var size := job.dir.size;
      var ops', disks' := ops + [op], disks + [job.dir.Now()];
      forall i | 0 <= i < |ops'| ensures Does(size, tail, disks'[i], ops'[i], disks'[i + 1]) {
        if i < |ops| { assert Does(size, tail, disks[i], ops[i], disks[i + 1]); }
      }
      ops, disks := ops', disks';
    }

    /** A changing append is one step, and so is one refused for a row too large after it wrote
        something, as long as the series still reads. Only when it does not is the run over. */
    method Append(identity: Identity, raw: seq<RawBar>, limits: Limits, kind: Option<string>)
      returns (r: Result<WriteResult, StoreError>)
      requires Valid()
      modifies this, job.dir
      ensures r != Fail(RowTooLarge) || Readable(job.dir.size, job.dir.Now()) ==> Valid()
      ensures var op := AppendOp(identity, raw, limits, kind); var changed := job.dir.trail != old(job.dir.trail);
              ops == old(ops) + if r.Ok? && r.value.changed then [op]
                                else if r == Fail(RowTooLarge) && changed && Readable(job.dir.size, job.dir.Now())
                                then [Stopped(op)] else []
      ensures ops == old(ops) ==> disks == old(disks)
      ensures job.dir.trail == old(job.dir.trail)
                               + Midway(job.dir.size, tail, old(job.dir.Now()), AppendOp(identity, raw, limits, kind))
                               + if r.Ok? && r.value.changed then [job.dir.Now()] else []
    {
      hide Run, Good, PlanAppend, Shape, AfterAppend, Steps;
      ghost var was, trail, op := job.dir.Now(), job.dir.trail, AppendOp(identity, raw, limits, kind);
      r := job.dir.Append(identity, raw, limits, kind);
      ghost var plan := PlanAppend(job.dir.size, was, identity, raw, limits);
      if r.Ok? && r.value.changed {
        Step(op);
      } else if r == Fail(RowTooLarge) && plan.Write? {
        RefusedState(Packer(job.dir.size, limits), was, plan, kind);
        if job.dir.trail != trail && Readable(job.dir.size, job.dir.Now()) { Step(Stopped(op)); }
      }
    }

    /** The same for an initialization: one step, an append or an extension, or none. */
    method Extend(identity: Identity, fetched: seq<Bar>) returns (r: Result<Initialized, InitError>)
      requires Valid()
      modifies this, job.dir
      ensures r != Fail(NotCreated(RowTooLarge)) || Readable(job.dir.size, job.dir.Now()) ==> Valid()
      ensures var op := AppendOp(identity, RawAll(fetched), Limits(DEFAULT_RECORD_LIMIT, DEFAULT_BYTE_LIMIT),
                                 Some(INITIAL_KIND));
              var changed := job.dir.trail != old(job.dir.trail);
              ops == old(ops) + if r.Ok? && r.value.Created? && r.value.result.changed then [op]
                                else if r == Fail(NotCreated(RowTooLarge)) && changed && Readable(job.dir.size, job.dir.Now())
                                then [Stopped(op)]
                                else if r.Ok? && r.value.Extended? && r.value.merged.prefix + r.value.merged.suffix > 0
                                then [ExtendOp(fetched)] else []
      ensures ops == old(ops) ==> disks == old(disks)
      ensures var size, was := job.dir.size, old(job.dir.Now());
              var op := AppendOp(identity, RawAll(fetched), Limits(DEFAULT_RECORD_LIMIT, DEFAULT_BYTE_LIMIT),
                                 Some(INITIAL_KIND));
              job.dir.trail == old(job.dir.trail)
                               + if was.index.None? then
                                   Midway(size, tail, was, op)
                                   + if r.Ok? && r.value.Created? && r.value.result.changed then [job.dir.Now()] else []
                                 else if r.Ok? && r.value.Extended? && r.value.merged.prefix + r.value.merged.suffix > 0 then
                                   Midway(size, tail, was, ExtendOp(fetched)) + [job.dir.Now()]
                                 else []
    {
      hide Run, Good, PlanAppend, Shape, AfterAppend, Steps, RewriteSteps, Rewritten, MergedBaseline, ReadDisk, ReadRows,
           Packer.Pack, ExtendedLineage, RawAll, Readable;
      ghost var limits := Limits(DEFAULT_RECORD_LIMIT, DEFAULT_BYTE_LIMIT);
      ghost var was, trail, op := job.dir.Now(), job.dir.trail, AppendOp(identity, RawAll(fetched), limits, Some(INITIAL_KIND));
      r := Initialize(job.dir, identity, fetched);
      if was.index.Some? { ReadDiskIsReadRows(job.dir.size, was); }
      ghost var plan := PlanAppend(job.dir.size, was, identity, RawAll(fetched), limits);
      if r.Ok? {
        if r.value.Created? && r.value.result.changed {
          Step(op);
        } else if r.value.Extended? && r.value.merged.prefix + r.value.merged.suffix > 0 {
          Step(ExtendOp(fetched));
        }
      } else if r == Fail(NotCreated(RowTooLarge)) && plan.Write? {
        RefusedState(Packer(job.dir.size, limits), was, plan, Some(INITIAL_KIND));
        if job.dir.trail != trail && Readable(job.dir.size, job.dir.Now()) {
          ReadableIs(job.dir.size, job.dir.Now());
          Step(Stopped(op));
        }
      }
    }

    method Rebase(answer: nat -> seq<Bar>, effective: Option<int>, cutoff: int, today: int, target: int, limit: int)
      returns (r: Result<int, RebaseError>)
      requires Valid()
      modifies this, job, job.dir
      ensures Valid()
      ensures r.Ok? ==> exists rows ::
                ops == old(ops) + [RebaseOp(rows, limit)]
                && job.dir.trail == old(job.dir.trail)
                                    + Midway(job.dir.size, tail, old(job.dir.Now()), RebaseOp(rows, limit)) + [job.dir.Now()]
      ensures r.Fail? ==> ops == old(ops) && disks == old(disks) && job.dir.trail == old(job.dir.trail)
    {
      hide Run, Good, RewriteSteps, Rewritten, ReadDisk, ReadRows, Packer.Pack, SelectWindow, Validated, SortByDay;
      ghost var was := job.dir.Now();
      ghost var plan := PlanRebase(job.dir.size, was, cutoff in job.archives, answer, effective, cutoff, today,
                                   Settings(target, limit, tail));
      r := job.Rebase(answer, effective, cutoff, today, Settings(target, limit, tail));
      if r.Ok? {
        ghost var rows := plan.value.0;
        ReadDiskIsReadRows(job.dir.size, was);
        NonEmptyReplacement(plan.value.1.rows, rows, limit, tail);
        Step(RebaseOp(rows, limit));
      }
    }
  }
}
