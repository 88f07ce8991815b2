/** The sharded daily series on disk: the integrity reader, the append-only
    writer, and the durable states the writer passes through. */
module SeriesStore {
  import opened Bars
  import opened Shards

  datatype Identity = Identity(provider: string, symbol: string, assetClass: string, session: string,
                               semantics: string, adjustment: string, effective: Option<int>)
  {
    function Series(): SeriesId { SeriesId(provider, symbol) }
  }

  datatype Segment = Segment(kind: string, start: int, end: int)

  datatype Index = Index(identity: Identity, recordCount: int, first: Option<int>, last: Option<int>,
                         limits: Limits, shards: seq<Meta>, lineage: seq<Segment>)

  /** What survives a crash: the shard files by number, and the index file. */
  datatype Disk = Disk(files: map<int, Doc>, index: Option<Index>)

  datatype StoreError =
    | NotRegular | BadRow(e: BarError) | DuplicateInBatch | PrecedesIdentity
    | AffinityMismatch | NoIndex | MissingShard | SeriesIdMismatch | ShardMismatch | CountMismatch | NotAscending
    | ConflictingBar | OutOfOrder | BatchNotAdvancing | RowTooLarge

  datatype WriteResult = WriteResult(changed: bool, count: Option<int>)

  // ---------- reading ----------

  /** The rows behind a list of index entries, every shard checked against its entry. */
  function ReadShards(size: Doc -> nat, id: SeriesId, files: map<int, Doc>, metas: seq<Meta>)
    : Result<seq<Bar>, StoreError>
  {
    if metas == [] then Ok([])
    else
      var m := metas[0];
      if m.path !in files then Fail(MissingShard)
      else if files[m.path].id != id then Fail(SeriesIdMismatch)
      else if ShardMeta(size, m.path, m.start, files[m.path], m.sealed) != m then Fail(ShardMismatch)
      else
        match ReadShards(size, id, files, metas[1..])
        case Fail(e) => Fail(e)
        case Ok(rest) => Ok(files[m.path].records + rest)
  }

  predicate AscendingDays(rows: seq<Bar>)
    ensures AscendingDays(rows) <==> Ascending(rows)
  {
    |rows| <= 1 || (rows[|rows| - 2].day < rows[|rows| - 1].day && AscendingDays(rows[..|rows| - 1]))
  }

  function ReadRows(size: Doc -> nat, files: map<int, Doc>, index: Index): Result<seq<Bar>, StoreError> {
    match ReadShards(size, index.identity.Series(), files, index.shards)
    case Fail(e) => Fail(e)
    case Ok(rows) =>
      if |rows| != index.recordCount then Fail(CountMismatch)
      else if !AscendingDays(rows) then Fail(NotAscending)
      else Ok(rows)
  }

  function ReadDisk(size: Doc -> nat, disk: Disk): Result<seq<Bar>, StoreError> {
    match disk.index
    case None => Fail(NoIndex)
    case Some(index) => ReadRows(size, disk.files, index)
  }

  // ---------- planning an append ----------

  function NormalizeAll(raw: seq<RawBar>): (r: Result<seq<Bar>, StoreError>)
    ensures r.Ok? ==> |r.value| == |raw| && forall i :: 0 <= i < |raw| ==> Normalize(raw[i]) == Ok(r.value[i])
  {
    if raw == [] then Ok([])
    else
      match Normalize(raw[0])
      case Fail(e) => Fail(BadRow(e))
      case Ok(b) =>
        match NormalizeAll(raw[1..])
        case Fail(e) => Fail(e)
        case Ok(rest) => Ok([b] + rest)
  }

  predicate AnyBefore(rows: seq<Bar>, effective: Option<int>) {
    effective.Some? && exists b :: b in rows && b.day < effective.value
  }

  /** The batch in day order, or the first reason it cannot enter the Store. */
  function Prepare(identity: Identity, raw: seq<RawBar>): Result<seq<Bar>, StoreError> {
    if identity.session != "regular" then Fail(NotRegular)
    else
      match NormalizeAll(raw)
      case Fail(e) => Fail(e)
      case Ok(rows) =>
        var batch := SortByDay(rows);
        if |Days(batch)| != |batch| then Fail(DuplicateInBatch)
        else if AnyBefore(batch, identity.effective) then Fail(PrecedesIdentity)
        else Ok(batch)
  }

  function EmptyIndex(identity: Identity, limits: Limits): Index {
    Index(identity, 0, None, None, limits, [], [])
  }

  /** The rows of a batch that are new: known rows must be identical, the rest must be later. */
  function SelectNew(existing: seq<Bar>, batch: seq<Bar>): (r: Result<seq<Bar>, StoreError>)
  {
    if batch == [] then Ok([])
    else
      match SelectNew(existing, batch[..|batch| - 1])
      case Fail(e) => Fail(e)
      case Ok(rows) => Merge(existing, rows, batch[|batch| - 1])
  }

  function Merge(existing: seq<Bar>, rows: seq<Bar>, b: Bar): Result<seq<Bar>, StoreError> {
    match Find(existing, b.day)
    case Some(stored) => if stored == b then Ok(rows) else Fail(ConflictingBar)
    case None =>
      if existing != [] && b.day <= existing[|existing| - 1].day then Fail(OutOfOrder)
      else if rows != [] && b.day <= rows[|rows| - 1].day then Fail(BatchNotAdvancing)
      else Ok(rows + [b])
  }

  /** What an append will do to a disk, decided before the first write. */
  datatype Plan =
    | Reject(error: StoreError)
    | Nothing(count: Option<int>)
    | Write(index: Index, existing: seq<Bar>, newRows: seq<Bar>)

  function PlanAppend(size: Doc -> nat, disk: Disk, identity: Identity, raw: seq<RawBar>, limits: Limits): Plan {
    match Prepare(identity, raw)
    case Fail(e) => Reject(e)
    case Ok(batch) =>
      if batch == [] then Nothing(None)
      else if disk.index.Some? && disk.index.value.identity != identity then Reject(AffinityMismatch)
      else
        var loaded := if disk.index.None? then Ok([]) else ReadRows(size, disk.files, disk.index.value);
        match loaded
        case Fail(e) => Reject(e)
        case Ok(existing) =>
          match SelectNew(existing, batch)
          case Fail(e) => Reject(e)
          case Ok(newRows) =>
            if newRows == [] then Nothing(Some(|existing|))
            else Write(if disk.index.None? then EmptyIndex(identity, limits) else disk.index.value, existing, newRows)
  }

  // ---------- the writes ----------

  datatype Put = Put(path: int, doc: Doc)

  /** The shard files an append writes, in order, and the index entries that go with them. */
  datatype WriteSet = WriteSet(puts: seq<Put>, shards: seq<Meta>, complete: bool)

  function Apply(files: map<int, Doc>, puts: seq<Put>): map<int, Doc> {
    if puts == [] then files
    else Apply(files, puts[..|puts| - 1])[puts[|puts| - 1].path := puts[|puts| - 1].doc]
  }

  function Puts(docs: seq<Doc>): (p: seq<Put>)
    ensures |p| == |docs|
  {
    seq(|docs|, i requires 0 <= i < |docs| => Put(docs[i].start, docs[i]))
  }

  function SumCounts(metas: seq<Meta>): int {
    if metas == [] then 0 else SumCounts(metas[..|metas| - 1]) + metas[|metas| - 1].count
  }

  predicate HasOpen(index: Index, files: map<int, Doc>) {
    index.shards != [] && !index.shards[|index.shards| - 1].sealed && index.shards[|index.shards| - 1].path in files
  }

  function OpenDoc(index: Index, files: map<int, Doc>): Doc
    requires HasOpen(index, files)
  {
    var m := index.shards[|index.shards| - 1];
    Doc(index.identity.Series(), m.start, files[m.path].records)
  }

  /** Index entries kept or rewritten by the step that fills the open shard. */
  function Filled(p: Packer, index: Index, files: map<int, Doc>, newRows: seq<Bar>): seq<Meta>
    requires HasOpen(index, files)
  {
    var m := index.shards[|index.shards| - 1];
    var n := p.Grow(OpenDoc(index, files), newRows);
    index.shards[..|index.shards| - 1]
    + [ShardMeta(p.size, m.path, m.start, OpenDoc(index, files).Plus(newRows[..n]), n < |newRows|)]
  }

  function Shape(p: Packer, index: Index, files: map<int, Doc>, newRows: seq<Bar>): WriteSet {
    var id := index.identity.Series();
    if HasOpen(index, files) then
      var m := index.shards[|index.shards| - 1];
      var n := p.Grow(OpenDoc(index, files), newRows);
      var kept := Filled(p, index, files, newRows);
      var rest := p.Pack(id, SumCounts(kept), newRows[n..]);
      WriteSet([Put(m.path, OpenDoc(index, files).Plus(newRows[..n]))] + Puts(rest.docs),
               kept + Metas(p.size, rest.docs), rest.complete)
    else
      var rest := p.Pack(id, SumCounts(index.shards), newRows);
      WriteSet(Puts(rest.docs), index.shards + Metas(p.size, rest.docs), rest.complete)
  }

  function NextIndex(index: Index, rows: seq<Bar>, shards: seq<Meta>, added: Option<string>, from: int): Index
    requires rows != []
  {
    index.(recordCount := |rows|, first := Some(rows[0].day), last := Some(rows[|rows| - 1].day), shards := shards,
           lineage := index.lineage + if added.Some? then [Segment(added.value, from, |rows| - 1)] else [])
  }

  /** The durable states between the writes: the index is still the old one. */
  function Steps(disk: Disk, puts: seq<Put>): seq<Disk> {
    seq(|puts|, i requires 0 <= i < |puts| => Disk(Apply(disk.files, puts[..i + 1]), disk.index))
  }

  lemma PutsSnoc(disk: Disk, docs: seq<Doc>, d: Doc)
    ensures Puts(docs + [d]) == Puts(docs) + [Put(d.start, d)]
    ensures Apply(disk.files, Puts(docs + [d])) == Apply(disk.files, Puts(docs))[d.start := d]
    ensures Steps(disk, Puts(docs + [d]))
         == Steps(disk, Puts(docs)) + [Disk(Apply(disk.files, Puts(docs))[d.start := d], disk.index)]
  {
    StepsSnoc(disk, Puts(docs), Put(d.start, d));
  }

  lemma StepsSnoc(disk: Disk, puts: seq<Put>, x: Put)
    ensures Apply(disk.files, puts + [x]) == Apply(disk.files, puts)[x.path := x.doc]
    ensures Steps(disk, puts + [x]) == Steps(disk, puts) + [Disk(Apply(disk.files, puts + [x]), disk.index)]
  {
    assert (puts + [x])[..|puts|] == puts && (puts + [x])[..|puts| + 1] == puts + [x];
    forall i | 0 <= i < |puts| ensures Steps(disk, puts + [x])[i] == Steps(disk, puts)[i] {
      assert (puts + [x])[..i + 1] == puts[..i + 1];
    }
  }

  lemma {:induction false} ApplyCons(files: map<int, Doc>, x: Put, puts: seq<Put>)
    ensures Apply(files, [x] + puts) == Apply(files[x.path := x.doc], puts)
    decreases |puts|
  {
    if puts == [] {
      assert Apply(files, ([x] + puts)[..0]) == files;
    } else {
      InitCons(x, puts);
      ApplyCons(files, x, puts[..|puts| - 1]);
    }
  }

  lemma StepsCons(disk: Disk, x: Put, puts: seq<Put>)
    ensures var mid := Disk(disk.files[x.path := x.doc], disk.index);
            Steps(disk, [x] + puts) == [mid] + Steps(mid, puts)
  {
    var mid := Disk(disk.files[x.path := x.doc], disk.index);
    forall i | 0 <= i < |puts| + 1 ensures Steps(disk, [x] + puts)[i] == ([mid] + Steps(mid, puts))[i] {
      ApplyCons(disk.files, x, puts[..i]);
      assert ([x] + puts)[..i + 1] == [x] + puts[..i];
    }
  }

  lemma NoPuts(disk: Disk)
    ensures Puts([]) == [] && Apply(disk.files, []) == disk.files && Steps(disk, []) == []
  {}

  lemma SumSnoc(metas: seq<Meta>, m: Meta)
    ensures SumCounts(metas + [m]) == SumCounts(metas) + m.count
  {}

  /** The entry of one packed document: sealed unless it is the last. */
  lemma MetasStep(size: Doc -> nat, docs: seq<Doc>, i: nat)
    requires i < |docs|
    ensures Metas(size, docs)[..i + 1] == Metas(size, docs)[..i]
                                          + [ShardMeta(size, docs[i].start, docs[i].start, docs[i], i < |docs| - 1)]
  {}

  lemma PackEmpty(p: Packer, id: SeriesId, start: int, rows: seq<Bar>)
    requires p.Pack(id, start, rows).complete
    ensures p.Pack(id, start, rows).docs == [] <==> rows == []
  {}

  /** The disk an append leaves. */
  function AfterAppend(p: Packer, disk: Disk, plan: Plan, added: Option<string>): Disk
    requires plan.Write? ==> plan.newRows != []
  {
    if !plan.Write? then disk
    else
      var w := Shape(p, plan.index, disk.files, plan.newRows);
      Disk(Apply(disk.files, w.puts),
           if w.complete
           then Some(NextIndex(plan.index, plan.existing + plan.newRows, w.shards, added, |plan.existing|))
           else disk.index)
  }

  /** One series directory. `trail` records every durable state in order. */
  class SeriesDir {
    const size: Doc -> nat
    var files: map<int, Doc>
    var index: Option<Index>
    ghost var trail: seq<Disk>

    constructor (size: Doc -> nat)
      ensures this.size == size && Now() == Disk(map[], None) && trail == [Now()]
    {
      this.size := size;
      files, index := map[], None;
      trail := [Disk(map[], None)];
    }

    function Now(): Disk
      reads this
    {
      Disk(files, index)
    }

    method PutShard(path: int, doc: Doc)
      modifies this
      ensures files == old(files)[path := doc] && index == old(index)
      ensures trail == old(trail) + [Now()]
    {
      files := files[path := doc];
      trail := trail + [Now()];
    }

    method Unlink(path: int)
      modifies this
      ensures files == old(files) - {path} && index == old(index)
      ensures trail == old(trail) + [Now()]
    {
      files := files - {path};
      trail := trail + [Now()];
    }

    method PutIndex(next: Index)
      modifies this
      ensures files == old(files) && index == Some(next)
      ensures trail == old(trail) + [Now()]
    {
      index := Some(next);
      trail := trail + [Now()];
    }

    /** `_read_all_records`. */
    method ReadAll(index: Index) returns (r: Result<seq<Bar>, StoreError>)
      ensures r == ReadRows(size, files, index)
    {
      var id := index.identity.Series();
      var rows: seq<Bar> := [];
      var i := 0;
      assert index.shards[0..] == index.shards;
      assert forall rest :: rows + rest == rest;
      while i < |index.shards|
        invariant 0 <= i <= |index.shards|
        invariant match ReadShards(size, id, files, index.shards[i..])
                  case Fail(e) => ReadShards(size, id, files, index.shards) == Fail(e)
                  case Ok(rest) => ReadShards(size, id, files, index.shards) == Ok(rows + rest)
      {
        var m := index.shards[i];
        if m.path !in files { return Fail(MissingShard); }
        var doc := files[m.path];
        if doc.id != id { return Fail(SeriesIdMismatch); }
        var actual := ShardMeta(size, m.path, m.start, doc, m.sealed);
        if actual != m { return Fail(ShardMismatch); }
        assert index.shards[i..][1..] == index.shards[i + 1..];
        match ReadShards(size, id, files, index.shards[i + 1..]) {
          case Fail(_) =>
          case Ok(rest) => assert rows + (doc.records + rest) == (rows + doc.records) + rest;
        }
        rows := rows + doc.records;
        i := i + 1;
      }
      assert index.shards[i..] == [];
      assert rows + [] == rows;
      if |rows| != index.recordCount { return Fail(CountMismatch); }
      if !AscendingDays(rows) { return Fail(NotAscending); }
      return Ok(rows);
    }

    /** The inner packing loop: move pending rows into the shard while it fits. */
    method Fill(open: Doc, rows: seq<Bar>, limits: Limits) returns (doc: Doc, pending: seq<Bar>)
      ensures var n := Packer(size, limits).Grow(open, rows);
              doc == open.Plus(rows[..n]) && pending == rows[n..]
    {
      ghost var p := Packer(size, limits);
      doc, pending := open, rows;
      ghost var k := 0;
      while pending != []
        invariant 0 <= k <= |rows| && pending == rows[k..] && doc == open.Plus(rows[..k])
        invariant p.Grow(open, rows) == p.GrowFrom(open, rows, k)
        decreases |pending|
      {
        var candidate := doc.Plus([pending[0]]);
        assert candidate == open.Plus(rows[..k + 1]);
        if |candidate.records| <= limits.records && size(candidate) <= limits.bytes {
          doc, pending := candidate, pending[1..];
          k := k + 1;
        } else {
          break;
        }
      }
    }

    /** The outer packing loop: write new shards until nothing is pending, or a
        row fits in no shard. */
    method CutShards(id: SeriesId, kept: seq<Meta>, rows: seq<Bar>, limits: Limits)
      returns (complete: bool, shards: seq<Meta>)
      modifies this
      ensures var was, packed := old(Now()), Packer(size, limits).Pack(id, SumCounts(kept), rows);
              && complete == packed.complete
              && Now() == Disk(Apply(was.files, Puts(packed.docs)), was.index)
              && trail == old(trail) + Steps(was, Puts(packed.docs))
              && (complete ==> shards == kept + Metas(size, packed.docs))
    {
      hide Packer.Pack, Packer.Grow, Packer.GrowFrom, Packer.Fits, Apply, Puts, Steps, Metas, SumCounts;
      ghost var p, was := Packer(size, limits), Now();
      NoPuts(was);
      ghost var all := p.Pack(id, SumCounts(kept), rows);
      ghost var done: seq<Doc> := [];
      var pending := rows;
      shards := kept;
      while pending != []
        invariant var rest := p.Pack(id, SumCounts(shards), pending);
                  all == Packing(done + rest.docs, rest.complete)
        invariant Now() == Disk(Apply(was.files, Puts(done)), was.index)
        invariant trail == old(trail) + Steps(was, Puts(done))
        invariant all.complete ==> shards == kept + Metas(size, all.docs)[..|done|]
        decreases |pending|
      {
        var start := SumCounts(shards);
        var doc, left := Fill(Doc(id, start, []), pending, limits);
        if doc.records == [] {
          p.PackHalt(id, start, pending);
          assert done + [] == done;
          return false, shards;
        }

        ghost var n := |pending| - |left|;
        assert doc == Doc(id, start, pending[..n]);
        p.PackStep(id, start, pending, n);
        var sealed := left != [];
        PutShard(start, doc);
        ghost var rest := p.Pack(id, start + n, left);
        assert done + ([doc] + rest.docs) == done + [doc] + rest.docs;
        PutsSnoc(was, done, doc);
        MetasStep(size, all.docs, |done|);
        if all.complete { PackEmpty(p, id, start + n, left); }
        SumSnoc(shards, ShardMeta(size, start, start, doc, sealed));
        shards := shards + [ShardMeta(size, start, start, doc, sealed)];
        done := done + [doc];
        pending := left;
      }
      p.PackNone(id, SumCounts(shards));
      assert done + [] == done && Metas(size, done)[..|done|] == Metas(size, done);
      return true, shards;
    }

    /** The write phase of `append_daily_bars`: fill the open shard, cut new
        shards, then replace the index. */
    method WriteShards(ix: Index, existing: seq<Bar>, newRows: seq<Bar>, limits: Limits, kind: Option<string>)
      returns (r: Result<WriteResult, StoreError>)
      requires newRows != []
      modifies this
      ensures var p, was := Packer(size, limits), old(Now());
              var w := Shape(p, ix, was.files, newRows);
              && Now() == AfterAppend(p, was, Write(ix, existing, newRows), kind)
              && r == (if w.complete then Ok(WriteResult(true, Some(|existing| + |newRows|))) else Fail(RowTooLarge))
              && trail == old(trail) + Steps(was, w.puts) + (if w.complete then [Now()] else [])
    {
      hide Packer.Pack, Packer.Grow, Packer.GrowFrom, Packer.Fits, Puts, Steps, Apply, Metas, SumCounts;
      ghost var p, was := Packer(size, limits), Now();
      ghost var w := Shape(p, ix, files, newRows);
      var id := ix.identity.Series();
      var shards := ix.shards;
      var pending := newRows;
      if HasOpen(ix, files) {
        var active := shards[|shards| - 1];
        var doc, left := Fill(OpenDoc(ix, files), pending, limits);
        pending := left;
        PutShard(active.path, doc);
        shards := shards[..|shards| - 1] + [ShardMeta(size, active.path, active.start, doc, pending != [])];
        assert shards == Filled(p, ix, was.files, newRows);
        ghost var rest := Puts(p.Pack(id, SumCounts(shards), pending).docs);
        ApplyCons(was.files, Put(active.path, doc), rest);
        StepsCons(was, Put(active.path, doc), rest);
      }
      var complete, all := CutShards(id, shards, pending, limits);
      if !complete { return Fail(RowTooLarge); }
      var rows := existing + newRows;
      PutIndex(NextIndex(ix, rows, all, kind, |existing|));
      return Ok(WriteResult(true, Some(|rows|)));
    }

    /** The overlap loop: skip identical rows, refuse any other row that is not later. */
    static method MergeBatch(existing: seq<Bar>, batch: seq<Bar>) returns (r: Result<seq<Bar>, StoreError>)
      ensures r == SelectNew(existing, batch)
    {
      var newRows: seq<Bar> := [];
      var i := 0;
      while i < |batch|
        invariant 0 <= i <= |batch|
        invariant SelectNew(existing, batch[..i]) == Ok(newRows)
      {
        assert batch[..i + 1][..i] == batch[..i];
        var step := Merge(existing, newRows, batch[i]);
        if step.Fail? {
          SelectNewStops(existing, batch, i + 1);
          return Fail(step.error);
        }
        newRows := step.value;
        i := i + 1;
      }
      assert batch[..|batch|] == batch;
      return Ok(newRows);
    }

    /** `append_daily_bars`. */
    method Append(identity: Identity, raw: seq<RawBar>, limits: Limits, kind: Option<string>)
      returns (r: Result<WriteResult, StoreError>)
      modifies this
      ensures var p, was := Packer(size, limits), old(Now());
              var plan := PlanAppend(size, was, identity, raw, limits);
              match plan
              case Reject(e) => r == Fail(e) && Now() == was && trail == old(trail)
              case Nothing(count) => r == Ok(WriteResult(false, count)) && Now() == was && trail == old(trail)
              case Write(ix, existing, newRows) =>
                var w := Shape(p, ix, was.files, newRows);
                && newRows != [] && Now() == AfterAppend(p, was, plan, kind)
                && r == (if w.complete then Ok(WriteResult(true, Some(|existing| + |newRows|))) else Fail(RowTooLarge))
                && trail == old(trail) + Steps(was, w.puts) + (if w.complete then [Now()] else [])
    {
      hide Prepare, SelectNew, ReadRows, Shape, AfterAppend, Steps;
      var prepared := Prepare(identity, raw);
      if prepared.Fail? { return Fail(prepared.error); }
      var batch := prepared.value;
      if batch == [] { return Ok(WriteResult(false, None)); }
      if index.Some? && index.value.identity != identity { return Fail(AffinityMismatch); }
      var ix := if index.None? then EmptyIndex(identity, limits) else index.value;
      var existing := [];
      if index.Some? {
        var loaded := ReadAll(ix);
        if loaded.Fail? { return Fail(loaded.error); }
        existing := loaded.value;
      }
      var merged := MergeBatch(existing, batch);
      if merged.Fail? { return Fail(merged.error); }
      var newRows := merged.value;
      if newRows == [] { return Ok(WriteResult(false, Some(|existing|))); }
      r := WriteShards(ix, existing, newRows, limits, kind);
    }
  }

  lemma SelectNewStops(existing: seq<Bar>, batch: seq<Bar>, i: nat)
    requires i <= |batch| && SelectNew(existing, batch[..i]).Fail?
    ensures SelectNew(existing, batch) == SelectNew(existing, batch[..i])
    decreases |batch| - i
  {
    if i == |batch| {
      assert batch[..i] == batch;
    } else {
      assert batch[..i + 1][..i] == batch[..i];
      SelectNewStops(existing, batch, i + 1);
    }
  }
}
