/** What the sharded series keeps: every append refines list concatenation, the
    shard layout depends on the rows alone, and no crash shows a mixture. */
module StoreLaws {
  import opened Bars
  import opened Shards
  import opened SeriesStore

  // ---------- the stored form ----------

  ghost predicate Entries(size: Doc -> nat, docs: seq<Doc>, metas: seq<Meta>) {
    |metas| == |docs| && forall i :: 0 <= i < |docs| ==>
      metas[i] == ShardMeta(size, docs[i].start, docs[i].start, docs[i], metas[i].sealed)
  }

  ghost predicate OnDisk(files: map<int, Doc>, docs: seq<Doc>) {
    forall d :: d in docs ==> d.start in files && files[d.start] == d
  }

  ghost predicate Bounds(index: Index, rows: seq<Bar>) {
    rows != [] && index.first == Some(rows[0].day) && index.last == Some(rows[|rows| - 1].day)
  }

  /** The disk holds exactly the rows of `docs`: contiguous non-empty shards that
      match their index entries, in strictly ascending date order. */
  ghost predicate Stored(size: Doc -> nat, disk: Disk, docs: seq<Doc>) {
    && disk.index.Some?
    && var ix := disk.index.value;
    && Contiguous(docs, ix.identity.Series(), 0)
    && Entries(size, docs, ix.shards)
    && OnDisk(disk.files, docs)
    && ix.recordCount == |Flatten(docs)|
    && Ascending(Flatten(docs))
    && Bounds(ix, Flatten(docs))
  }

  /** The form every writer of the repository leaves: the greedy cut of `rows`,
      within the limits, all shards sealed but the last. */
  ghost predicate Canonical(p: Packer, disk: Disk, rows: seq<Bar>) {
    && disk.index.Some?
    && var ix := disk.index.value; var cut := p.Pack(ix.identity.Series(), 0, rows);
    && cut.complete
    && Stored(p.size, disk, cut.docs)
    && ix.shards == Metas(p.size, cut.docs)
  }

  lemma {:induction false} ContiguousReads(size: Doc -> nat, id: SeriesId, files: map<int, Doc>, docs: seq<Doc>,
                                           metas: seq<Meta>, start: int)
    requires Contiguous(docs, id, start) && Entries(size, docs, metas) && OnDisk(files, docs)
    ensures ReadShards(size, id, files, metas) == Ok(Flatten(docs))
    decreases |docs|
  {
    if docs != [] {
      var d := docs[0];
      assert metas[0] == ShardMeta(size, d.start, d.start, d, metas[0].sealed);
      assert d in docs;
      assert Entries(size, docs[1..], metas[1..]);
      ContiguousReads(size, id, files, docs[1..], metas[1..], start + |d.records|);
    }
  }

  lemma StoredReads(size: Doc -> nat, disk: Disk, docs: seq<Doc>)
    requires Stored(size, disk, docs)
    ensures ReadDisk(size, disk) == Ok(Flatten(docs))
  {
    var ix := disk.index.value;
    ContiguousReads(size, ix.identity.Series(), disk.files, docs, ix.shards, 0);
  }

  lemma CanonicalReads(p: Packer, disk: Disk, rows: seq<Bar>)
    requires Canonical(p, disk, rows)
    ensures ReadDisk(p.size, disk) == Ok(rows) && Ascending(rows) && rows != []
  {
    var id := disk.index.value.identity.Series();
    hide *;
    CanonicalFacts(p, disk, rows);
    StoredReads(p.size, disk, p.Pack(id, 0, rows).docs);
  }

  lemma CanonicalFacts(p: Packer, disk: Disk, rows: seq<Bar>)
    requires Canonical(p, disk, rows)
    ensures disk.index.Some? && rows != [] && Ascending(rows)
    ensures var docs := p.Pack(disk.index.value.identity.Series(), 0, rows).docs;
            && Stored(p.size, disk, docs) && Flatten(docs) == rows && docs != []
            && disk.index.value.shards == Metas(p.size, docs)
  {
    hide Packer.Pack, Contiguous, Entries, OnDisk, Metas, Ascending;
    p.PackCarries(disk.index.value.identity.Series(), 0, rows);
    assert rows[..|rows|] == rows;
  }

  // ---------- appending to the stored form ----------

  lemma ContiguousCons(d: Doc, docs: seq<Doc>, id: SeriesId, start: int)
    ensures Contiguous([d] + docs, id, start) <==>
            d.id == id && d.start == start && d.records != [] && Contiguous(docs, id, start + |d.records|)
  {}

  /** A run of contiguous documents splits at any point, and joins again. */
  lemma {:induction false} ContiguousConcat(a: seq<Doc>, b: seq<Doc>, id: SeriesId, start: int)
    ensures Flatten(a + b) == Flatten(a) + Flatten(b)
    ensures Contiguous(a + b, id, start) <==> Contiguous(a, id, start) && Contiguous(b, id, start + |Flatten(a)|)
    decreases |a|
  {
    if a == [] {
      assert a + b == b;
    } else {
      hide *;
      var d, tail := a[0], a[1..];
      assert a == [d] + tail && a + b == [d] + (tail + b);
      ContiguousConcat(tail, b, id, start + |d.records|);
      ContiguousCons(d, tail, id, start);
      ContiguousCons(d, tail + b, id, start);
      FlattenCons(d, tail);
      FlattenCons(d, tail + b);
    }
  }

  lemma {:induction false} ContiguousRange(docs: seq<Doc>, id: SeriesId, start: int)
    requires Contiguous(docs, id, start)
    ensures forall d :: d in docs ==> d.id == id && start <= d.start < start + |Flatten(docs)|
    decreases |docs|
  {
    if docs != [] {
      ContiguousRange(docs[1..], id, start + |docs[0].records|);
    }
  }

  /** Writing contiguous documents stores each of them and touches no earlier file. */
  lemma {:induction false} ApplyContiguous(files: map<int, Doc>, docs: seq<Doc>, id: SeriesId, start: int)
    requires Contiguous(docs, id, start)
    ensures OnDisk(Apply(files, Puts(docs)), docs)
    ensures forall k :: k < start ==> (k in Apply(files, Puts(docs)) <==> k in files)
                                      && (k in files ==> Apply(files, Puts(docs))[k] == files[k])
    decreases |docs|
  {
    if docs != [] {
      var x, rest := Put(docs[0].start, docs[0]), docs[1..];
      assert Puts(docs) == [x] + Puts(rest);
      ApplyCons(files, x, Puts(rest));
      ApplyContiguous(files[x.path := x.doc], rest, id, start + |docs[0].records|);
    }
  }

  lemma {:induction false} SumEntries(size: Doc -> nat, docs: seq<Doc>, metas: seq<Meta>, id: SeriesId)
    requires Contiguous(docs, id, 0) && Entries(size, docs, metas)
    ensures SumCounts(metas) == |Flatten(docs)|
    decreases |docs|
  {
    if docs != [] {
      var init, d := docs[..|docs| - 1], docs[|docs| - 1];
      assert docs == init + [d];
      ContiguousConcat(init, [d], id, 0);
      assert Entries(size, init, metas[..|docs| - 1]);
      SumEntries(size, init, metas[..|docs| - 1], id);
      assert Flatten([d]) == d.records by { FlattenCons(d, []); FlattenNone(); assert [d] + [] == [d]; }
    }
  }

  /** The documents an append rewrites: the open shard, if any, and the new ones. */
  ghost function Recut(p: Packer, id: SeriesId, docs: seq<Doc>, open: bool, newRows: seq<Bar>): Packing
    requires open ==> docs != []
  {
    if open then p.Extend(docs[|docs| - 1], newRows) else p.Pack(id, |Flatten(docs)|, newRows)
  }

  ghost function Kept(docs: seq<Doc>, open: bool): seq<Doc>
    requires open ==> docs != []
  {
    if open then docs[..|docs| - 1] else docs
  }

  lemma ExtendUnfold(p: Packer, open: Doc, rows: seq<Bar>)
    ensures var n := p.Grow(open, rows);
            var rest := p.Pack(open.id, open.start + |open.records| + n, rows[n..]);
            p.Extend(open, rows) == Packing([open.Plus(rows[..n])] + rest.docs, rest.complete)
  {}

  lemma MetasCons(size: Doc -> nat, d: Doc, docs: seq<Doc>)
    ensures Metas(size, [d] + docs) == [ShardMeta(size, d.start, d.start, d, docs != [])] + Metas(size, docs)
  {}

  /** On a stored disk the writer's plan is: keep the closed shards, rewrite the rest. */
  lemma ShapeStored(p: Packer, disk: Disk, docs: seq<Doc>, newRows: seq<Bar>)
    requires Stored(p.size, disk, docs)
    ensures var ix := disk.index.value; var open := HasOpen(ix, disk.files); var id := ix.identity.Series();
            && docs != []
            && var w := Shape(p, ix, disk.files, newRows); var e := Recut(p, id, docs, open, newRows);
            && w.puts == Puts(e.docs) && w.complete == e.complete
            && (w.complete ==> w.shards == ix.shards[..|Kept(docs, open)|] + Metas(p.size, e.docs))
  {
    hide Packer.Grow, Packer.GrowFrom, Packer.Fits, Packer.Pack, Packer.Extend;
    var ix := disk.index.value;
    var id := ix.identity.Series();
    assert docs != [] by { if docs == [] { FlattenNone(); } }
    if HasOpen(ix, disk.files) {
      ShapeOpen(p, disk, docs, newRows);
    } else {
      SumEntries(p.size, docs, ix.shards, id);
      assert ix.shards[..|docs|] == ix.shards;
    }
  }

  lemma FilledStored(p: Packer, disk: Disk, docs: seq<Doc>, newRows: seq<Bar>)
    requires Stored(p.size, disk, docs) && docs != [] && HasOpen(disk.index.value, disk.files)
    ensures var ix := disk.index.value; var d := docs[|docs| - 1]; var n := p.Grow(d, newRows);
            && OpenDoc(ix, disk.files) == d
            && |ix.shards| == |docs| && ix.shards[|docs| - 1].path == d.start
            && Filled(p, ix, disk.files, newRows)
               == ix.shards[..|docs| - 1]
                  + [ShardMeta(p.size, d.start, d.start, d.Plus(newRows[..n]), n < |newRows|)]
            && SumCounts(Filled(p, ix, disk.files, newRows)) == d.start + |d.records| + n
  {
    hide Packer.Grow, Packer.GrowFrom, Packer.Fits, Packer.Pack, Packer.Extend, SumCounts, Contiguous, Flatten, Entries,
         OnDisk, Ascending;
    var ix := disk.index.value;
    LastShard(p.size, disk, docs);
    var kept := Filled(p, ix, disk.files, newRows);
    assert kept == ix.shards[..|docs| - 1] + [kept[|kept| - 1]];
    SumSnoc(ix.shards[..|docs| - 1], kept[|kept| - 1]);
  }

  lemma LastShard(size: Doc -> nat, disk: Disk, docs: seq<Doc>)
    requires Stored(size, disk, docs) && docs != []
    ensures var ix := disk.index.value; var d := docs[|docs| - 1];
            && |ix.shards| == |docs| && d.start in disk.files && disk.files[d.start] == d
            && d.id == ix.identity.Series()
            && ix.shards[|docs| - 1] == ShardMeta(size, d.start, d.start, d, ix.shards[|docs| - 1].sealed)
            && SumCounts(ix.shards[..|docs| - 1]) == d.start
  {
    hide SumCounts, Ascending, Contiguous, Flatten, Bounds;
    var ix := disk.index.value;
    var id := ix.identity.Series();
    var init, d := docs[..|docs| - 1], docs[|docs| - 1];
    assert docs == init + [d] && d in docs && [d] == [d] + [];
    ContiguousConcat(init, [d], id, 0);
    ContiguousCons(d, [], id, |Flatten(init)|);
    SumEntries(size, init, ix.shards[..|docs| - 1], id);
  }

  lemma ShapeOpen(p: Packer, disk: Disk, docs: seq<Doc>, newRows: seq<Bar>)
    requires Stored(p.size, disk, docs) && docs != [] && HasOpen(disk.index.value, disk.files)
    ensures var ix := disk.index.value;
            var w := Shape(p, ix, disk.files, newRows); var e := p.Extend(docs[|docs| - 1], newRows);
            && w.puts == Puts(e.docs) && w.complete == e.complete && |ix.shards| == |docs|
            && (w.complete ==> w.shards == ix.shards[..|docs| - 1] + Metas(p.size, e.docs))
  {
    hide Packer.Grow, Packer.GrowFrom, Packer.Fits, Packer.Pack, Packer.Extend, SumCounts, Metas, Puts, Filled,
         OpenDoc, Contiguous, Flatten, Entries;
    FilledStored(p, disk, docs, newRows);
    var d := docs[|docs| - 1];
    assert d.id == disk.index.value.identity.Series() by { ContiguousRange(docs, disk.index.value.identity.Series(), 0); }
    var n := p.Grow(d, newRows);
    ExtendUnfold(p, d, newRows);
    var rest := p.Pack(d.id, d.start + |d.records| + n, newRows[n..]);
    PutsCons(d.Plus(newRows[..n]), rest.docs);
    MetasCons(p.size, d.Plus(newRows[..n]), rest.docs);
    if rest.complete { PackEmpty(p, d.id, d.start + |d.records| + n, newRows[n..]); }
  }

  lemma PutsCons(d: Doc, docs: seq<Doc>)
    ensures Puts([d] + docs) == [Put(d.start, d)] + Puts(docs)
  {}

  // ---------- which rows an append takes ----------

  predicate Later(existing: seq<Bar>, b: Bar) {
    existing == [] || existing[|existing| - 1].day < b.day
  }

  /** An append succeeds exactly when every row of the batch is either already
      stored unchanged or later than the whole series; it then takes the rows
      not yet stored, and the series stays strictly ascending. */
  lemma {:induction false} SelectNewMeaning(existing: seq<Bar>, batch: seq<Bar>)
    requires Ascending(existing) && Ascending(batch)
    ensures SelectNew(existing, batch).Ok? <==> forall b :: b in batch ==> b in existing || Later(existing, b)
    ensures SelectNew(existing, batch).Ok? ==>
            var rows := SelectNew(existing, batch).value;
            Ascending(existing + rows) && forall b :: b in rows <==> b in batch && b !in existing
    decreases |batch|
  {
    if batch == [] {
      assert existing + [] == existing;
    } else {
      var init, b := batch[..|batch| - 1], batch[|batch| - 1];
      assert batch == init + [b];
      SelectNewMeaning(existing, init);
      var before := SelectNew(existing, init);
      if before.Ok? {
        MergeMeaning(existing, init, before.value, b);
      }
    }
  }

  lemma MergeMeaning(existing: seq<Bar>, init: seq<Bar>, rows: seq<Bar>, b: Bar)
    requires Ascending(existing) && Ascending(init + [b]) && Ascending(existing + rows)
    requires forall x :: x in rows <==> x in init && x !in existing
    ensures var r := Merge(existing, rows, b);
            && (r.Ok? <==> b in existing || Later(existing, b))
            && (r.Ok? ==> Ascending(existing + r.value)
                          && forall x :: x in r.value <==> x in init + [b] && x !in existing)
  {
    if b in existing { FindMember(existing, b); }
    if rows != [] {
      var last := rows[|rows| - 1];
      assert last in init;
      var i :| 0 <= i < |init| && init[i] == last;
      assert (init + [b])[i].day < (init + [b])[|init|].day;
    }
    if existing != [] {
      var z := existing[|existing| - 1];
      forall x | x in existing ensures x.day <= z.day {
        var i :| 0 <= i < |existing| && existing[i] == x;
      }
    }
    var r := Merge(existing, rows, b);
    if r.Ok? && b !in existing {
      assert r.value == rows + [b];
      assert existing + (rows + [b]) == (existing + rows) + [b];
      AscendingSnoc(existing + rows, b);
    }
  }

  lemma AscendingSnoc(rows: seq<Bar>, b: Bar)
    requires Ascending(rows) && (rows != [] ==> rows[|rows| - 1].day < b.day)
    ensures Ascending(rows + [b])
  {}

  lemma PrepareMeaning(identity: Identity, raw: seq<RawBar>)
    requires Prepare(identity, raw).Ok?
    ensures Ascending(Prepare(identity, raw).value)
    ensures forall b :: b in Prepare(identity, raw).value ==>
              WellFormed(b) && (identity.effective.Some? ==> identity.effective.value <= b.day)
  {
    var batch := Prepare(identity, raw).value;
    DaysCount(batch);
    forall b | b in batch ensures WellFormed(b) {
      assert b in NormalizeAll(raw).value;
    }
  }

  /** An append that passes its checks has rows to add, all later than the series. */
  lemma PlanMeaning(size: Doc -> nat, disk: Disk, identity: Identity, raw: seq<RawBar>, limits: Limits)
    requires PlanAppend(size, disk, identity, raw, limits).Write?
    ensures var plan := PlanAppend(size, disk, identity, raw, limits);
            && plan.newRows != [] && plan.index.identity == identity
            && Ascending(plan.existing + plan.newRows)
            && (forall b :: b in plan.newRows ==> WellFormed(b))
            && (disk.index.None? ==> plan.existing == [] && plan.index == EmptyIndex(identity, limits))
            && (disk.index.Some? ==> ReadDisk(size, disk) == Ok(plan.existing) && plan.index == disk.index.value)
  {
    PrepareMeaning(identity, raw);
    var plan := PlanAppend(size, disk, identity, raw, limits);
    SelectNewMeaning(plan.existing, Prepare(identity, raw).value);
  }

  // ---------- what an append does, said of the batch ----------

  /** The batch may enter the Store: regular session, clean rows, one a day, none before the
      effective date. */
  ghost predicate Enters(identity: Identity, raw: seq<RawBar>) {
    && identity.session == "regular" && (forall x :: x in raw ==> Clean(x))
    && (forall i, j :: 0 <= i < j < |raw| ==> raw[i].date != raw[j].date)
    && (identity.effective.Some? ==> forall x :: x in raw ==> x.date.Day? && identity.effective.value <= x.date.day)
  }

  /** There is no series yet, or one of this identity that reads. */
  ghost predicate Joins(size: Doc -> nat, disk: Disk, identity: Identity) {
    disk.index.Some? ==> disk.index.value.identity == identity && ReadDisk(size, disk).Ok?
  }

  /** The rows stored so far. */
  function Known(size: Doc -> nat, disk: Disk): seq<Bar> {
    if disk.index.Some? && ReadDisk(size, disk).Ok? then ReadDisk(size, disk).value else []
  }

  /** The row is stored unchanged, or later than every stored row. */
  ghost predicate StoredOrLater(existing: seq<Bar>, b: Bar) { b in existing || forall y :: y in existing ==> y.day < b.day }

  /** The row a raw one becomes. */
  ghost predicate Becomes(raw: seq<RawBar>, b: Bar) { exists x :: x in raw && Normalize(x) == Ok(b) }

  lemma {:induction false} NormalizesAll(raw: seq<RawBar>)
    ensures NormalizeAll(raw).Ok? <==> forall x :: x in raw ==> Clean(x)
    ensures NormalizeAll(raw).Ok? ==> forall b :: b in NormalizeAll(raw).value <==> Becomes(raw, b)
  {
    if raw != [] {
      NormalizesAll(raw[1..]);
      assert forall x :: x in raw <==> x == raw[0] || x in raw[1..];
      if NormalizeAll(raw).Ok? {
        var rows, rest := NormalizeAll(raw).value, NormalizeAll(raw[1..]).value;
        assert rows == [Normalize(raw[0]).value] + rest;
        forall b ensures b in rows <==> Becomes(raw, b) {
          if b in rest { var x :| x in raw[1..] && Normalize(x) == Ok(b); }
        }
      }
    }
  }

  /** The batch that enters: the rows of the raw one, in strict date order. */
  lemma PrepareIff(identity: Identity, raw: seq<RawBar>)
    ensures Prepare(identity, raw).Ok? <==> Enters(identity, raw)
    ensures Prepare(identity, raw).Ok? ==>
              var batch := Prepare(identity, raw).value;
              Ascending(batch) && (batch == [] <==> raw == []) && forall b :: b in batch <==> Becomes(raw, b)
  {
    hide Normalize, Clean, SortByDay, NormalizeAll, Becomes, Days, AnyBefore, DistinctDays;
    NormalizesAll(raw);
    if NormalizeAll(raw).Ok? {
      var rows := NormalizeAll(raw).value;
      SortedRows(rows);
      DaysCount(SortByDay(rows));
      PreparedDays(identity, raw, rows);
      if DistinctDays(SortByDay(rows)) { DistinctAscends(SortByDay(rows)); }
    }
  }

  lemma DistinctAscends(rows: seq<Bar>)
    requires Sorted(rows) && DistinctDays(rows)
    ensures Ascending(rows)
  {}

  lemma {:induction false} PreparedDays(identity: Identity, raw: seq<RawBar>, rows: seq<Bar>)
    requires |raw| == |rows| && forall i :: 0 <= i < |raw| ==> raw[i].date == Day(rows[i].day)
    ensures DistinctDays(rows) <==> forall i, j :: 0 <= i < j < |raw| ==> raw[i].date != raw[j].date
    ensures AnyBefore(SortByDay(rows), identity.effective) <==>
              identity.effective.Some? && exists x :: x in raw && x.date.Day? && x.date.day < identity.effective.value
  {
    hide SortByDay;
    if identity.effective.Some? {
      forall b | b in rows && b.day < identity.effective.value
        ensures exists x :: x in raw && x.date.Day? && x.date.day < identity.effective.value {
        var i :| 0 <= i < |rows| && rows[i] == b;
        assert raw[i] in raw;
      }
      forall x | x in raw && x.date.Day? && x.date.day < identity.effective.value
        ensures exists b :: b in rows && b.day < identity.effective.value {
        var i :| 0 <= i < |raw| && raw[i] == x;
        assert rows[i] in rows;
      }
    }
  }

  /** An append is refused, does nothing, or writes, and when: it writes exactly when the batch
      may enter, the series is this one and reads, every row is stored unchanged or later,
      and some row is not stored. The new rows are then exactly those not stored. */
  lemma PlanIff(size: Doc -> nat, disk: Disk, identity: Identity, raw: seq<RawBar>, limits: Limits)
    ensures var plan, existing := PlanAppend(size, disk, identity, raw, limits), Known(size, disk);
            var fitting := Joins(size, disk, identity) && forall b :: Becomes(raw, b) ==> StoredOrLater(existing, b);
            && (plan.Reject? <==> !Enters(identity, raw) || (raw != [] && !fitting))
            && (plan.Nothing? <==> Enters(identity, raw)
                                   && (raw == [] || (fitting && forall b :: Becomes(raw, b) ==> b in existing)))
            && (plan.Nothing? ==> plan.count == if raw == [] then None else Some(|existing|))
            && (plan.Write? <==> Enters(identity, raw) && raw != [] && fitting && exists b :: Becomes(raw, b) && b !in existing)
            && (plan.Write? ==>
                  && plan.existing == existing && Ascending(plan.newRows)
                  && (forall b :: b in plan.newRows <==> Becomes(raw, b) && b !in existing)
                  && plan.index == if disk.index.Some? then disk.index.value
                                   else Index(identity, 0, None, None, limits, [], []))
  {
    PrepareIff(identity, raw);
    if Enters(identity, raw) && raw != [] && Joins(size, disk, identity) {
      var batch, existing := Prepare(identity, raw).value, Known(size, disk);
      KnownAscends(size, disk);
      SelectNewMeaning(existing, batch);
      LaterMeans(existing);
      var picked := SelectNew(existing, batch);
      PlanFrom(size, disk, identity, raw, limits);
      hide *;
      if picked.Ok? {
        AscendingTail(existing, picked.value);
        if picked.value != [] { assert picked.value[0] in picked.value; }
      }
    } else {
      hide Enters, Prepare, Becomes, SelectNew, ReadRows;
    }
  }

  lemma KnownAscends(size: Doc -> nat, disk: Disk)
    ensures Ascending(Known(size, disk))
  {}

  lemma LaterMeans(existing: seq<Bar>)
    requires Ascending(existing)
    ensures forall b :: StoredOrLater(existing, b) <==> b in existing || Later(existing, b)
  {
    if existing != [] {
      var last := existing[|existing| - 1];
      forall y | y in existing ensures y.day <= last.day {
        var i :| 0 <= i < |existing| && existing[i] == y;
      }
    }
  }

  lemma AscendingTail(a: seq<Bar>, b: seq<Bar>)
    requires Ascending(a + b)
    ensures Ascending(b)
  {
    forall i, j | 0 <= i < j < |b| ensures b[i].day < b[j].day {
      assert (a + b)[|a| + i].day < (a + b)[|a| + j].day;
    }
  }

  lemma PlanFrom(size: Doc -> nat, disk: Disk, identity: Identity, raw: seq<RawBar>, limits: Limits)
    requires Prepare(identity, raw).Ok? && Prepare(identity, raw).value != [] && Joins(size, disk, identity)
    ensures var existing := Known(size, disk);
            match SelectNew(existing, Prepare(identity, raw).value)
            case Fail(e) => PlanAppend(size, disk, identity, raw, limits) == Reject(e)
            case Ok(newRows) =>
              PlanAppend(size, disk, identity, raw, limits)
              == if newRows == [] then Nothing(Some(|existing|))
                 else Write(if disk.index.Some? then disk.index.value else Index(identity, 0, None, None, limits, [], []),
                            existing, newRows)
  {
    hide Prepare, SelectNew, ReadRows;
  }

  // ---------- append refines concatenation ----------

  /** A completed append onto a stored series stores the old rows followed by the
      new ones: reading returns `existing ++ new`. */
  lemma AppendStored(p: Packer, disk: Disk, docs: seq<Doc>, newRows: seq<Bar>, kind: Option<string>)
    requires Stored(p.size, disk, docs)
    requires newRows != [] && Ascending(Flatten(docs) + newRows)
    requires Shape(p, disk.index.value, disk.files, newRows).complete
    ensures var after := AfterAppend(p, disk, Write(disk.index.value, Flatten(docs), newRows), kind);
            ReadDisk(p.size, after) == Ok(Flatten(docs) + newRows)
    ensures var after := AfterAppend(p, disk, Write(disk.index.value, Flatten(docs), newRows), kind);
            exists docs' :: Stored(p.size, after, docs') && Flatten(docs') == Flatten(docs) + newRows
  {
    var ix := disk.index.value;
    var id := ix.identity.Series();
    var after := AfterAppend(p, disk, Write(ix, Flatten(docs), newRows), kind);
    ShapeStored(p, disk, docs, newRows);
    var open := HasOpen(ix, disk.files);
    var kept, e := Kept(docs, open), Recut(p, id, docs, open, newRows);
    hide Contiguous, Flatten, Apply, Puts, Packer.Pack, Packer.Extend, Entries, OnDisk, Ascending, Metas, ReadDisk, HasOpen;
    RecutShape(p, disk, docs, open, newRows);
    StoredAfter(p.size, disk, docs, kept, e.docs, newRows, after);
    StoredReads(p.size, after, kept + e.docs);
  }

  lemma RecutShape(p: Packer, disk: Disk, docs: seq<Doc>, open: bool, newRows: seq<Bar>)
    requires Stored(p.size, disk, docs) && docs != []
    requires var id := disk.index.value.identity.Series(); Recut(p, id, docs, open, newRows).complete
    ensures var id := disk.index.value.identity.Series();
            var kept, e := Kept(docs, open), Recut(p, id, docs, open, newRows).docs;
            && Contiguous(e, id, |Flatten(kept)|)
            && Flatten(kept + e) == Flatten(docs) + newRows
            && (open ==> e != [])
  {
    hide Packer.Pack, Packer.Extend, Contiguous, Flatten, Packer.Grow, Packer.GrowFrom, Packer.Fits, Entries, OnDisk,
         Ascending, Bounds;
    var id := disk.index.value.identity.Series();
    var e := Recut(p, id, docs, open, newRows).docs;
    if open {
      var init, d := docs[..|docs| - 1], docs[|docs| - 1];
      assert docs == init + [d];
      assert [d] + [] == [d];
      ContiguousConcat(init, [d], id, 0);
      ContiguousCons(d, [], id, |Flatten(init)|);
      FlattenCons(d, []);
      FlattenNone();
      ExtendShape(p, d, newRows);
      ContiguousConcat(init, e, id, 0);
      assert Flatten(init) + (d.records + newRows) == Flatten(docs) + newRows;
    } else {
      p.PackShape(id, |Flatten(docs)|, newRows);
      p.PackCarries(id, |Flatten(docs)|, newRows);
      ContiguousConcat(docs, e, id, 0);
    }
  }

  /** Extending an open shard leaves its rows first, in contiguous shards from where it started. */
  lemma ExtendShape(p: Packer, d: Doc, newRows: seq<Bar>)
    requires p.Extend(d, newRows).complete && d.records != []
    ensures var e := p.Extend(d, newRows).docs;
            e != [] && Contiguous(e, d.id, d.start) && Flatten(e) == d.records + newRows
  {
    hide *;
    ExtendUnfold(p, d, newRows);
    var n := p.Grow(d, newRows);
    var at := d.start + |d.records| + n;
    p.PackShape(d.id, at, newRows[n..]);
    p.PackCarries(d.id, at, newRows[n..]);
    var rest := p.Pack(d.id, at, newRows[n..]).docs;
    var d' := d.Plus(newRows[..n]);
    assert d'.records == d.records + newRows[..n] && d'.id == d.id && d'.start == d.start by { PlusFields(d, newRows[..n]); }
    ContiguousCons(d', rest, d.id, d.start);
    FlattenCons(d', rest);
    assert newRows[..n] + newRows[n..] == newRows;
    assert d.records + newRows[..n] + newRows[n..] == d.records + newRows;
  }

  lemma PlusFields(d: Doc, rows: seq<Bar>)
    ensures d.Plus(rows).records == d.records + rows && d.Plus(rows).id == d.id && d.Plus(rows).start == d.start
  {}

  lemma StoredAfter(size: Doc -> nat, disk: Disk, docs: seq<Doc>, kept: seq<Doc>, e: seq<Doc>, newRows: seq<Bar>,
                    after: Disk)
    requires Stored(size, disk, docs) && kept <= docs
    requires var ix := disk.index.value; var id := ix.identity.Series();
             && Contiguous(e, id, |Flatten(kept)|) && Flatten(kept + e) == Flatten(docs) + newRows
             && newRows != [] && Ascending(Flatten(docs) + newRows)
             && after.files == Apply(disk.files, Puts(e)) && |ix.shards| == |docs|
             && exists kind :: after.index == Some(NextIndex(ix, Flatten(docs) + newRows,
                                                             ix.shards[..|kept|] + Metas(size, e), kind, |Flatten(docs)|))
    ensures Stored(size, after, kept + e)
  {
    hide Contiguous, Flatten, Puts, Apply, ShardMeta, Metas, OnDisk, Entries, Ascending;
    var ix := disk.index.value;
    var id := ix.identity.Series();
    assert docs == kept + docs[|kept|..];
    ContiguousConcat(kept, docs[|kept|..], id, 0);
    ContiguousConcat(kept, e, id, 0);
    KeptOnDisk(disk.files, docs, kept, e, id);
    KeptEntries(size, docs, kept, e, ix.shards);
  }

  lemma KeptOnDisk(files: map<int, Doc>, docs: seq<Doc>, kept: seq<Doc>, e: seq<Doc>, id: SeriesId)
    requires OnDisk(files, docs) && kept <= docs && Contiguous(kept, id, 0) && Contiguous(e, id, |Flatten(kept)|)
    ensures OnDisk(Apply(files, Puts(e)), kept + e)
  {
    hide Contiguous, Flatten, Puts, Apply;
    ContiguousRange(kept, id, 0);
    ApplyContiguous(files, e, id, |Flatten(kept)|);
  }

  lemma KeptEntries(size: Doc -> nat, docs: seq<Doc>, kept: seq<Doc>, e: seq<Doc>, shards: seq<Meta>)
    requires Entries(size, docs, shards) && kept <= docs && |shards| == |docs|
    ensures Entries(size, kept + e, shards[..|kept|] + Metas(size, e))
  {}

  // ---------- the layout depends on the rows alone ----------

  /** Appending to a canonical series completes exactly when the whole list can be
      cut at once, and the result is the canonical form of the whole list. */
  lemma AppendCanonical(p: Packer, disk: Disk, rows: seq<Bar>, newRows: seq<Bar>, kind: Option<string>)
    requires Canonical(p, disk, rows)
    requires newRows != [] && Ascending(rows + newRows)
    ensures var id := disk.index.value.identity.Series();
            Shape(p, disk.index.value, disk.files, newRows).complete <==> p.Pack(id, 0, rows + newRows).complete
    ensures Shape(p, disk.index.value, disk.files, newRows).complete ==>
            Canonical(p, AfterAppend(p, disk, Write(disk.index.value, rows, newRows), kind), rows + newRows)
  {
    var ix := disk.index.value;
    var id := ix.identity.Series();
    hide *;
    CanonicalFacts(p, disk, rows);
    var docs := p.Pack(id, 0, rows).docs;
    ShapeStored(p, disk, docs, newRows);
    LastOpen(p.size, disk, docs);
    RecutOpen(p, id, docs, newRows);
    p.PackResume(id, 0, rows, newRows);
    if p.Extend(docs[|docs| - 1], newRows).complete {
      RecutShape(p, disk, docs, true, newRows);
      AfterWrite(p, disk, ix, rows, newRows, kind);
      CanonicalAfter(p, disk, docs, rows, newRows, kind);
    }
  }

  lemma AfterWrite(p: Packer, disk: Disk, ix: Index, existing: seq<Bar>, newRows: seq<Bar>, kind: Option<string>)
    requires newRows != [] && Shape(p, ix, disk.files, newRows).complete
    ensures var after := AfterAppend(p, disk, Write(ix, existing, newRows), kind);
            var w := Shape(p, ix, disk.files, newRows);
            && after.files == Apply(disk.files, w.puts)
            && after.index == Some(NextIndex(ix, existing + newRows, w.shards, kind, |existing|))
  {}

  lemma CanonicalAfter(p: Packer, disk: Disk, docs: seq<Doc>, rows: seq<Bar>, newRows: seq<Bar>, kind: Option<string>)
    requires Stored(p.size, disk, docs) && docs != [] && Flatten(docs) == rows
    requires disk.index.value.shards == Metas(p.size, docs) && newRows != [] && Ascending(rows + newRows)
    requires var ix := disk.index.value; var id := ix.identity.Series();
             var e := p.Extend(docs[|docs| - 1], newRows);
             var w := Shape(p, ix, disk.files, newRows);
             && e.complete && w.complete && w.puts == Puts(e.docs) && e.docs != []
             && w.shards == ix.shards[..|docs| - 1] + Metas(p.size, e.docs)
             && Contiguous(e.docs, id, |Flatten(docs[..|docs| - 1])|)
             && Flatten(docs[..|docs| - 1] + e.docs) == rows + newRows
             && p.Pack(id, 0, rows + newRows) == Packing(docs[..|docs| - 1] + e.docs, true)
    ensures Canonical(p, AfterAppend(p, disk, Write(disk.index.value, rows, newRows), kind), rows + newRows)
  {
    var ix := disk.index.value;
    hide Packer.Pack, Packer.Extend, Contiguous, Flatten, Shape, Puts, Apply, Metas, Stored, AfterAppend;
    var e := p.Extend(docs[|docs| - 1], newRows);
    var after := AfterAppend(p, disk, Write(ix, rows, newRows), kind);
    AfterWrite(p, disk, ix, rows, newRows, kind);
    MetasJoin(p.size, docs, e.docs);
    StoredEntries(p.size, disk, docs);
    StoredAfter(p.size, disk, docs, docs[..|docs| - 1], e.docs, newRows, after);
  }

  lemma StoredEntries(size: Doc -> nat, disk: Disk, docs: seq<Doc>)
    requires Stored(size, disk, docs)
    ensures disk.index.Some? && |disk.index.value.shards| == |docs|
  {}

  lemma LastOpen(size: Doc -> nat, disk: Disk, docs: seq<Doc>)
    requires Stored(size, disk, docs) && docs != [] && disk.index.value.shards == Metas(size, docs)
    ensures HasOpen(disk.index.value, disk.files)
  {}

  lemma RecutOpen(p: Packer, id: SeriesId, docs: seq<Doc>, newRows: seq<Bar>)
    requires docs != []
    ensures Recut(p, id, docs, true, newRows) == p.Extend(docs[|docs| - 1], newRows)
  {}

  lemma MetasJoin(size: Doc -> nat, docs: seq<Doc>, e: seq<Doc>)
    requires docs != [] && e != []
    ensures Metas(size, docs)[..|docs| - 1] + Metas(size, e) == Metas(size, docs[..|docs| - 1] + e)
  {}

  /** The first append of a series is canonical too, whatever stray files a crash left. */
  lemma FirstAppendCanonical(p: Packer, disk: Disk, ix: Index, newRows: seq<Bar>, kind: Option<string>)
    requires disk.index.None? && ix.shards == [] && newRows != [] && Ascending(newRows)
    ensures var id := ix.identity.Series(); var w := Shape(p, ix, disk.files, newRows);
            && w.complete == p.Pack(id, 0, newRows).complete
            && (w.complete ==> Canonical(p, AfterAppend(p, disk, Write(ix, [], newRows), kind), newRows))
  {
    var id := ix.identity.Series();
    var cut := p.Pack(id, 0, newRows);
    hide *;
    ShapeFirst(p, disk, ix, newRows);
    if cut.complete {
      AfterWrite(p, disk, ix, [], newRows, kind);
      p.PackShape(id, 0, newRows);
      p.PackCarries(id, 0, newRows);
      assert [] + newRows == newRows;
      assert newRows[..|newRows|] == newRows;
      ApplyContiguous(disk.files, cut.docs, id, 0);
      CanonicalFirst(p, AfterAppend(p, disk, Write(ix, [], newRows), kind), ix, newRows, kind);
    }
  }

  lemma ShapeFirst(p: Packer, disk: Disk, ix: Index, newRows: seq<Bar>)
    requires ix.shards == []
    ensures var cut := p.Pack(ix.identity.Series(), 0, newRows);
            Shape(p, ix, disk.files, newRows) == WriteSet(Puts(cut.docs), Metas(p.size, cut.docs), cut.complete)
  {}

  lemma CanonicalFirst(p: Packer, after: Disk, ix: Index, rows: seq<Bar>, kind: Option<string>)
    requires rows != [] && Ascending(rows)
    requires var cut := p.Pack(ix.identity.Series(), 0, rows);
             && cut.complete && Flatten(cut.docs) == rows && Contiguous(cut.docs, ix.identity.Series(), 0)
             && OnDisk(after.files, cut.docs)
             && after.index == Some(NextIndex(ix, rows, Metas(p.size, cut.docs), kind, 0))
    ensures Canonical(p, after, rows)
  {}

  /** Two canonical disks with the same rows have the same index entries and the
      same shard files, however the rows arrived. */
  lemma CanonicalUnique(p: Packer, one: Disk, two: Disk, rows: seq<Bar>)
    requires Canonical(p, one, rows) && Canonical(p, two, rows)
    requires one.index.value.identity.Series() == two.index.value.identity.Series()
    ensures var a, b := one.index.value, two.index.value;
            && a.shards == b.shards && a.recordCount == b.recordCount && a.first == b.first && a.last == b.last
    ensures forall m :: m in one.index.value.shards ==>
              m.path in one.files && m.path in two.files && one.files[m.path] == two.files[m.path]
  {}

  /** Appending `a` then `b` succeeds exactly when appending `a + b` at once does,
      and then both leave the same shards, files and bounds. */
  lemma AppendTwice(p: Packer, disk: Disk, rows: seq<Bar>, a: seq<Bar>, b: seq<Bar>, kind: Option<string>)
    requires Canonical(p, disk, rows)
    requires a != [] && b != [] && Ascending(rows + a + b)
    ensures var ix := disk.index.value;
            var mid := AfterAppend(p, disk, Write(ix, rows, a), kind);
            var both := Shape(p, ix, disk.files, a + b).complete;
            && (both ==> Shape(p, ix, disk.files, a).complete)
            && (Shape(p, ix, disk.files, a).complete ==>
                mid.index.Some? && (both <==> Shape(p, mid.index.value, mid.files, b).complete))
            && (both ==> mid.index.Some?
                         && Canonical(p, AfterAppend(p, disk, Write(ix, rows, a + b), kind), rows + a + b)
                         && Canonical(p, AfterAppend(p, mid, Write(mid.index.value, rows + a, b), kind), rows + a + b))
  {
    var ix := disk.index.value;
    var id := ix.identity.Series();
    hide Packer.Pack, Shape, Canonical;
    assert rows + a + b == rows + (a + b);
    assert Ascending(rows + a) by {
      forall i, j | 0 <= i < j < |rows + a| ensures (rows + a)[i].day < (rows + a)[j].day {
        assert (rows + a)[i] == (rows + a + b)[i] && (rows + a)[j] == (rows + a + b)[j];
      }
    }
    AppendCanonical(p, disk, rows, a, kind);
    AppendCanonical(p, disk, rows, a + b, kind);
    if p.Pack(id, 0, rows + a).complete {
      var mid := AfterAppend(p, disk, Write(ix, rows, a), kind);
      AppendCanonical(p, mid, rows + a, b, kind);
    } else {
      p.PackStuck(id, 0, rows + a, b);
    }
  }

  // ---------- crashes ----------

  /** Shard digests pin contents: two readable disks with one index hold the same rows. */
  lemma {:induction false} SameEntriesSameRows(size: Doc -> nat, id: SeriesId, f: map<int, Doc>, g: map<int, Doc>,
                                               metas: seq<Meta>)
    requires ReadShards(size, id, f, metas).Ok? && ReadShards(size, id, g, metas).Ok?
    ensures ReadShards(size, id, f, metas) == ReadShards(size, id, g, metas)
    decreases |metas|
  {
    if metas != [] {
      SameEntriesSameRows(size, id, f, g, metas[1..]);
    }
  }

  /** A disk that still carries the old index reads as the old rows or not at all. */
  lemma OldIndexOldRows(size: Doc -> nat, before: Disk, crashed: Disk)
    requires crashed.index == before.index
    requires ReadDisk(size, before).Ok? || before.index.None?
    ensures ReadDisk(size, crashed).Fail? || ReadDisk(size, crashed) == ReadDisk(size, before)
  {
    if before.index.Some? && ReadDisk(size, crashed).Ok? {
      var ix := before.index.value;
      SameEntriesSameRows(size, ix.identity.Series(), before.files, crashed.files, ix.shards);
    }
  }

  /** No torn read: stop an append after any number of its writes. The next reader fails,
      or returns exactly the old rows, or, after the last write, exactly the new list. */
  lemma AppendNeverTorn(p: Packer, before: Disk, docs: seq<Doc>, identity: Identity, raw: seq<RawBar>, kind: Option<string>,
                        crashed: Disk)
    requires before.index.Some? ==> Stored(p.size, before, docs)
    requires var plan := PlanAppend(p.size, before, identity, raw, p.limits);
             plan.Write? && plan.newRows != []
             && var w := Shape(p, plan.index, before.files, plan.newRows);
             crashed in Steps(before, w.puts) + (if w.complete then [AfterAppend(p, before, plan, kind)] else [])
    ensures var plan := PlanAppend(p.size, before, identity, raw, p.limits);
            var w := Shape(p, plan.index, before.files, plan.newRows);
            || ReadDisk(p.size, crashed).Fail?
            || (before.index.Some? && ReadDisk(p.size, crashed) == Ok(plan.existing))
            || (w.complete && crashed == AfterAppend(p, before, plan, kind)
                && ReadDisk(p.size, crashed) == Ok(plan.existing + plan.newRows))
  {
    var plan := PlanAppend(p.size, before, identity, raw, p.limits);
    var w := Shape(p, plan.index, before.files, plan.newRows);
    PlanMeaning(p.size, before, identity, raw, p.limits);
    if crashed in Steps(before, w.puts) {
      StepIndex(before, w.puts, crashed);
      OldIndexOldRows(p.size, before, crashed);
    } else {
      FinishedReads(p, before, docs, plan, kind);
    }
  }

  lemma StepIndex(disk: Disk, puts: seq<Put>, crashed: Disk)
    requires crashed in Steps(disk, puts)
    ensures crashed.index == disk.index
  {}

  lemma FinishedReads(p: Packer, before: Disk, docs: seq<Doc>, plan: Plan, kind: Option<string>)
    requires plan.Write? && plan.newRows != [] && Ascending(plan.existing + plan.newRows)
    requires before.index.None? ==> plan.existing == [] && plan.index.shards == []
    requires before.index.Some? ==> Stored(p.size, before, docs) && ReadDisk(p.size, before) == Ok(plan.existing)
                                    && plan.index == before.index.value
    requires Shape(p, plan.index, before.files, plan.newRows).complete
    ensures ReadDisk(p.size, AfterAppend(p, before, plan, kind)) == Ok(plan.existing + plan.newRows)
  {
    hide *;
    if before.index.Some? {
      StoredReads(p.size, before, docs);
      AppendStored(p, before, docs, plan.newRows, kind);
    } else {
      assert [] + plan.newRows == plan.newRows;
      FirstAppendCanonical(p, before, plan.index, plan.newRows, kind);
      CanonicalReads(p, AfterAppend(p, before, plan, kind), plan.newRows);
    }
  }

  function PutPaths(puts: seq<Put>): set<int> { set i | 0 <= i < |puts| :: puts[i].path }

  /** Files no write names keep their contents; the others end as the writes say. */
  lemma {:induction false} ApplyDepends(f: map<int, Doc>, g: map<int, Doc>, puts: seq<Put>)
    ensures Apply(f, puts).Keys == f.Keys + PutPaths(puts)
    ensures forall k :: k in f && k !in PutPaths(puts) ==> Apply(f, puts)[k] == f[k]
    ensures forall k :: k in PutPaths(puts) ==>
              k in Apply(f, puts) && k in Apply(g, puts) && Apply(f, puts)[k] == Apply(g, puts)[k]
    decreases |puts|
  {
    if puts != [] {
      var init, x := puts[..|puts| - 1], puts[|puts| - 1];
      ApplyDepends(f, g, init);
      assert PutPaths(puts) == PutPaths(init) + {x.path};
      assert Apply(g, puts) == Apply(g, init)[x.path := x.doc];
    }
  }

  /** Repeating a run of writes after any part of it gives the same files. */
  lemma ApplyReplay(f: map<int, Doc>, puts: seq<Put>, n: nat)
    requires n <= |puts|
    ensures Apply(Apply(f, puts[..n]), puts) == Apply(f, puts)
  {
    var mid := Apply(f, puts[..n]);
    ApplyDepends(f, mid, puts);
    ApplyDepends(mid, f, puts);
    ApplyDepends(f, f, puts[..n]);
    assert PutPaths(puts[..n]) <= PutPaths(puts);
    forall k | k in Apply(f, puts) ensures Apply(mid, puts)[k] == Apply(f, puts)[k] {
      if k !in PutPaths(puts) {
        assert k !in PutPaths(puts[..n]);
      }
    }
  }

  lemma {:induction false} ReadsMatch(size: Doc -> nat, id: SeriesId, files: map<int, Doc>, metas: seq<Meta>, i: nat)
    requires ReadShards(size, id, files, metas).Ok? && i < |metas|
    ensures metas[i].path in files && files[metas[i].path].id == id
    ensures ShardMeta(size, metas[i].path, metas[i].start, files[metas[i].path], metas[i].sealed) == metas[i]
    decreases |metas|
  {
    if i > 0 {
      ReadsMatch(size, id, files, metas[1..], i - 1);
    }
  }

  /** Under the old index a disk that reads is stored in the very same documents. */
  lemma StillStored(size: Doc -> nat, before: Disk, docs: seq<Doc>, crashed: Disk)
    requires Stored(size, before, docs) && crashed.index == before.index && ReadDisk(size, crashed).Ok?
    ensures Stored(size, crashed, docs)
  {
    hide Contiguous, Flatten, Ascending;
    var ix := before.index.value;
    forall d | d in docs ensures d.start in crashed.files && crashed.files[d.start] == d {
      var i :| 0 <= i < |docs| && docs[i] == d;
      ReadsMatch(size, ix.identity.Series(), crashed.files, ix.shards, i);
    }
  }

  /** Crash and retry: if the reader still accepts the disk a crash left, the same call plans
      the same append again, and ends in exactly the disk an uninterrupted one leaves. */
  lemma RetryAfterCrash(p: Packer, before: Disk, identity: Identity, raw: seq<RawBar>, crashed: Disk, kind: Option<string>)
    requires var plan := PlanAppend(p.size, before, identity, raw, p.limits);
             plan.Write? && plan.newRows != []
             && var w := Shape(p, plan.index, before.files, plan.newRows);
             w.complete && crashed in Steps(before, w.puts)
    requires before.index.Some? ==> ReadDisk(p.size, crashed).Ok?
    ensures var plan := PlanAppend(p.size, before, identity, raw, p.limits);
            && PlanAppend(p.size, crashed, identity, raw, p.limits) == plan
            && AfterAppend(p, crashed, plan, kind) == AfterAppend(p, before, plan, kind)
  {
    var plan := PlanAppend(p.size, before, identity, raw, p.limits);
    PlanMeaning(p.size, before, identity, raw, p.limits);
    StepIndex(before, Shape(p, plan.index, before.files, plan.newRows).puts, crashed);
    SamePlan(p.size, before, crashed, identity, raw, p.limits);
    hide PlanAppend, Shape, AfterAppend, Steps, ReadDisk;
    RetrySameWrite(p, before, plan.index, plan.existing, plan.newRows, crashed, kind);
  }

  lemma SamePlan(size: Doc -> nat, before: Disk, crashed: Disk, identity: Identity, raw: seq<RawBar>, limits: Limits)
    requires crashed.index == before.index
    requires before.index.Some? ==> ReadDisk(size, before).Ok? && ReadDisk(size, crashed).Ok?
    ensures PlanAppend(size, crashed, identity, raw, limits) == PlanAppend(size, before, identity, raw, limits)
  {
    OldIndexOldRows(size, before, crashed);
    if before.index.Some? {
      ReadDiskIsReadRows(size, before);
      ReadDiskIsReadRows(size, crashed);
    }
    hide ReadRows, ReadDisk, SelectNew, Prepare;
  }

  lemma RetrySameWrite(p: Packer, before: Disk, ix: Index, existing: seq<Bar>, newRows: seq<Bar>, crashed: Disk,
                       kind: Option<string>)
    requires newRows != [] && Shape(p, ix, before.files, newRows).complete
    requires before.index.None? ==> ix.shards == []
    requires before.index.Some? ==> before.index.value == ix
                                    && ReadDisk(p.size, before).Ok? && ReadDisk(p.size, crashed).Ok?
    requires crashed in Steps(before, Shape(p, ix, before.files, newRows).puts)
    ensures AfterAppend(p, crashed, Write(ix, existing, newRows), kind)
         == AfterAppend(p, before, Write(ix, existing, newRows), kind)
  {
    hide Shape, Apply, ReadDisk;
    var w := Shape(p, ix, before.files, newRows);
    var i :| 0 <= i < |w.puts| && crashed == Disk(Apply(before.files, w.puts[..i + 1]), before.index);
    ApplyReplay(before.files, w.puts, i + 1);
    SameOpenShard(p, before, ix, crashed);
    ShapeLocal(p, ix, before.files, crashed.files, newRows);
  }

  /** Two disks the reader accepts under one index hold the same last shard. */
  lemma SameOpenShard(p: Packer, before: Disk, ix: Index, crashed: Disk)
    requires before.index.None? ==> ix.shards == []
    requires before.index.Some? ==> before.index.value == ix && crashed.index == before.index
                                    && ReadDisk(p.size, before).Ok? && ReadDisk(p.size, crashed).Ok?
    ensures ix.shards != [] ==> var m := ix.shards[|ix.shards| - 1];
                                m.path in before.files && m.path in crashed.files
                                && before.files[m.path] == crashed.files[m.path]
  {
    if before.index.Some? && ix.shards != [] {
      var k := |ix.shards| - 1;
      ReadsMatch(p.size, ix.identity.Series(), before.files, ix.shards, k);
      ReadsMatch(p.size, ix.identity.Series(), crashed.files, ix.shards, k);
    }
  }

  lemma ShapeLocal(p: Packer, ix: Index, f: map<int, Doc>, g: map<int, Doc>, newRows: seq<Bar>)
    requires ix.shards != [] ==> var m := ix.shards[|ix.shards| - 1];
                                 m.path in f && m.path in g && f[m.path] == g[m.path]
    ensures Shape(p, ix, f, newRows) == Shape(p, ix, g, newRows)
  {}

  /** Exactly when the old rows stay readable while an append is under way: as long
      as the open shard took none of the new rows. */
  lemma MidAppendReadable(p: Packer, before: Disk, docs: seq<Doc>, newRows: seq<Bar>, crashed: Disk)
    requires Stored(p.size, before, docs)
    requires crashed in Steps(before, Shape(p, before.index.value, before.files, newRows).puts)
    ensures docs != []
    ensures ReadDisk(p.size, crashed).Ok? <==>
            !(HasOpen(before.index.value, before.files) && p.Grow(docs[|docs| - 1], newRows) > 0)
  {
    hide Packer.Pack, Packer.Grow, Packer.Extend, Packer.GrowFrom, Packer.Fits, Contiguous, Flatten, Apply, Puts, Shape;
    var ix := before.index.value;
    var id := ix.identity.Series();
    ShapeStored(p, before, docs, newRows);
    var open := HasOpen(ix, before.files);
    var e := Recut(p, id, docs, open, newRows);
    var i :| 0 <= i < |e.docs| && crashed == Disk(Apply(before.files, Puts(e.docs)[..i + 1]), before.index);
    var part := e.docs[..i + 1];
    assert Puts(e.docs)[..i + 1] == Puts(part) by { PutsPrefix(e.docs, i + 1); }
    if open {
      MidOpen(p, before, docs, newRows, part, crashed);
    } else {
      p.PackShape(id, |Flatten(docs)|, newRows);
      assert e.docs == part + e.docs[i + 1..];
      ContiguousConcat(part, e.docs[i + 1..], id, |Flatten(docs)|);
      ApplyContiguous(before.files, part, id, |Flatten(docs)|);
      ContiguousRange(docs, id, 0);
      ContiguousReads(p.size, id, crashed.files, docs, ix.shards, 0);
      assert ReadDisk(p.size, crashed) == Ok(Flatten(docs));
    }
  }

  lemma PutsPrefix(docs: seq<Doc>, n: nat)
    requires n <= |docs|
    ensures Puts(docs)[..n] == Puts(docs[..n])
  {}

  lemma MidOpen(p: Packer, before: Disk, docs: seq<Doc>, newRows: seq<Bar>, part: seq<Doc>, crashed: Disk)
    requires Stored(p.size, before, docs) && docs != [] && HasOpen(before.index.value, before.files)
    requires part != [] && part <= p.Extend(docs[|docs| - 1], newRows).docs
    requires crashed == Disk(Apply(before.files, Puts(part)), before.index)
    ensures ReadDisk(p.size, crashed).Ok? <==> p.Grow(docs[|docs| - 1], newRows) == 0
  {
    hide Packer.Pack, Packer.Grow, Packer.GrowFrom, Packer.Fits, Packer.Extend, Contiguous, Flatten, Apply, Puts;
    var ix := before.index.value;
    var id := ix.identity.Series();
    var init, d := docs[..|docs| - 1], docs[|docs| - 1];
    assert docs == init + [d];
    ContiguousRange(docs, id, 0);
    assert d in docs && d.id == id;
    ContiguousConcat(init, [d], id, 0);
    assert [d] + [] == [d];
    ContiguousCons(d, [], id, |Flatten(init)|);
    ExtendUnfold(p, d, newRows);
    var n := p.Grow(d, newRows);
    var at := d.start + |d.records| + n;
    var rest := p.Pack(d.id, at, newRows[n..]).docs;
    var d' := d.Plus(newRows[..n]);
    p.PackShape(d.id, at, newRows[n..]);
    ContiguousCons(d', rest, id, d.start);
    assert part + ([d'] + rest)[|part|..] == [d'] + rest;
    ContiguousConcat(part, ([d'] + rest)[|part|..], id, d.start);
    ApplyContiguous(before.files, part, id, d.start);
    assert part[0] == d';
    assert crashed.files[d.start] == d' && |d'.records| == |d.records| + n;
    if n == 0 {
      assert newRows[..0] == [] && d' == d;
      ContiguousRange(init, id, 0);
      ContiguousReads(p.size, id, crashed.files, docs, ix.shards, 0);
      assert ReadDisk(p.size, crashed) == Ok(Flatten(docs));
    } else if ReadDisk(p.size, crashed).Ok? {
      ReadsMatch(p.size, id, crashed.files, ix.shards, |docs| - 1);
    }
  }

  /** A refused append is not always harmless: a row too large for any shard is
      noticed only after the open shard was rewritten. The rejected append leaves
      the series readable exactly when the open shard took none of the batch. */
  lemma RejectedAppendReadable(p: Packer, before: Disk, docs: seq<Doc>, newRows: seq<Bar>, kind: Option<string>)
    requires Stored(p.size, before, docs) && newRows != []
    requires !Shape(p, before.index.value, before.files, newRows).complete
    ensures var after := AfterAppend(p, before, Write(before.index.value, Flatten(docs), newRows), kind);
            docs != [] && (ReadDisk(p.size, after).Ok? <==>
                           !(HasOpen(before.index.value, before.files) && p.Grow(docs[|docs| - 1], newRows) > 0))
  {
    var ix := before.index.value;
    var w := Shape(p, ix, before.files, newRows);
    var after := AfterAppend(p, before, Write(ix, Flatten(docs), newRows), kind);
    ShapeStored(p, before, docs, newRows);
    if w.puts == [] {
      StoredReads(p.size, before, docs);
      assert after == before;
      assert !HasOpen(ix, before.files);
    } else {
      assert w.puts[..|w.puts|] == w.puts;
      assert Steps(before, w.puts)[|w.puts| - 1] == after;
      MidAppendReadable(p, before, docs, newRows, after);
    }
  }

  ghost predicate BreaksSeries(p: Packer, before: Disk, identity: Identity, raw: seq<RawBar>) {
    var plan := PlanAppend(p.size, before, identity, raw, p.limits);
    plan.Write? && plan.newRows != [] && Canonical(p, before, plan.existing)
    && ReadDisk(p.size, AfterAppend(p, before, plan, None)).Fail?
  }

  /** A concrete refused append that leaves the series unreadable: the first new row
      fits in the open shard, the second fits nowhere. */
  lemma RejectedAppendCanBreakTheSeries() returns (p: Packer, before: Disk, identity: Identity, raw: seq<RawBar>)
    ensures BreaksSeries(p, before, identity, raw)
  {
    var price := map["close" := Int(1)];
    var bar1, bar2, huge := Bar(1, price), Bar(2, price), Bar(3, price);
    var size: Doc -> nat := (d: Doc) => if huge in d.records then 100 else 10;
    p := Packer(size, Limits(128, 50));
    identity := Identity("twelve", "SPY", "etf", "regular", "ohlcv", "reported", None);
    var id := identity.Series();
    assert p.Fits(Doc(id, 0, [bar1])) && p.Fits(Doc(id, 0, [bar1, bar2]));
    assert !p.Fits(Doc(id, 0, [bar1, bar2, huge])) && !p.Fits(Doc(id, 2, [huge]));
    assert WellFormed(bar2) && WellFormed(huge);
    raw := [Raw(bar2), Raw(huge)];
    hide Canonical, PlanAppend, Packer.Pack, AfterAppend, ReadDisk, NormalizeAll, SortByDay, Packer.Fits, WellFormed;
    before := OneRowDisk(p, identity, bar1);
    PlanTwoRows(p, before, identity, bar1, bar2, huge);
    TwoRowsBreak(p, before, identity, bar1, bar2, huge);
  }

  lemma GrowOne(p: Packer, id: SeriesId, b: Bar, x: Bar, huge: Bar)
    requires p.Fits(Doc(id, 0, [b, x])) && !p.Fits(Doc(id, 0, [b, x, huge])) && !p.Fits(Doc(id, 2, [huge]))
    ensures p.Grow(Doc(id, 0, [b]), [x, huge]) == 1 && [x, huge][1..] == [huge]
    ensures p.Grow(Doc(id, 2, []), [huge]) == 0
  {
    hide Packer.Fits, Packer.Grow, Packer.GrowFrom;
    var one, last, newRows := Doc(id, 0, [b]), Doc(id, 2, []), [x, huge];
    assert one.Plus(newRows[..1]) == Doc(id, 0, [b, x]) && one.Plus(newRows[..2]) == Doc(id, 0, [b, x, huge]);
    p.GrowUnique(one, newRows, 1);
    assert newRows[1..] == [huge] && last.Plus([huge][..1]) == Doc(id, 2, [huge]);
    p.GrowUnique(last, [huge], 0);
  }

  lemma TwoRowsBreak(p: Packer, before: Disk, identity: Identity, b: Bar, x: Bar, huge: Bar)
    requires Canonical(p, before, [b]) && before.index.value.identity == identity
    requires p.Pack(identity.Series(), 0, [b]).docs == [Doc(identity.Series(), 0, [b])]
    requires p.Fits(Doc(identity.Series(), 0, [b, x])) && !p.Fits(Doc(identity.Series(), 0, [b, x, huge]))
    requires !p.Fits(Doc(identity.Series(), 2, [huge]))
    ensures ReadDisk(p.size, AfterAppend(p, before, Write(before.index.value, [b], [x, huge]), None)).Fail?
  {
    var id, newRows := identity.Series(), [x, huge];
    var one, last := Doc(id, 0, [b]), Doc(id, 2, []);
    GrowOne(p, id, b, x, huge);
    hide *;
    p.PackHalt(id, 2, [huge]);
    ExtendUnfold(p, one, newRows);
    CanonicalFacts(p, before, [b]);
    LastOpen(p.size, before, [one]);
    ShapeStored(p, before, [one], newRows);
    assert [one][|[one]| - 1] == one;
    RecutOpen(p, id, [one], newRows);
    RejectedAppendReadable(p, before, [one], newRows, None);
  }

  /** The disk after the first append of a single row. */
  lemma OneRowDisk(p: Packer, identity: Identity, b: Bar) returns (disk: Disk)
    requires p.Fits(Doc(identity.Series(), 0, [b]))
    ensures Canonical(p, disk, [b]) && disk.index.value.identity == identity && disk.index.value.limits == p.limits
    ensures p.Pack(identity.Series(), 0, [b]).docs == [Doc(identity.Series(), 0, [b])]
  {
    var id := identity.Series();
    var ix := EmptyIndex(identity, p.limits);
    assert Doc(id, 0, []).Plus([b][..1]) == Doc(id, 0, [b]);
    p.GrowUnique(Doc(id, 0, []), [b], 1);
    p.OneShard(id, 0, [b]);
    FirstAppendCanonical(p, Disk(map[], None), ix, [b], None);
    AfterWrite(p, Disk(map[], None), ix, [], [b], None);
    disk := AfterAppend(p, Disk(map[], None), Write(ix, [], [b]), None);
  }

  lemma PlanTwoRows(p: Packer, before: Disk, identity: Identity, stored: Bar, x: Bar, y: Bar)
    requires Canonical(p, before, [stored]) && before.index.value.identity == identity
    requires identity.session == "regular" && identity.effective.None?
    requires WellFormed(x) && WellFormed(y) && stored.day < x.day < y.day
    ensures PlanAppend(p.size, before, identity, [Raw(x), Raw(y)], p.limits)
         == Write(before.index.value, [stored], [x, y])
  {
    PrepareTwo(identity, x, y);
    SelectTwo(stored, x, y);
    CanonicalReads(p, before, [stored]);
    ReadDiskIsReadRows(p.size, before);
    hide Prepare, Canonical, ReadDisk, SelectNew, ReadRows;
  }

  lemma PrepareTwo(identity: Identity, x: Bar, y: Bar)
    requires identity.session == "regular" && identity.effective.None?
    requires WellFormed(x) && WellFormed(y) && x.day < y.day
    ensures Prepare(identity, [Raw(x), Raw(y)]) == Ok([x, y])
  {
    NormalizeStored(x);
    NormalizeStored(y);
    var raw := [Raw(x), Raw(y)];
    assert raw[1..] == [Raw(y)] && raw[1..][1..] == [];
    assert NormalizeAll([Raw(y)]) == Ok([y] + []);
    assert NormalizeAll(raw) == Ok([x] + ([y] + []));
    assert [x] + ([y] + []) == [x, y];
    SortFixed([x, y]);
    DaysCount([x, y]);
  }

  lemma SelectTwo(stored: Bar, x: Bar, y: Bar)
    requires stored.day < x.day < y.day
    ensures SelectNew([stored], [x, y]) == Ok([x, y])
  {
    SelectNewMeaning([stored], [x, y]);
    var r := SelectNew([stored], [x, y]);
    assert r.Ok?;
    forall i, j | 0 <= i < j < |r.value| ensures r.value[i].day < r.value[j].day {
      assert ([stored] + r.value)[i + 1] == r.value[i] && ([stored] + r.value)[j + 1] == r.value[j];
    }
    AscendingUnique(r.value, [x, y]);
  }

  lemma ReadDiskIsReadRows(size: Doc -> nat, disk: Disk)
    requires disk.index.Some?
    ensures ReadDisk(size, disk) == ReadRows(size, disk.files, disk.index.value)
  {}
}
