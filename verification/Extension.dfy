/** Verified baseline extension: a provider answer may add rows before and after
    the stored range only if it reproduces that range exactly. */
module Extension {
  import opened Bars
  import opened Shards
  import opened SeriesStore
  import opened StoreLaws
  import opened Rebase

  datatype ExtendError = NoRows | RepeatedDates | NotCovered | RevisedHistory | InternalGap | ShardTooSmall

  datatype Merged = Merged(rows: seq<Bar>, prefix: nat, suffix: nat, verified: nat)

  /** How the overlap check ends: the first stored row the answer lacks or contradicts. */
  function CheckOverlap(e: seq<Bar>, f: seq<Bar>): Option<ExtendError> {
    if e == [] then None
    else
      match CheckOverlap(e[..|e| - 1], f)
      case Some(err) => Some(err)
      case None => CheckRow(e[|e| - 1], f)
  }

  function CheckRow(stored: Bar, f: seq<Bar>): Option<ExtendError> {
    match Find(f, stored.day)
    case None => Some(NotCovered)
    case Some(b) => if b == stored then None else Some(RevisedHistory)
  }

  /** The answer has a date inside the stored range that the Store does not. */
  predicate HasGap(existing: seq<Bar>, f: seq<Bar>)
    requires existing != []
  {
    exists b :: b in f && existing[0].day <= b.day <= existing[|existing| - 1].day && b.day !in Days(existing)
  }

  /** `merge_verified_baseline`, for stored rows in date order. */
  function MergedBaseline(existing: seq<Bar>, fetched: seq<Bar>): Result<Merged, ExtendError> {
    if fetched == [] then Fail(NoRows)
    else
      var f := SortByDay(fetched);
      if |Days(f)| != |f| then Fail(RepeatedDates)
      else if existing == [] then Ok(Merged(f, |f|, 0, 0))
      else
        var first, last := existing[0].day, existing[|existing| - 1].day;
        match CheckOverlap(existing, f)
        case Some(err) => Fail(err)
        case None =>
          if HasGap(existing, f) then Fail(InternalGap)
          else
            var prefix, suffix := Between(f, None, first), After(f, last);
            Ok(Merged(prefix + existing + suffix, |prefix|, |suffix|, |existing|))
  }

  function After(rows: seq<Bar>, day: int): (r: seq<Bar>)
    ensures forall b :: b in r <==> b in rows && day < b.day
  {
    if rows == [] then []
    else
      var init, b := rows[..|rows| - 1], rows[|rows| - 1];
      assert rows == init + [b];
      After(init, day) + (if day < b.day then [b] else [])
  }

  lemma AfterAscending(rows: seq<Bar>, day: int)
    requires Ascending(rows)
    ensures Ascending(After(rows, day))
  {}

  method MergeVerified(existing: seq<Bar>, fetched: seq<Bar>) returns (r: Result<Merged, ExtendError>)
    ensures r == MergedBaseline(existing, fetched)
  {
    if fetched == [] { return Fail(NoRows); }
    var f := SortByDay(fetched);
    if |Days(f)| != |f| { return Fail(RepeatedDates); }
    if existing == [] { return Ok(Merged(f, |f|, 0, 0)); }
    var first, last := existing[0].day, existing[|existing| - 1].day;
    var verified := 0;
    hide SortByDay, Days, HasGap, Between, After, CheckRow, CheckOverlap;
    OverlapNone(existing, f);
    while verified < |existing|
      invariant 0 <= verified <= |existing|
      invariant CheckOverlap(existing[..verified], f).None?
    {
      OverlapStep(existing, f, verified);
      var err := CheckRow(existing[verified], f);
      if err.Some? {
        OverlapStops(existing, f, verified + 1);
        return Fail(err.value);
      }
      verified := verified + 1;
    }
    assert existing[..verified] == existing;
    if HasGap(existing, f) { return Fail(InternalGap); }
    var prefix, suffix := Between(f, None, first), After(f, last);
    return Ok(Merged(prefix + existing + suffix, |prefix|, |suffix|, verified));
  }

  lemma OverlapNone(e: seq<Bar>, f: seq<Bar>)
    ensures CheckOverlap(e[..0], f) == None
  {}

  lemma OverlapStep(e: seq<Bar>, f: seq<Bar>, i: nat)
    requires i < |e| && CheckOverlap(e[..i], f).None?
    ensures CheckOverlap(e[..i + 1], f) == CheckRow(e[i], f)
  {
    assert e[..i + 1][..i] == e[..i];
  }

  lemma OverlapStops(e: seq<Bar>, f: seq<Bar>, i: nat)
    requires i <= |e| && CheckOverlap(e[..i], f).Some?
    ensures CheckOverlap(e, f) == CheckOverlap(e[..i], f)
    decreases |e| - i
  {
    if i == |e| {
      assert e[..i] == e;
    } else {
      assert e[..i + 1][..i] == e[..i];
      OverlapStops(e, f, i + 1);
    }
  }

  lemma {:induction false} OverlapMeaning(e: seq<Bar>, f: seq<Bar>)
    requires DistinctDays(f)
    ensures CheckOverlap(e, f).None? <==> forall b :: b in e ==> b in f
    decreases |e|
  {
    if e != [] {
      var init, b := e[..|e| - 1], e[|e| - 1];
      assert e == init + [b];
      OverlapMeaning(init, f);
      if b in f { FindMember(f, b); }
    }
  }

  /** The stored range of an answer: its rows from the first stored date to the last. */
  ghost predicate Reproduces(existing: seq<Bar>, f: seq<Bar>) {
    existing != [] ==>
      forall b :: b in existing <==> b in f && existing[0].day <= b.day <= existing[|existing| - 1].day
  }

  lemma Range(rows: seq<Bar>, b: Bar)
    requires Ascending(rows) && b in rows
    ensures rows[0].day <= b.day <= rows[|rows| - 1].day
  {}

  /** Extension is exact: it succeeds if and only if the answer has one row per date
      and its rows inside the stored range are exactly the stored rows; the result
      is then the whole answer in date order, all of it older if nothing was stored. */
  lemma ExtensionExact(existing: seq<Bar>, fetched: seq<Bar>)
    requires Ascending(existing)
    ensures var f := SortByDay(fetched);
            MergedBaseline(existing, fetched).Ok? <==> fetched != [] && DistinctDays(f) && Reproduces(existing, f)
    ensures MergedBaseline(existing, fetched).Ok? ==>
            var m := MergedBaseline(existing, fetched).value;
            && m.rows == SortByDay(fetched) && Ascending(m.rows)
            && m.prefix + |existing| + m.suffix == |m.rows| && m.verified == |existing|
            && existing == m.rows[m.prefix..m.prefix + |existing|] && (existing == [] ==> m.suffix == 0)
  {
    var f := SortByDay(fetched);
    DaysCount(f);
    if existing == [] {
      if fetched != [] && DistinctDays(f) { DistinctSorted(f); }
      return;
    }
    MergedCases(existing, fetched);
    hide *;
    if fetched != [] && |Days(f)| == |f| {
      DistinctSorted(f);
      OverlapMeaning(existing, f);
      GapMeaning(existing, f);
      if Reproduces(existing, f) {
        Reassemble(existing, f);
        var first, last := existing[0].day, existing[|existing| - 1].day;
        var prefix, suffix := Between(f, None, first), After(f, last);
        assert prefix + existing == (prefix + existing + suffix)[..|prefix| + |existing|];
      }
    }
  }

  lemma DistinctSorted(f: seq<Bar>)
    requires Sorted(f) && DistinctDays(f)
    ensures Ascending(f)
  {}

  lemma MergedCases(existing: seq<Bar>, fetched: seq<Bar>)
    requires existing != []
    ensures var f := SortByDay(fetched);
            MergedBaseline(existing, fetched).Ok?
            <==> fetched != [] && |Days(f)| == |f| && CheckOverlap(existing, f).None? && !HasGap(existing, f)
    ensures MergedBaseline(existing, fetched).Ok? ==>
            var f := SortByDay(fetched);
            var prefix, suffix := Between(f, None, existing[0].day), After(f, existing[|existing| - 1].day);
            MergedBaseline(existing, fetched).value == Merged(prefix + existing + suffix, |prefix|, |suffix|, |existing|)
  {}

  lemma GapMeaning(existing: seq<Bar>, f: seq<Bar>)
    requires Ascending(existing) && existing != [] && DistinctDays(f)
    ensures Reproduces(existing, f) <==> (forall b :: b in existing ==> b in f) && !HasGap(existing, f)
  {
    forall b | b in existing ensures existing[0].day <= b.day <= existing[|existing| - 1].day && b.day in Days(existing) {
      Range(existing, b);
      DayMember(existing, b);
    }
    if forall b :: b in existing ==> b in f {
      forall b | b in f && b.day in Days(existing) ensures b in existing {
        var i :| 0 <= i < |existing| && existing[i].day == b.day;
        var j :| 0 <= j < |f| && f[j] == b;
        assert existing[i] in existing && existing[i] in f;
        var k :| 0 <= k < |f| && f[k] == existing[i];
      }
    }
  }

  lemma Reassemble(existing: seq<Bar>, f: seq<Bar>)
    requires Ascending(existing) && existing != [] && Ascending(f) && Reproduces(existing, f)
    ensures Between(f, None, existing[0].day) + existing + After(f, existing[|existing| - 1].day) == f
  {
    var first, last := existing[0].day, existing[|existing| - 1].day;
    var prefix, suffix := Between(f, None, first), After(f, last);
    BetweenAscending(f, None, first);
    AfterAscending(f, last);
    forall b | b in existing ensures first <= b.day <= last { Range(existing, b); }
    AscendingConcat(prefix, existing);
    forall b | b in prefix + existing ensures b.day <= last {}
    AscendingConcat(prefix + existing, suffix);
    AscendingUnique(prefix + existing + suffix, f);
  }

  lemma AscendingConcat(a: seq<Bar>, b: seq<Bar>)
    requires Ascending(a) && Ascending(b) && forall x, y :: x in a && y in b ==> x.day < y.day
    ensures Ascending(a + b)
  {}

  // ---------- lineage ----------

  /** `_shift_lineage`. */
  function ShiftLineage(segments: seq<Segment>, offset: int): (r: seq<Segment>)
    ensures |r| == |segments|
  {
    if segments == [] then []
    else [segments[0].(start := segments[0].start + offset, end := segments[0].end + offset)]
         + ShiftLineage(segments[1..], offset)
  }

  function ExtendedLineage(segments: seq<Segment>, m: Merged): seq<Segment> {
    (if m.prefix > 0 then [Segment("prefix", 0, m.prefix - 1)] else [])
    + ShiftLineage(segments, m.prefix)
    + (if m.suffix > 0 then [Segment("suffix", |m.rows| - m.suffix, |m.rows| - 1)] else [])
  }

  /** Lineage segments that cover the positions lo..hi-1 once each, in order. */
  ghost predicate Tiles(segments: seq<Segment>, lo: int, hi: int) {
    if segments == [] then lo == hi
    else segments[0].start == lo <= segments[0].end && Tiles(segments[1..], segments[0].end + 1, hi)
  }

  lemma {:induction false} TilesShift(segments: seq<Segment>, lo: int, hi: int, offset: int)
    requires Tiles(segments, lo, hi)
    ensures Tiles(ShiftLineage(segments, offset), lo + offset, hi + offset)
    decreases |segments|
  {
    if segments != [] {
      TilesShift(segments[1..], segments[0].end + 1, hi, offset);
    }
  }

  lemma {:induction false} TilesConcat(a: seq<Segment>, b: seq<Segment>, lo: int, mid: int, hi: int)
    requires Tiles(a, lo, mid) && Tiles(b, mid, hi)
    ensures Tiles(a + b, lo, hi)
    decreases |a|
  {
    if a == [] {
      assert a + b == b;
    } else {
      assert (a + b)[1..] == a[1..] + b;
      TilesConcat(a[1..], b, a[0].end + 1, mid, hi);
    }
  }

  lemma EndTiles(kind: string, from: int, count: nat)
    ensures Tiles(if count > 0 then [Segment(kind, from, from + count - 1)] else [], from, from + count)
  {}

  /** Extending shifts the old segments and adds at most one on each side: still a tiling. */
  lemma ExtendedTiles(segments: seq<Segment>, m: Merged, count: nat)
    requires Tiles(segments, 0, count) && m.prefix + count + m.suffix == |m.rows|
    ensures Tiles(ExtendedLineage(segments, m), 0, |m.rows|)
  {
    var head := if m.prefix > 0 then [Segment("prefix", 0, m.prefix - 1)] else [];
    var tail := if m.suffix > 0 then [Segment("suffix", |m.rows| - m.suffix, |m.rows| - 1)] else [];
    EndTiles("prefix", 0, m.prefix);
    EndTiles("suffix", |m.rows| - m.suffix, m.suffix);
    hide Tiles, ShiftLineage;
    TilesShift(segments, 0, count, m.prefix);
    TilesConcat(head, ShiftLineage(segments, m.prefix), 0, m.prefix, m.prefix + count);
    TilesConcat(head + ShiftLineage(segments, m.prefix), tail, 0, m.prefix + count, |m.rows|);
  }

  // ---------- writing the extension ----------

  /** `_write_rebased_series`: the same packing loop and the same order of writes as
      a replacement, but no archive is kept. */
  method WriteExtended(dir: SeriesDir, index: Index, m: Merged) returns (ok: bool)
    requires dir.index == Some(index) && m.rows != []
    modifies dir
    ensures var p := Packer(dir.size, Effective(index.limits));
            && ok == p.Pack(index.identity.Series(), 0, m.rows).complete
            && (!ok ==> dir.Now() == old(dir.Now()) && dir.trail == old(dir.trail))
            && (ok ==> dir.Now() == Rewritten(p, old(dir.Now()), index, m.rows, ExtendedLineage(index.lineage, m)))
            && (ok ==> dir.trail == old(dir.trail)
                                    + RewriteSteps(old(dir.Now()), index, p.Pack(index.identity.Series(), 0, m.rows).docs)
                                    + [dir.Now()])
  {
    hide Packer.Pack, Apply, Puts, Metas, ExtendedLineage, RewriteSteps;
    var docs, metas;
    ok, docs, metas := BuildShards(dir.size, index.identity.Series(), m.rows, Effective(index.limits));
    if !ok { return; }
    var next := index.(recordCount := |m.rows|, first := Some(m.rows[0].day), last := Some(m.rows[|m.rows| - 1].day),
                       shards := metas, lineage := ExtendedLineage(index.lineage, m));
    RewriteFiles(dir, index, docs, next);
  }

  lemma MergedRows(existing: seq<Bar>, fetched: seq<Bar>)
    requires MergedBaseline(existing, fetched).Ok?
    ensures var m := MergedBaseline(existing, fetched).value; |m.rows| == m.prefix + |existing| + m.suffix
  {}

  /** A verified extension that adds older rows cannot be interrupted harmlessly: from the
      first unlink to the index write no state reads, and no archive was taken. */
  lemma PrefixExtensionUnreadable(p: Packer, before: Disk, docs: seq<Doc>, fetched: seq<Bar>, crashed: Disk)
    requires Stored(p.size, before, docs) && MergedBaseline(Flatten(docs), fetched).Ok?
    requires var m := MergedBaseline(Flatten(docs), fetched).value; var ix := before.index.value;
             var cut := p.Pack(ix.identity.Series(), 0, m.rows);
             m.prefix > 0 && cut.complete && crashed in RewriteSteps(before, ix, cut.docs)
    ensures ReadDisk(p.size, crashed).Fail?
  {
    hide *;
    StoredHasIndex(p.size, before, docs);
    var existing, id := Flatten(docs), before.index.value.identity.Series();
    var m := MergedBaseline(existing, fetched).value;
    ExtensionExact(existing, fetched);
    OlderFirst(existing, m.rows, m.prefix);
    p.PackShape(id, 0, m.rows);
    p.PackCarries(id, 0, m.rows);
    assert m.rows[..|m.rows|] == m.rows;
    var next := p.Pack(id, 0, m.rows).docs;
    KeptShardsKeepFirst(docs, next);
    ChangedRewriteUnreadable(p.size, before, docs, next, crashed);
  }

  lemma OlderFirst(existing: seq<Bar>, rows: seq<Bar>, prefix: nat)
    requires existing != [] && prefix > 0 && prefix + |existing| <= |rows|
    requires Ascending(rows) && existing == rows[prefix..prefix + |existing|]
    ensures rows != [] && rows[0] != existing[0]
  {
    assert existing[0] == rows[prefix];
  }

  lemma KeptShardsKeepFirst(docs: seq<Doc>, next: seq<Doc>)
    requires Flatten(docs) != []
    ensures docs <= next ==> Flatten(next) != [] && Flatten(next)[0] == Flatten(docs)[0]
  {
    if docs <= next {
      assert next == docs + next[|docs|..];
      ContiguousConcat(docs, next[|docs|..], SeriesId("", ""), 0);
    }
  }

  /** A concrete one: a one-row series, an answer with one older row, and the state after
      the first unlink. */
  lemma InterruptedExtensionExample()
    returns (p: Packer, before: Disk, docs: seq<Doc>, fetched: seq<Bar>, crashed: Disk)
    ensures Stored(p.size, before, docs) && Effective(before.index.value.limits) == p.limits
    ensures MergedBaseline(Flatten(docs), fetched).Ok? && MergedBaseline(Flatten(docs), fetched).value.prefix > 0
    ensures var m := MergedBaseline(Flatten(docs), fetched).value;
            var cut := p.Pack(before.index.value.identity.Series(), 0, m.rows);
            cut.complete && crashed in RewriteSteps(before, before.index.value, cut.docs)
    ensures ReadDisk(p.size, crashed).Fail?
  {
    var price := map["close" := Int(1)];
    var older, stored := Bar(1, price), Bar(2, price);
    var size: Doc -> nat := (d: Doc) => 10;
    p := Packer(size, Limits(128, 50));
    var identity := Identity("twelve", "SPY", "etf", "regular", "ohlcv", "reported", None);
    var id := identity.Series();
    docs, fetched := [Doc(id, 0, [stored])], [older, stored];
    FlattenNone();
    FlattenCons(docs[0], []);
    assert [docs[0]] + [] == docs && Flatten(docs) == [stored];
    assert p.Fits(Doc(id, 0, [stored])) && p.Fits(Doc(id, 0, [older])) && p.Fits(Doc(id, 0, fetched));
    TwoFit(p, id, older, stored);
    assert Effective(p.limits) == p.limits;
    hide *;
    before := OneRowDisk(p, identity, stored);
    CanonicalFacts(p, before, [stored]);
    OlderRowMerges(older, stored);
    var next := p.Pack(id, 0, fetched).docs;
    FirstState(p, before, docs, next);
    crashed := RewriteSteps(before, before.index.value, next)[0];
    PrefixExtensionUnreadable(p, before, docs, fetched, crashed);
  }

  lemma TwoFit(p: Packer, id: SeriesId, a: Bar, b: Bar)
    requires p.Fits(Doc(id, 0, [a])) && p.Fits(Doc(id, 0, [a, b]))
    ensures p.Pack(id, 0, [a, b]).complete
  {
    var empty, rows := Doc(id, 0, []), [a, b];
    hide Packer.Fits, Packer.Grow, Packer.GrowFrom, Packer.Pack;
    assert empty.Plus(rows[..1]) == Doc(id, 0, [a]) && empty.Plus(rows[..2]) == Doc(id, 0, [a, b]);
    p.GrowUnique(empty, rows, 2);
    p.OneShard(id, 0, rows);
  }

  lemma OlderRowMerges(older: Bar, stored: Bar)
    requires older.day < stored.day
    ensures MergedBaseline([stored], [older, stored]) == Ok(Merged([older, stored], 1, 0, 1))
  {
    hide *;
    var f := [older, stored];
    TwoRows(older, stored);
    SortFixed(f);
    ExtensionExact([stored], f);
    var m := MergedBaseline([stored], f).value;
    assert m.rows[m.prefix..m.prefix + 1][0] == m.rows[m.prefix];
  }

  lemma TwoRows(older: Bar, stored: Bar)
    requires older.day < stored.day
    ensures Ascending([older, stored]) && Ascending([stored]) && DistinctDays([older, stored])
    ensures Reproduces([stored], [older, stored])
  {}

  lemma FirstState(p: Packer, before: Disk, docs: seq<Doc>, next: seq<Doc>)
    requires Stored(p.size, before, docs)
    ensures RewriteSteps(before, before.index.value, next) != []
  {
    UnlinksSomething(p.size, before, docs);
  }

  datatype InitError = NotCreated(e: StoreError) | Corrupt(e: StoreError) | Refused(why: ExtendError)

  datatype Initialized = Created(result: WriteResult) | Extended(merged: Merged)

  const INITIAL_KIND := "collector_daily_baseline_initialization"

  function RawAll(rows: seq<Bar>): seq<RawBar> { seq(|rows|, i requires 0 <= i < |rows| => Raw(rows[i])) }

  /** The body of `initialize` for one symbol: a new series is appended whole, under the
      default limits; an existing one is extended. */
  method Initialize(dir: SeriesDir, identity: Identity, fetched: seq<Bar>) returns (r: Result<Initialized, InitError>)
    modifies dir
    ensures var was := old(dir.Now());
            match was.index
            case None =>
              var limits := Limits(DEFAULT_RECORD_LIMIT, DEFAULT_BYTE_LIMIT);
              var plan := PlanAppend(dir.size, was, identity, RawAll(fetched), limits);
              && (!plan.Write? ==> dir.Now() == was && dir.trail == old(dir.trail))
              && (plan.Reject? ==> r == Fail(NotCreated(plan.error)))
              && (plan.Nothing? ==> r == Ok(Created(WriteResult(false, plan.count))))
              && (plan.Write? ==>
                  var p := Packer(dir.size, limits);
                  var w := Shape(p, plan.index, was.files, plan.newRows);
                  && plan.newRows != [] && dir.Now() == AfterAppend(p, was, plan, Some(INITIAL_KIND))
                  && r == (if w.complete
                           then Ok(Created(WriteResult(true, Some(|plan.existing| + |plan.newRows|))))
                           else Fail(NotCreated(RowTooLarge)))
                  && dir.trail == old(dir.trail) + Steps(was, w.puts) + (if w.complete then [dir.Now()] else []))
            case Some(index) =>
              match ReadRows(dir.size, was.files, index)
              case Fail(e) => r == Fail(Corrupt(e)) && dir.Now() == was && dir.trail == old(dir.trail)
              case Ok(existing) =>
                var merged, p := MergedBaseline(existing, fetched), Packer(dir.size, Effective(index.limits));
                && (merged.Fail? ==> r == Fail(Refused(merged.error)) && dir.Now() == was && dir.trail == old(dir.trail))
                && (merged.Ok? && merged.value.prefix + merged.value.suffix == 0 ==>
                    r == Ok(Extended(merged.value)) && dir.Now() == was && dir.trail == old(dir.trail))
                && (merged.Ok? && merged.value.prefix + merged.value.suffix > 0 ==>
                    var cut := p.Pack(index.identity.Series(), 0, merged.value.rows);
                    && merged.value.rows != []
                    && (cut.complete ==>
                        && r == Ok(Extended(merged.value))
                        && dir.Now() == Rewritten(p, was, index, merged.value.rows,
                                                  ExtendedLineage(index.lineage, merged.value))
                        && dir.trail == old(dir.trail) + RewriteSteps(was, index, cut.docs) + [dir.Now()])
                    && (!cut.complete ==>
                        r == Fail(Refused(ShardTooSmall)) && dir.Now() == was && dir.trail == old(dir.trail)))
  {
    hide Packer.Pack, ReadRows, ExtendedLineage, MergedBaseline, Rewritten, RewriteSteps, Effective, PlanAppend, Shape,
         AfterAppend, Steps, RawAll;
    if dir.index.None? {
      var limits := Limits(DEFAULT_RECORD_LIMIT, DEFAULT_BYTE_LIMIT);
      var created := dir.Append(identity, RawAll(fetched), limits, Some(INITIAL_KIND));
      return if created.Ok? then Ok(Created(created.value)) else Fail(NotCreated(created.error));
    }
    var index := dir.index.value;
    var loaded := dir.ReadAll(index);
    if loaded.Fail? { return Fail(Corrupt(loaded.error)); }
    var merged := MergeVerified(loaded.value, fetched);
    if merged.Fail? { return Fail(Refused(merged.error)); }
    var m := merged.value;
    if m.prefix == 0 && m.suffix == 0 { return Ok(Extended(m)); }
    MergedRows(loaded.value, fetched);
    var ok := WriteExtended(dir, index, m);
    if !ok { return Fail(Refused(ShardTooSmall)); }
    return Ok(Extended(m));
  }
}
