/** Conflict evidence: the record a collector leaves when the provider's history differs
    from the Store, and the auditor that rebuilds the provider's row from it. */
module ConflictAudit {
  import opened Bars
  import opened Shards

  type Row = map<string, Value>

  const FIELD_ORDER := ["open", "high", "low", "close", "volume", "source_timestamp"]

  /** `row.get(field)`: an absent field and an explicit null read the same. */
  function Get(row: Row, field: string): Value { if field in row then row[field] else Null }

  /** One listed difference; types and per-field digests follow from the two values. */
  datatype Difference = Difference(field: string, was: Value, now: Value)

  /** A conflict record; row digests stand for the rows they were taken of. */
  datatype Record = Record(fields: seq<Difference>, oldRow: Row, newRow: Row)

  function DifferencesOf(was: Row, now: Row, names: seq<string>): seq<Difference> {
    if names == [] then []
    else
      var f := names[|names| - 1];
      DifferencesOf(was, now, names[..|names| - 1])
      + if Get(was, f) != Get(now, f) then [Difference(f, Get(was, f), Get(now, f))] else []
  }

  /** `_conflict_record`. */
  method ConflictRecord(was: Row, now: Row) returns (r: Record)
    ensures r == Record(DifferencesOf(was, now, FIELD_ORDER), was, now)
  {
    var differences: seq<Difference> := [];
    for i := 0 to |FIELD_ORDER|
      invariant differences == DifferencesOf(was, now, FIELD_ORDER[..i])
    {
      assert FIELD_ORDER[..i + 1][..i] == FIELD_ORDER[..i];
      var f := FIELD_ORDER[i];
      if Get(was, f) != Get(now, f) {
        differences := differences + [Difference(f, Get(was, f), Get(now, f))];
      }
    }
    assert FIELD_ORDER[..|FIELD_ORDER|] == FIELD_ORDER;
    return Record(differences, was, now);
  }

  // ---------- the auditor ----------

  predicate Listed(fields: seq<Difference>, name: string) { exists d :: d in fields && d.field == name }

  /** Rows the listed differences allow: unlisted fields as stored, listed ones as the
      provider had them, where a null may stand for an absent field. */
  ghost predicate Allowed(stored: Row, fields: seq<Difference>, row: Row) {
    && (forall f :: !Listed(fields, f) ==> (f in row <==> f in stored) && (f in stored ==> row[f] == stored[f]))
    && (forall d :: d in fields ==> Get(row, d.field) == d.now)
  }

  /** What the auditor demands of the list itself. */
  predicate Sound(stored: Row, fields: seq<Difference>) {
    && (forall i, j :: 0 <= i < j < |fields| ==> fields[i].field != fields[j].field)
    && forall d :: d in fields ==> d.field in BAR_FIELDS && Get(stored, d.field) == d.was && d.was != d.now
  }

  /** The reconstruction loop of `_audit`: each null doubles the candidate rows. Accepted
      exactly when the list is sound and not empty and allows the recorded new row. */
  method AuditRecord(stored: Row, r: Record) returns (accepted: bool)
    ensures accepted <==> r.oldRow == stored && r.fields != [] && Sound(stored, r.fields) && Allowed(stored, r.fields, r.newRow)
  {
    if stored != r.oldRow || r.fields == [] { return false; }
    var seen: set<string> := {};
    var variants := [stored];
    AllowedNone(stored);
    for i := 0 to |r.fields|
      invariant Sound(stored, r.fields[..i]) && seen == set d | d in r.fields[..i] :: d.field
      invariant forall row :: row in variants <==> Allowed(stored, r.fields[..i], row)
    {
      var d := r.fields[i];
      assert r.fields[..i + 1] == r.fields[..i] + [d];
      if d.field !in BAR_FIELDS || d.field in seen || Get(stored, d.field) != d.was || d.was == d.now {
        Unsound(stored, r.fields, i, seen);
        return false;
      }
      SoundStep(stored, r.fields[..i], d, seen);
      seen := seen + {d.field};
      ghost var before := variants;
      variants := SetAll(variants, d);
      if d.now == Null {
        var without := DropAll(variants, d.field);
        variants := variants + without;
      }
      VariantsStep(stored, r.fields[..i], d, before, variants);
    }
    assert r.fields[..|r.fields|] == r.fields;
    return r.newRow in variants;
  }

  /** `for variant in variants: variant[name] = new`. */
  method SetAll(variants: seq<Row>, d: Difference) returns (r: seq<Row>)
    ensures |r| == |variants| && forall k :: 0 <= k < |r| ==> r[k] == variants[k][d.field := d.now]
  {
    r := [];
    for i := 0 to |variants|
      invariant |r| == i && forall k :: 0 <= k < i ==> r[k] == variants[k][d.field := d.now]
    {
      r := r + [variants[i][d.field := d.now]];
    }
  }

  /** Copies of the rows without the field. */
  method DropAll(variants: seq<Row>, field: string) returns (r: seq<Row>)
    ensures |r| == |variants| && forall k :: 0 <= k < |r| ==> r[k] == variants[k] - {field}
  {
    r := [];
    for i := 0 to |variants|
      invariant |r| == i && forall k :: 0 <= k < i ==> r[k] == variants[k] - {field}
    {
      r := r + [variants[i] - {field}];
    }
  }

  lemma AllowedNone(stored: Row)
    ensures forall row :: row in [stored] <==> Allowed(stored, [], row)
  {
    forall row | Allowed(stored, [], row) ensures row == stored {
      assert forall f :: !Listed([], f);
      assert row.Keys == stored.Keys;
    }
  }

  lemma Unsound(stored: Row, fields: seq<Difference>, i: nat, seen: set<string>)
    requires i < |fields| && seen == set d | d in fields[..i] :: d.field
    requires fields[i].field !in BAR_FIELDS || fields[i].field in seen || Get(stored, fields[i].field) != fields[i].was
             || fields[i].was == fields[i].now
    ensures !Sound(stored, fields)
  {}

  lemma SoundStep(stored: Row, fields: seq<Difference>, d: Difference, seen: set<string>)
    requires Sound(stored, fields) && seen == set x | x in fields :: x.field
    requires d.field in BAR_FIELDS && d.field !in seen && Get(stored, d.field) == d.was && d.was != d.now
    ensures Sound(stored, fields + [d])
  {}

  /** One more listed field: overwrite it in every candidate, and for a null also leave it out. */
  lemma VariantsStep(stored: Row, fields: seq<Difference>, d: Difference, before: seq<Row>, after: seq<Row>)
    requires forall row :: row in before <==> Allowed(stored, fields, row)
    requires !Listed(fields, d.field)
    requires |after| == if d.now == Null then 2 * |before| else |before|
    requires forall k :: 0 <= k < |before| ==> after[k] == before[k][d.field := d.now]
    requires d.now == Null ==> forall k :: 0 <= k < |before| ==> after[|before| + k] == before[k][d.field := d.now] - {d.field}
    ensures forall row :: row in after <==> Allowed(stored, fields + [d], row)
  {
    forall row | row in after ensures Allowed(stored, fields + [d], row) {
      var k :| 0 <= k < |after| && after[k] == row;
      var base := before[if k < |before| then k else k - |before|];
      assert base in before;
      Overwritten(stored, fields, d, base, row);
    }
    forall row | Allowed(stored, fields + [d], row) ensures row in after {
      var base := Restored(stored, fields, d, row);
      var k :| 0 <= k < |before| && before[k] == base;
      if d.field in row {
        assert base[d.field := d.now] == row;
        assert after[k] == row;
      } else {
        assert base[d.field := d.now] - {d.field} == row;
        assert after[|before| + k] == row;
      }
    }
  }

  lemma ListedStep(fields: seq<Difference>, d: Difference)
    ensures forall f :: Listed(fields + [d], f) <==> Listed(fields, f) || f == d.field
  {}

  lemma Overwritten(stored: Row, fields: seq<Difference>, d: Difference, base: Row, row: Row)
    requires Allowed(stored, fields, base) && !Listed(fields, d.field)
    requires row == base[d.field := d.now] || (d.now == Null && row == base[d.field := d.now] - {d.field})
    ensures Allowed(stored, fields + [d], row)
  {}

  /** Undo the last overwrite. */
  lemma Restored(stored: Row, fields: seq<Difference>, d: Difference, row: Row) returns (base: Row)
    requires Allowed(stored, fields + [d], row) && !Listed(fields, d.field)
    ensures Allowed(stored, fields, base)
    ensures if d.field in row then base[d.field := d.now] == row
            else d.now == Null && base[d.field := d.now] - {d.field} == row
  {
    ListedStep(fields, d);
    assert d in fields + [d];
    base := if d.field in stored then row[d.field := stored[d.field]] else row - {d.field};
    forall x | x in fields ensures Get(base, x.field) == x.now {
      assert x in fields + [d] && Listed(fields, x.field);
    }
  }

  // ---------- collector and auditor together ----------

  /** The two rows differ in a listed field. */
  predicate DifferInFields(was: Row, now: Row) { exists f :: f in BAR_FIELDS && Get(was, f) != Get(now, f) }

  /** Outside the listed fields the rows are the same, and no new null stands where the stored row has nothing. */
  predicate Rebuildable(was: Row, now: Row) {
    && (forall f :: f in was.Keys + now.Keys && f !in BAR_FIELDS ==> f in was && f in now && was[f] == now[f])
    && (forall f :: f in BAR_FIELDS && f in now && now[f] == Null ==> f in was)
  }

  lemma {:induction false} DifferencesMeaning(was: Row, now: Row, names: seq<string>)
    requires forall i, j :: 0 <= i < j < |names| ==> names[i] != names[j]
    ensures var ds := DifferencesOf(was, now, names);
            && (forall d :: d in ds <==>
                  d.field in names && d.was == Get(was, d.field) && d.now == Get(now, d.field) && d.was != d.now)
            && (forall i, j :: 0 <= i < j < |ds| ==> ds[i].field != ds[j].field)
  {
    if names != [] {
      var init, f := names[..|names| - 1], names[|names| - 1];
      DifferencesMeaning(was, now, init);
      assert forall x :: x in names <==> x in init || x == f;
      assert forall d :: d in DifferencesOf(was, now, init) ==> d.field != f;
    }
  }

  lemma FieldOrder()
    ensures forall f :: f in FIELD_ORDER <==> f in BAR_FIELDS
    ensures forall i, j :: 0 <= i < j < |FIELD_ORDER| ==> FIELD_ORDER[i] != FIELD_ORDER[j]
  {}

  /** Exactly which conflict records of a null-free stored row the auditor accepts. */
  lemma AcceptedIff(was: Row, now: Row)
    requires forall f :: f in was ==> was[f] != Null
    ensures var r := Record(DifferencesOf(was, now, FIELD_ORDER), was, now);
            r.fields != [] && Sound(was, r.fields) && Allowed(was, r.fields, now)
            <==> DifferInFields(was, now) && Rebuildable(was, now)
  {
    var ds := DifferencesOf(was, now, FIELD_ORDER);
    FieldOrder();
    DifferencesMeaning(was, now, FIELD_ORDER);
    hide *;
    ListedIff(was, now, ds);
    AllowedIffRebuildable(was, now, ds);
  }

  /** A record of two rows that differ, which the auditor nevertheless rejects: the new row
      has an explicit null where the stored row has nothing. */
  lemma RejectedRecordExample() returns (was: Row, now: Row)
    ensures (forall f :: f in was ==> was[f] != Null) && DifferInFields(was, now)
    ensures var r := Record(DifferencesOf(was, now, FIELD_ORDER), was, now);
            !(r.oldRow == was && r.fields != [] && Sound(was, r.fields) && Allowed(was, r.fields, r.newRow))
  {
    was, now := map["close" := Int(1)], map["close" := Int(2), "open" := Null];
    assert Get(was, "close") != Get(now, "close");
    assert "open" in now && "open" !in was;
    AcceptedIff(was, now);
  }

  /** The list built by the collector is sound, and lists exactly the fields that read differently. */
  lemma ListedIff(was: Row, now: Row, ds: seq<Difference>)
    requires forall d :: d in ds <==>
               d.field in BAR_FIELDS && d.was == Get(was, d.field) && d.now == Get(now, d.field) && d.was != d.now
    requires forall i, j :: 0 <= i < j < |ds| ==> ds[i].field != ds[j].field
    ensures Sound(was, ds) && (ds != [] <==> DifferInFields(was, now))
    ensures forall d :: d in ds ==> d.now == Get(now, d.field)
    ensures forall f :: f in BAR_FIELDS && Get(was, f) != Get(now, f) <==> Listed(ds, f)
  {
    forall f | f in BAR_FIELDS && Get(was, f) != Get(now, f) ensures Listed(ds, f) {
      assert Difference(f, Get(was, f), Get(now, f)) in ds;
    }
    if ds != [] { assert ds[0] in ds; }
  }

  lemma AllowedIffRebuildable(was: Row, now: Row, ds: seq<Difference>)
    requires forall f :: f in was ==> was[f] != Null
    requires forall d :: d in ds ==> d.now == Get(now, d.field)
    requires forall f :: f in BAR_FIELDS && Get(was, f) != Get(now, f) <==> Listed(ds, f)
    ensures Allowed(was, ds, now) <==> Rebuildable(was, now)
  {}

  /** What the provider parser delivers, known fields and no null, is always accepted
      when it differs from a stored row. */
  lemma FetchedRowsAreAccepted(was: Bar, now: Row)
    requires WellFormed(was) && now.Keys <= BAR_FIELDS && (forall f :: f in now ==> now[f] != Null) && now != was.fields
    ensures var r := Record(DifferencesOf(was.fields, now, FIELD_ORDER), was.fields, now);
            r.fields != [] && Sound(was.fields, r.fields) && Allowed(was.fields, r.fields, r.newRow)
  {
    AcceptedIff(was.fields, now);
    if !DifferInFields(was.fields, now) { SameFields(was.fields, now); }
  }

  lemma SameFields(a: Row, b: Row)
    requires a.Keys <= BAR_FIELDS && b.Keys <= BAR_FIELDS && !DifferInFields(a, b)
    requires (forall f :: f in a ==> a[f] != Null) && forall f :: f in b ==> b[f] != Null
    ensures a == b
  {}

  // ---------- where the stored row is ----------

  /** `_store_source_reference`: the first shard holding the day, and the row's position in the series. */
  method StoreSourceReference(docs: seq<Doc>, day: int) returns (r: Option<(nat, int)>)
    ensures r.Some? ==> var (k, n) := r.value;
              k < |docs| && 0 <= n - docs[k].start < |docs[k].records| && docs[k].records[n - docs[k].start].day == day
    ensures r.None? <==> forall k :: 0 <= k < |docs| ==> day !in Days(docs[k].records)
  {
    for k := 0 to |docs|
      invariant forall j :: 0 <= j < k ==> day !in Days(docs[j].records)
    {
      for offset := 0 to |docs[k].records|
        invariant forall i :: 0 <= i < offset ==> docs[k].records[i].day != day
      {
        if docs[k].records[offset].day == day {
          assert day in Days(docs[k].records);
          return Some((k, docs[k].start + offset));
        }
      }
    }
    return None;
  }

  /** The position the collector recorded is where the auditor, counting rows shard by
      shard, finds the very row of that day. */
  lemma {:induction false} PositionPointsBack(docs: seq<Doc>, id: SeriesId, start: int, k: nat, n: int)
    requires Contiguous(docs, id, start) && k < |docs| && 0 <= n - docs[k].start < |docs[k].records|
    ensures 0 <= n - start < |Flatten(docs)| && Flatten(docs)[n - start] == docs[k].records[n - docs[k].start]
    ensures docs[k].start == start + |Flatten(docs[..k])|
  {
    if k == 0 {
      assert docs[..0] == [];
    } else {
      PositionPointsBack(docs[1..], id, start + |docs[0].records|, k - 1, n);
      assert docs[..k][1..] == docs[1..][..k - 1];
    }
  }
}
