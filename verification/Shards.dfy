/** Shards: a series is cut into documents by a greedy rule bounded by a record
    limit and a byte limit. The byte length of a document is a parameter, so
    every result holds for any size function, monotone or not. */
module Shards {
  import opened Bars

  datatype SeriesId = SeriesId(provider: string, symbol: string)

  datatype Doc = Doc(id: SeriesId, start: int, records: seq<Bar>) {
    function Plus(rows: seq<Bar>): Doc { this.(records := records + rows) }
  }

  // SHA-256 of the canonical text and the Git blob name, taken as injective.
  datatype Digest = Sha256(doc: Doc) | Blob(doc: Doc)

  datatype Limits = Limits(records: int, bytes: int)

  /** An index entry. `path` stands for the file named by that six-digit number. */
  datatype Meta = Meta(path: int, start: int, end: int, count: int, sealed: bool,
                       byteLength: int, sha: Digest, blob: Digest)

  function ShardMeta(size: Doc -> nat, path: int, start: int, doc: Doc, sealed: bool): Meta {
    Meta(path, start, start + |doc.records| - 1, |doc.records|, sealed, size(doc), Sha256(doc), Blob(doc))
  }

  /** Index entries for freshly packed documents: all sealed but the last. */
  function Metas(size: Doc -> nat, docs: seq<Doc>): (m: seq<Meta>)
    ensures |m| == |docs|
  {
    seq(|docs|, i requires 0 <= i < |docs| => ShardMeta(size, docs[i].start, docs[i].start, docs[i], i < |docs| - 1))
  }

  function Flatten(docs: seq<Doc>): seq<Bar> {
    if docs == [] then [] else docs[0].records + Flatten(docs[1..])
  }

  lemma FlattenNone()
    ensures Flatten([]) == []
  {}

  lemma FlattenCons(d: Doc, docs: seq<Doc>)
    ensures Flatten([d] + docs) == d.records + Flatten(docs)
  {}

  /** Documents that follow one another without gap or overlap, none empty. */
  ghost predicate Contiguous(docs: seq<Doc>, id: SeriesId, start: int) {
    docs == [] || (docs[0].id == id && docs[0].start == start && docs[0].records != []
                   && Contiguous(docs[1..], id, start + |docs[0].records|))
  }

  /** What a packing run wrote, and whether every row found a place. */
  datatype Packing = Packing(docs: seq<Doc>, complete: bool)

  datatype Packer = Packer(size: Doc -> nat, limits: Limits) {

    predicate Fits(doc: Doc) {
      |doc.records| <= limits.records && size(doc) <= limits.bytes
    }

    /** How many pending rows an open shard takes before the first that does not fit. */
    function Grow(doc: Doc, pending: seq<Bar>): (n: nat)
      ensures n <= |pending|
    {
      GrowFrom(doc, pending, 0)
    }

    /** The same, once the first `k` pending rows are known to fit. */
    function GrowFrom(doc: Doc, pending: seq<Bar>, k: nat): (n: nat)
      requires k <= |pending|
      ensures k <= n <= |pending|
      decreases |pending| - k
    {
      if k == |pending| || !Fits(doc.Plus(pending[..k + 1])) then k else GrowFrom(doc, pending, k + 1)
    }

    /** Cut `rows` into new shards from position `start`; stop at a row that fits in no shard. */
    function Pack(id: SeriesId, start: int, rows: seq<Bar>): Packing
      decreases |rows|
    {
      if rows == [] then Packing([], true)
      else
        var n := Grow(Doc(id, start, []), rows);
        if n == 0 then Packing([], false)
        else
          var rest := Pack(id, start + n, rows[n..]);
          Packing([Doc(id, start, rows[..n])] + rest.docs, rest.complete)
    }

    /** Fill the open shard first, then cut new ones. */
    function Extend(open: Doc, rows: seq<Bar>): Packing {
      var n := Grow(open, rows);
      var rest := Pack(open.id, open.start + |open.records| + n, rows[n..]);
      Packing([open.Plus(rows[..n])] + rest.docs, rest.complete)
    }

    // ---------- the rule without the loop ----------

    /** `docs` cuts `rows` so that every prefix of a shard fits and no shard could take its next row. */
    ghost predicate Greedy(docs: seq<Doc>, id: SeriesId, start: int, rows: seq<Bar>)
      decreases |docs|
    {
      if docs == [] then rows == []
      else
        var n := |docs[0].records|;
        && 0 < n <= |rows|
        && docs[0] == Doc(id, start, rows[..n])
        && (forall k :: 1 <= k <= n ==> k <= limits.records && size(Doc(id, start, rows[..k])) <= limits.bytes)
        && (n < |rows| ==> n + 1 > limits.records || size(Doc(id, start, rows[..n + 1])) > limits.bytes)
        && Greedy(docs[1..], id, start + n, rows[n..])
    }

    lemma {:induction false} GrowMeaning(doc: Doc, pending: seq<Bar>, from: nat)
      requires from <= |pending|
      ensures var n := GrowFrom(doc, pending, from);
              && (forall k :: from < k <= n ==> Fits(doc.Plus(pending[..k])))
              && (n < |pending| ==> !Fits(doc.Plus(pending[..n + 1])))
      decreases |pending| - from
    {
      if from < |pending| && Fits(doc.Plus(pending[..from + 1])) {
        GrowMeaning(doc, pending, from + 1);
      }
    }

    /** The greedy conditions leave exactly one choice. */
    lemma {:induction false} GrowUnique(doc: Doc, pending: seq<Bar>, n: nat)
      requires n <= |pending|
      requires forall k :: 1 <= k <= n ==> Fits(doc.Plus(pending[..k]))
      requires n < |pending| ==> !Fits(doc.Plus(pending[..n + 1]))
      ensures Grow(doc, pending) == n
    {
      GrowMeaning(doc, pending, 0);
    }

    lemma PackStep(id: SeriesId, start: int, rows: seq<Bar>, n: nat)
      requires n == Grow(Doc(id, start, []), rows) > 0
      ensures Pack(id, start, rows) ==
              Packing([Doc(id, start, rows[..n])] + Pack(id, start + n, rows[n..]).docs,
                      Pack(id, start + n, rows[n..]).complete)
    {}

    lemma PackNone(id: SeriesId, start: int)
      ensures Pack(id, start, []) == Packing([], true)
    {}

    lemma PackHalt(id: SeriesId, start: int, rows: seq<Bar>)
      requires rows != [] && Grow(Doc(id, start, []), rows) == 0
      ensures Pack(id, start, rows) == Packing([], false)
      ensures !Fits(Doc(id, start, [rows[0]]))
    {
      GrowMeaning(Doc(id, start, []), rows, 0);
      assert Doc(id, start, []).Plus(rows[..1]) == Doc(id, start, [rows[0]]);
    }

    lemma GreedyStep(docs: seq<Doc>, id: SeriesId, start: int, rows: seq<Bar>)
      requires rows != []
      ensures var n := Grow(Doc(id, start, []), rows);
              Greedy(docs, id, start, rows) <==>
              n > 0 && docs != [] && docs[0] == Doc(id, start, rows[..n]) && Greedy(docs[1..], id, start + n, rows[n..])
    {
      var empty := Doc(id, start, []);
      GrowMeaning(empty, rows, 0);
      forall k | 0 <= k <= |rows| ensures empty.Plus(rows[..k]) == Doc(id, start, rows[..k]) {}
      if docs != [] && Greedy(docs, id, start, rows) {
        GrowUnique(empty, rows, |docs[0].records|);
      }
    }

    /** Packing computes the greedy cut and nothing else does: `docs` is the
        complete packing of `rows` exactly when it satisfies the greedy conditions. */
    lemma {:induction false} PackIsGreedy(docs: seq<Doc>, id: SeriesId, start: int, rows: seq<Bar>)
      ensures Pack(id, start, rows) == Packing(docs, true) <==> Greedy(docs, id, start, rows)
      decreases |rows|
    {
      hide *;
      if rows == [] {
        PackNone(id, start);
        GreedyNone(docs, id, start);
      } else {
        GreedyStep(docs, id, start, rows);
        var n := Grow(Doc(id, start, []), rows);
        if n == 0 {
          PackHalt(id, start, rows);
        } else {
          PackStep(id, start, rows, n);
          var rest := Pack(id, start + n, rows[n..]);
          ConsIs(Doc(id, start, rows[..n]), rest.docs, docs);
          if docs != [] { PackIsGreedy(docs[1..], id, start + n, rows[n..]); }
          assert rest == Packing(rest.docs, rest.complete);
        }
      }
    }

    lemma GreedyNone(docs: seq<Doc>, id: SeriesId, start: int)
      ensures Greedy(docs, id, start, []) <==> docs == []
    {}

    lemma ConsIs(first: Doc, rest: seq<Doc>, docs: seq<Doc>)
      ensures [first] + rest == docs <==> docs != [] && docs[0] == first && docs[1..] == rest
    {}

    /** Packed documents follow one another from `start`, none empty, all within the limits. */
    lemma {:induction false} PackShape(id: SeriesId, start: int, rows: seq<Bar>)
      ensures var p := Pack(id, start, rows);
              Contiguous(p.docs, id, start) && (forall d :: d in p.docs ==> Fits(d))
      decreases |rows|
    {
      if rows != [] {
        var empty := Doc(id, start, []);
        var n := Grow(empty, rows);
        GrowMeaning(empty, rows, 0);
        if n > 0 {
          PackShape(id, start + n, rows[n..]);
          assert empty.Plus(rows[..n]) == Doc(id, start, rows[..n]);
        }
      }
    }

    /** Packed documents carry the rows in order; packing stops early only at a
        row that fits in no shard of its own. */
    lemma {:induction false} PackCarries(id: SeriesId, start: int, rows: seq<Bar>)
      ensures var p := Pack(id, start, rows); var s := |Flatten(p.docs)|;
              && s <= |rows| && Flatten(p.docs) == rows[..s]
              && (p.complete <==> s == |rows|)
              && (!p.complete ==> !Fits(Doc(id, start + s, [rows[s]])))
      decreases |rows|
    {
      hide *;
      FlattenNone();
      if rows == [] {
        PackNone(id, start);
      } else {
        var n := Grow(Doc(id, start, []), rows);
        if n == 0 {
          PackHalt(id, start, rows);
        } else {
          PackStep(id, start, rows, n);
          PackCarries(id, start + n, rows[n..]);
          var rest := Pack(id, start + n, rows[n..]).docs;
          FlattenCons(Doc(id, start, rows[..n]), rest);
          SliceJoin(rows, n, |Flatten(rest)|);
        }
      }
    }

    /** Growing by a longer queue: if all of `a` fits, `b` continues where `a` stopped. */
    lemma {:induction false} GrowAppend(doc: Doc, a: seq<Bar>, b: seq<Bar>)
      ensures Grow(doc, a) < |a| ==> Grow(doc, a + b) == Grow(doc, a)
      ensures Grow(doc, a) == |a| ==> Grow(doc, a + b) == |a| + Grow(doc.Plus(a), b)
    {
      GrowMeaning(doc, a, 0);
      forall k | 0 <= k <= |a| ensures (a + b)[..k] == a[..k] {}
      if Grow(doc, a) < |a| {
        GrowUnique(doc, a + b, Grow(doc, a));
      } else {
        var m := Grow(doc.Plus(a), b);
        GrowMeaning(doc.Plus(a), b, 0);
        forall k | 0 <= k <= |b| ensures doc.Plus((a + b)[..|a| + k]) == doc.Plus(a).Plus(b[..k]) {
          SliceBeyond(a, b, k);
          assert doc.records + (a + b[..k]) == (doc.records + a) + b[..k];
        }
        forall k | 1 <= k <= |a| + m ensures Fits(doc.Plus((a + b)[..k])) {
          if k > |a| {
            assert Fits(doc.Plus(a).Plus(b[..k - |a|]));
          }
        }
        GrowUnique(doc, a + b, |a| + m);
      }
    }

    /** Appending in two steps cuts the same shards as appending at once: continuing
        the last shard of a complete packing of `a` with `b` is the packing of `a + b`. */
    lemma {:induction false} PackResume(id: SeriesId, start: int, a: seq<Bar>, b: seq<Bar>)
      requires a != [] && Pack(id, start, a).complete
      ensures var p := Pack(id, start, a).docs;
              p != [] && var e := Extend(p[|p| - 1], b);
              Pack(id, start, a + b) == Packing(p[..|p| - 1] + e.docs, e.complete)
      decreases |a|
    {
      hide *;
      var n := Grow(Doc(id, start, []), a);
      if n < |a| {
        if n == 0 { PackHalt(id, start, a); }
        PackStep(id, start, a, n);
        var q := Pack(id, start + n, a[n..]).docs;
        PackResume(id, start + n, a[n..], b);
        assert Grow(Doc(id, start, []), a + b) == n by { GrowAppend(Doc(id, start, []), a, b); }
        SliceInside(a, b, n);
        PackStep(id, start, a + b, n);
        InitCons(Doc(id, start, a[..n]), q);
        assert [Doc(id, start, a[..n])] + (q[..|q| - 1] + Extend(q[|q| - 1], b).docs)
            == [Doc(id, start, a[..n])] + q[..|q| - 1] + Extend(q[|q| - 1], b).docs;
      } else {
        OneShard(id, start, a);
        ResumeOneShard(id, start, a, b);
      }
    }

    lemma OneShard(id: SeriesId, start: int, a: seq<Bar>)
      requires a != [] && Grow(Doc(id, start, []), a) == |a|
      ensures Pack(id, start, a) == Packing([Doc(id, start, a)], true)
    {
      PackStep(id, start, a, |a|);
      assert a[..|a|] == a && a[|a|..] == [];
    }

    lemma ResumeOneShard(id: SeriesId, start: int, a: seq<Bar>, b: seq<Bar>)
      requires a != [] && Grow(Doc(id, start, []), a) == |a|
      ensures Pack(id, start, a + b) == Extend(Doc(id, start, a), b)
    {
      var m := Grow(Doc(id, start, a), b);
      hide Pack, Grow, GrowFrom, Fits;
      assert Grow(Doc(id, start, []), a + b) == |a| + m by {
        GrowAppend(Doc(id, start, []), a, b);
        assert Doc(id, start, []).Plus(a) == Doc(id, start, a);
      }
      assert (a + b)[..|a| + m] == a + b[..m] && (a + b)[|a| + m..] == b[m..] by { SliceBeyond(a, b, m); }
      PackStep(id, start, a + b, |a| + m);
    }

    /** A packing that gets stuck stays stuck, at the same place, whatever follows. */
    lemma {:induction false} PackStuck(id: SeriesId, start: int, a: seq<Bar>, b: seq<Bar>)
      requires !Pack(id, start, a).complete
      ensures Pack(id, start, a + b) == Pack(id, start, a)
      decreases |a|
    {
      var n := Grow(Doc(id, start, []), a);
      GrowAppend(Doc(id, start, []), a, b);
      if n > 0 && n < |a| {
        PackStuck(id, start + n, a[n..], b);
        SliceInside(a, b, n);
      }
    }
  }
}
