/** The series a recovery replaces: what the originals must look like, the directory and the
    archive staged in their place, and the validation of what was staged. */
module Candidates {
  import opened Bars
  import opened SeriesStore
  import Shards
  import StoreLaws
  import Rebase
  import Replacements

  /** A target series as loaded, and once qualified the rows to replace its rows. */
  datatype Entry = Entry(symbol: string, files: map<int, Shards.Doc>, index: Index, existing: seq<Bar>, rows: seq<Bar>)
  {
    function Old(): Disk { Disk(files, Some(index)) }
  }

  datatype Rules = Rules(size: Shards.Doc -> nat, provider: string, effective: map<string, int>,
                         assets: map<string, string>, cutoff: int, today: int, settings: Rebase.Settings)

  function EffectiveOf(rules: Rules, symbol: string): Option<int> {
    if symbol in rules.effective then Some(rules.effective[symbol]) else None
  }

  // ---------- the originals ----------

  /** `series_paths`: the index names its shard files, each once, and there are no others. */
  predicate Listed(files: map<int, Shards.Doc>, metas: seq<Shards.Meta>) {
    && metas != [] && (forall i, j :: 0 <= i < j < |metas| ==> metas[i].path != metas[j].path)
    && files.Keys == Rebase.Paths(metas)
  }

  /** `prepare_series`: the identity the target demands of an index; the asset class only if
      the target names one. */
  predicate Identified(identity: Identity, symbol: string, rules: Rules) {
    && identity.provider == rules.provider && identity.symbol == symbol && identity.session == "regular"
    && identity.semantics == "daily_regular_ohlcv" && identity.adjustment == "provider_reported"
    && identity.effective == EffectiveOf(rules, symbol)
    && (symbol in rules.assets ==> identity.assetClass == rules.assets[symbol])
  }

  /** The series in a directory, if it can be a target. */
  function Load(disk: Disk, symbol: string, rules: Rules): (r: Option<Entry>)
    ensures r.Some? ==> r.value.symbol == symbol && r.value.Old() == disk && Original(r.value, rules)
  {
    match disk.index
    case None => None
    case Some(index) =>
      if !Listed(disk.files, index.shards) || !Identified(index.identity, symbol, rules) then None
      else
        match ReadDisk(rules.size, disk)
        case Fail(_) => None
        case Ok(existing) =>
          if Rebase.OutputSize(existing, rules.cutoff, rules.settings.target, rules.today).Fail? then None
          else Some(Entry(symbol, disk.files, index, existing, []))
  }

  predicate Original(e: Entry, rules: Rules) {
    && Listed(e.files, e.index.shards) && Identified(e.index.identity, e.symbol, rules)
    && e.existing != [] && ReadDisk(rules.size, e.Old()) == Ok(e.existing)
  }

  /** A directory that can be a target: every shard file is listed, once, and nothing else is
      there; the index has the identity demanded; the series reads and is not empty; and the
      provider can return its whole span and the target. */
  ghost predicate Usable(disk: Disk, symbol: string, rules: Rules) {
    && disk.index.Some?
    && var index, metas := disk.index.value, disk.index.value.shards;
    && metas != [] && (forall i, j :: 0 <= i < j < |metas| ==> metas[i].path != metas[j].path)
    && (forall p :: p in disk.files <==> exists i :: 0 <= i < |metas| && metas[i].path == p)
    && index.identity.provider == rules.provider && index.identity.symbol == symbol
    && index.identity.session == "regular" && index.identity.semantics == "daily_regular_ohlcv"
    && index.identity.adjustment == "provider_reported"
    && (symbol in rules.assets ==> index.identity.assetClass == rules.assets[symbol])
    && (match index.identity.effective
        case None => symbol !in rules.effective
        case Some(day) => symbol in rules.effective && rules.effective[symbol] == day)
    && ReadDisk(rules.size, disk).Ok? && ReadDisk(rules.size, disk).value != []
    && rules.settings.target >= 1 && rules.cutoff <= rules.today
    && rules.settings.target + (rules.today - rules.cutoff) + 1 <= Rebase.REQUEST_LIMIT
    && rules.today - ReadDisk(rules.size, disk).value[0].day + 1 <= Rebase.REQUEST_LIMIT
  }

  lemma LoadMeaning(disk: Disk, symbol: string, rules: Rules)
    ensures Load(disk, symbol, rules).Some? <==> Usable(disk, symbol, rules)
  {
    hide ReadDisk;
    if disk.index.Some? { ListedMeaning(disk.files, disk.index.value.shards); }
  }

  lemma ListedMeaning(files: map<int, Shards.Doc>, metas: seq<Shards.Meta>)
    ensures files.Keys == Rebase.Paths(metas)
       <==> forall p :: p in files <==> exists i :: 0 <= i < |metas| && metas[i].path == p
  {
    assert forall p :: p in Rebase.Paths(metas) <==> exists i :: 0 <= i < |metas| && metas[i].path == p;
    if forall p :: p in files <==> exists i :: 0 <= i < |metas| && metas[i].path == p {
      assert forall p :: p in files.Keys <==> p in Rebase.Paths(metas);
    }
  }

  // ---------- the replacement ----------

  /** `compare_replacement` and `qualify`: the same rules a rebase applies. */
  function Qualify(e: Entry, fetched: seq<Bar>, rules: Rules): Option<seq<Bar>> {
    if e.existing == [] || rules.settings.target < 1 || exists b :: b in fetched && !Rebase.FullBar(b) then None
    else
      match Rebase.SelectWindow(e.existing, SortByDay(fetched), EffectiveOf(rules, e.symbol), rules.cutoff,
                                rules.settings.target)
      case Fail(_) => None
      case Ok(rows) =>
        if Rebase.Validated(e.existing, rows, rules.settings.limit, rules.settings.tail).Ok? then Some(rows) else None
  }

  /** The rows may replace the series: full bars in strict date order, before the cutoff and
      not before the effective date, that the comparison accepts. */
  ghost predicate Qualified(e: Entry, rules: Rules) {
    && Rebase.Validated(e.existing, e.rows, rules.settings.limit, rules.settings.tail).Ok? && Ascending(e.rows)
    && forall b :: b in e.rows ==>
         Rebase.FullBar(b) && Replacements.Eligible(b, EffectiveOf(rules, e.symbol), rules.cutoff)
  }

  /** What qualifies of an answer, said of the answer: all its rows must be full bars and the
      kept ones acceptable; what qualifies is then exactly the kept rows, in date order. */
  lemma QualifyMeaning(e: Entry, answer: seq<Bar>, rules: Rules)
    requires Ascending(e.existing)
    ensures var s, effective := rules.settings, EffectiveOf(rules, e.symbol);
            Qualify(e, answer, rules).Some? <==>
            && e.existing != [] && s.target >= 1 && (forall b :: b in answer ==> Rebase.FullBar(b))
            && Replacements.GoesAhead(e.existing, answer, effective, rules.cutoff, s.target, s.limit, s.tail)
    ensures Qualify(e, answer, rules).Some? ==>
              Replacements.KeepsExactly(Qualify(e, answer, rules).value, answer, e.existing[0].day,
                                        EffectiveOf(rules, e.symbol), rules.cutoff, rules.settings.target)
  {
    hide *;
    var s := rules.settings;
    if e.existing != [] && s.target >= 1 {
      Replacements.AnswerMeaning(e.existing, answer, EffectiveOf(rules, e.symbol), rules.cutoff, s.target, s.limit, s.tail);
    }
    QualifyIs(e, answer, rules);
  }

  lemma QualifyIs(e: Entry, answer: seq<Bar>, rules: Rules)
    ensures var s, q := rules.settings, Qualify(e, answer, rules);
            && (e.existing == [] || s.target < 1 ==> q.None?)
            && (e.existing != [] && s.target >= 1 ==>
                  var w := Rebase.SelectWindow(e.existing, SortByDay(answer), EffectiveOf(rules, e.symbol), rules.cutoff,
                                               s.target);
                  && (q.Some? <==> (forall b :: b in answer ==> Rebase.FullBar(b)) && w.Ok?
                                   && Rebase.Validated(e.existing, w.value, s.limit, s.tail).Ok?)
                  && (q.Some? ==> q.value == w.value))
  {
    hide SortByDay, Rebase.SelectWindow, Rebase.Validated, Rebase.FullBar;
  }

  lemma QualifyAgain(e: Entry, answer: seq<Bar>, rules: Rules, rows: seq<Bar>)
    ensures Qualify(e.(rows := rows), answer, rules) == Qualify(e, answer, rules)
  {
    hide SortByDay, Rebase.SelectWindow, Rebase.Validated, Rebase.FullBar;
  }

  /** What qualifies may replace the series. */
  lemma QualifyOrders(e: Entry, fetched: seq<Bar>, rules: Rules)
    requires Ascending(e.existing) && Qualify(e, fetched, rules).Some?
    ensures Qualified(e.(rows := Qualify(e, fetched, rules).value), rules)
  {
    QualifyMeaning(e, fetched, rules);
    QualifyValidated(e, fetched, rules);
    hide Qualify, Rebase.Validated, Rebase.FullBar, Replacements.CountFrom, Replacements.GoesAhead;
  }

  lemma QualifyValidated(e: Entry, fetched: seq<Bar>, rules: Rules)
    requires Qualify(e, fetched, rules).Some?
    ensures Rebase.Validated(e.existing, Qualify(e, fetched, rules).value, rules.settings.limit, rules.settings.tail).Ok?
  {
    hide SortByDay, Rebase.SelectWindow, Rebase.Validated, Rebase.FullBar;
  }

  // ---------- the staged directory ----------

  function PackerOf(e: Entry, rules: Rules): Shards.Packer { Shards.Packer(rules.size, Rebase.Effective(e.index.limits)) }

  /** The replacement can be cut into shards. */
  predicate Cuts(e: Entry, rules: Rules) {
    e.rows != [] && PackerOf(e, rules).Pack(e.index.identity.Series(), 0, SortByDay(e.rows)).complete
  }

  /** It can exactly if there is a greedy cut of its rows. */
  ghost predicate Cuttable(e: Entry, rules: Rules) {
    e.rows != [] && exists docs :: PackerOf(e, rules).Greedy(docs, e.index.identity.Series(), 0, e.rows)
  }

  lemma CutsMeaning(e: Entry, rules: Rules)
    requires Ascending(e.rows)
    ensures Cuts(e, rules) <==> Cuttable(e, rules)
  {
    var p, id := PackerOf(e, rules), e.index.identity.Series();
    SortFixed(e.rows);
    hide SortByDay, Shards.Packer.Pack, Shards.Packer.Greedy;
    var packed := p.Pack(id, 0, e.rows);
    if packed.complete {
      p.PackIsGreedy(packed.docs, id, 0, e.rows);
    } else {
      forall docs ensures !p.Greedy(docs, id, 0, e.rows) { p.PackIsGreedy(docs, id, 0, e.rows); }
    }
  }

  /** What `_replace_series` leaves of a directory. */
  function NewDisk(e: Entry, rules: Rules): Disk {
    var rows := SortByDay(e.rows);
    if rows == [] then e.Old()
    else Rebase.Rewritten(PackerOf(e, rules), e.Old(), e.index, rows, [Segment("rebase", 0, |rows| - 1)])
  }

  /** What `_archive_old_series` writes beside it. */
  function NewArchive(e: Entry, rules: Rules): Rebase.Archive {
    var checked := Rebase.Validated(e.existing, e.rows, rules.settings.limit, rules.settings.tail);
    Rebase.Archive(e.index, e.existing, if checked.Ok? then checked.value else [], |e.rows|)
  }

  /** Index entries that follow one another from `cursor` on. */
  predicate Adjoining(metas: seq<Shards.Meta>, cursor: int) {
    metas == [] || (metas[0].start == cursor && metas[0].end == cursor + metas[0].count - 1
                    && Adjoining(metas[1..], cursor + metas[0].count))
  }

  /** `validate_candidate`, for one series and its archive. */
  predicate Validates(e: Entry, rules: Rules, disk: Disk, archive: Rebase.Archive) {
    && disk.index.Some?
    && var next := disk.index.value;
    && Listed(disk.files, next.shards) && ReadDisk(rules.size, disk) == Ok(e.rows)
    && next.identity == e.index.identity && next.limits == e.index.limits
    && e.rows != [] && next.first == Some(e.rows[0].day) && next.last == Some(e.rows[|e.rows| - 1].day)
    && next.recordCount == |e.rows| && Adjoining(next.shards, 0)
    && archive.index == e.index && archive.rows == e.existing && archive.replacementCount == |e.rows|
    && Rebase.Validated(e.existing, e.rows, rules.settings.limit, rules.settings.tail) == Ok(archive.revisions)
  }

  /** The validation never refuses what was staged: of an original without stray files, a
      qualified replacement that can be cut leaves a directory that lists exactly its own
      shards, in the canonical cut, and reads as exactly the qualified rows. */
  lemma StagedValidates(e: Entry, rules: Rules)
    requires Original(e, rules) && Qualified(e, rules) && Cuts(e, rules)
    ensures Validates(e, rules, NewDisk(e, rules), NewArchive(e, rules))
    ensures StoreLaws.Canonical(PackerOf(e, rules), NewDisk(e, rules), e.rows)
    ensures ReadDisk(rules.size, NewDisk(e, rules)) == Ok(e.rows)
    ensures var was, now := e.index, NewDisk(e, rules).index;
            now.Some? && now.value.identity == was.identity && now.value.limits == was.limits
    // and the archive keeps the index and the rows replaced, and lists the changes
    ensures NewArchive(e, rules).index == e.index && NewArchive(e, rules).rows == e.existing
    ensures Rebase.ListsChanges(e.existing, e.rows, NewArchive(e, rules).revisions)
  {
    hide *;
    OriginalIs(e, rules);
    var p, id := PackerOf(e, rules), e.index.identity.Series();
    var lineage := [Segment("rebase", 0, |e.rows| - 1)];
    var disk := NewDisk(e, rules);
    var docs := p.Pack(id, 0, e.rows).docs;
    Rebase.RewrittenCanonical(p, e.Old(), e.index, e.rows, lineage);
    RewrittenFacts(p, e.Old(), e.index, e.rows, lineage);
    StoreLaws.CanonicalFacts(p, disk, e.rows);
    p.PackShape(id, 0, e.rows);
    StagedListed(p.size, e.files, e.index.shards, docs, id);
    ArchiveIs(e, rules);
    ArchiveLists(e, rules);
    AllValid(e, rules, disk, NewArchive(e, rules));
  }

  lemma OriginalIs(e: Entry, rules: Rules)
    requires Original(e, rules) && Qualified(e, rules) && Cuts(e, rules)
    ensures Listed(e.files, e.index.shards) && Ascending(e.rows) && e.rows != []
    ensures var p, id := PackerOf(e, rules), e.index.identity.Series();
            && p.size == rules.size && p.Pack(id, 0, e.rows).complete
            && NewDisk(e, rules)
               == Rebase.Rewritten(p, e.Old(), e.index, e.rows, [Segment("rebase", 0, |e.rows| - 1)])
            && e.Old().files == e.files
  {
    SortFixed(e.rows);
    hide SortByDay, Rebase.Rewritten, Shards.Packer.Pack, Rebase.Validated, ReadDisk, Listed, Identified, Ascending;
  }

  lemma ArchiveIs(e: Entry, rules: Rules)
    requires Qualified(e, rules)
    ensures var archive := NewArchive(e, rules);
            && archive.index == e.index && archive.rows == e.existing && archive.replacementCount == |e.rows|
            && Rebase.Validated(e.existing, e.rows, rules.settings.limit, rules.settings.tail) == Ok(archive.revisions)
  {
    hide Rebase.Validated;
  }

  lemma ArchiveLists(e: Entry, rules: Rules)
    requires Original(e, rules) && Qualified(e, rules)
    ensures Rebase.ListsChanges(e.existing, e.rows, NewArchive(e, rules).revisions)
  {
    hide Rebase.Validated, Rebase.ListsChanges, ReadRows, Ascending, Listed, Identified;
    Rebase.ReadAscends(rules.size, e.files, e.index);
    Rebase.ValidatedMeaning(e.existing, e.rows, rules.settings.limit, rules.settings.tail);
  }

  lemma AllValid(e: Entry, rules: Rules, disk: Disk, archive: Rebase.Archive)
    requires disk.index.Some?
    requires var next := disk.index.value;
             && Listed(disk.files, next.shards) && ReadDisk(rules.size, disk) == Ok(e.rows)
             && next.identity == e.index.identity && next.limits == e.index.limits
             && e.rows != [] && next.first == Some(e.rows[0].day) && next.last == Some(e.rows[|e.rows| - 1].day)
             && next.recordCount == |e.rows| && Adjoining(next.shards, 0)
    requires archive.index == e.index && archive.rows == e.existing && archive.replacementCount == |e.rows|
    requires Rebase.Validated(e.existing, e.rows, rules.settings.limit, rules.settings.tail) == Ok(archive.revisions)
    ensures Validates(e, rules, disk, archive)
  {
    hide Rebase.Validated, ReadDisk, Listed, Adjoining;
  }

  lemma RewrittenFacts(p: Shards.Packer, was: Disk, index: Index, rows: seq<Bar>, lineage: seq<Segment>)
    requires rows != []
    ensures var disk := Rebase.Rewritten(p, was, index, rows, lineage);
            var docs := p.Pack(index.identity.Series(), 0, rows).docs;
            && disk.files == Apply(was.files - Rebase.Paths(index.shards), Puts(docs)) && disk.index.Some?
            && var next := disk.index.value;
            && next.identity == index.identity && next.limits == index.limits && next.recordCount == |rows|
            && next.first == Some(rows[0].day) && next.last == Some(rows[|rows| - 1].day)
            && next.shards == Shards.Metas(p.size, docs)
  {}

  /** Unlinking the listed shards and writing the new ones leaves just the new ones. */
  lemma StagedListed(size: Shards.Doc -> nat, files: map<int, Shards.Doc>, metas: seq<Shards.Meta>, docs: seq<Shards.Doc>,
                     id: Shards.SeriesId)
    requires Listed(files, metas) && docs != [] && Shards.Contiguous(docs, id, 0)
    ensures Listed(Apply(files - Rebase.Paths(metas), Puts(docs)), Shards.Metas(size, docs))
    ensures Adjoining(Shards.Metas(size, docs), 0)
  {
    var bare := files - Rebase.Paths(metas);
    assert bare.Keys == {};
    StoreLaws.ApplyDepends(bare, bare, Puts(docs));
    StartsAscend(docs, id, 0);
    MetasAdjoin(size, docs, id, 0);
    hide Apply, Shards.Contiguous, Adjoining;
    var next := Shards.Metas(size, docs);
    assert forall i :: 0 <= i < |docs| ==> next[i].path == docs[i].start && Puts(docs)[i].path == docs[i].start;
    assert StoreLaws.PutPaths(Puts(docs)) == Rebase.Paths(next);
  }

  lemma {:induction false} StartsAscend(docs: seq<Shards.Doc>, id: Shards.SeriesId, start: int)
    requires Shards.Contiguous(docs, id, start)
    ensures forall i, j :: 0 <= i < j < |docs| ==> docs[i].start < docs[j].start
    decreases |docs|
  {
    if docs != [] {
      var next := start + |docs[0].records|;
      StartsAscend(docs[1..], id, next);
      StoreLaws.ContiguousRange(docs[1..], id, next);
      forall i, j | 0 <= i < j < |docs| ensures docs[i].start < docs[j].start {
        assert docs[j] == docs[1..][j - 1] && docs[j] in docs[1..];
        if i > 0 { assert docs[i] == docs[1..][i - 1]; }
      }
    }
  }

  lemma {:induction false} MetasAdjoin(size: Shards.Doc -> nat, docs: seq<Shards.Doc>, id: Shards.SeriesId, start: int)
    requires Shards.Contiguous(docs, id, start)
    ensures Adjoining(Shards.Metas(size, docs), start)
    decreases |docs|
  {
    if docs != [] {
      var d, rest := docs[0], docs[1..];
      MetasAdjoin(size, rest, id, start + |d.records|);
      assert docs == [d] + rest;
      StoreLaws.MetasCons(size, d, rest);
      assert Shards.Metas(size, docs)[1..] == Shards.Metas(size, rest);
    }
  }
}
