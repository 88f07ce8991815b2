/** The compatibility projection of a legacy snapshot: canonicalize the reason-class
    arrays the current schema rejects, and nothing else. */
module LegacyProjection {
  import opened Bars
  import opened Text
  import opened JsonPointer

  // ---------- canonical arrays ----------

  predicate Below(a: string, b: string) { a != b && StringAtMost(a, b) }

  ghost predicate Ascends(xs: seq<string>) { forall i, j :: 0 <= i < j < |xs| ==> Below(xs[i], xs[j]) }

  function Insert(xs: seq<string>, x: string): seq<string> {
    if xs == [] then [x]
    else if xs[0] == x then xs
    else if StringAtMost(x, xs[0]) then [x] + xs
    else [xs[0]] + Insert(xs[1..], x)
  }

  /** `sorted(set(xs))`. */
  function SortedSet(xs: seq<string>): seq<string> {
    if xs == [] then [] else Insert(SortedSet(xs[1..]), xs[0])
  }

  lemma {:induction false} InsertMembers(xs: seq<string>, x: string)
    ensures forall y :: y in Insert(xs, x) <==> y in xs || y == x
  {
    if xs != [] && xs[0] != x && !StringAtMost(x, xs[0]) {
      InsertMembers(xs[1..], x);
      assert forall y :: y in xs <==> y == xs[0] || y in xs[1..];
    }
  }

  lemma {:induction false} InsertAscends(xs: seq<string>, x: string)
    requires Ascends(xs)
    ensures Ascends(Insert(xs, x))
  {
    var ys := Insert(xs, x);
    if xs != [] && xs[0] != x {
      StringOrder(x, xs[0], x);
      if StringAtMost(x, xs[0]) {
        forall j | 0 < j < |ys| ensures Below(x, ys[j]) {
          StringOrder(x, xs[0], xs[j - 1]);
          if j > 1 { StringOrder(xs[0], x, x); assert Below(xs[0], xs[j - 1]); StringOrder(xs[j - 1], xs[0], x); }
        }
      } else {
        InsertAscends(xs[1..], x);
        InsertMembers(xs[1..], x);
        forall j | 0 < j < |ys| ensures Below(ys[0], ys[j]) {
          assert ys[j] in Insert(xs[1..], x);
          if ys[j] != x { var k :| 0 <= k < |xs[1..]| && xs[1..][k] == ys[j]; assert xs[k + 1] == ys[j]; }
        }
      }
    }
  }

  /** The same strings, each once, in ascending order. */
  lemma {:induction false} SortedSetMeaning(xs: seq<string>)
    ensures Ascends(SortedSet(xs)) && forall y :: y in SortedSet(xs) <==> y in xs
  {
    if xs != [] {
      SortedSetMeaning(xs[1..]);
      InsertAscends(SortedSet(xs[1..]), xs[0]);
      InsertMembers(SortedSet(xs[1..]), xs[0]);
      assert forall y :: y in xs <==> y == xs[0] || y in xs[1..];
    }
  }

  predicate StringArray(d: Json) { d.Arr? && forall i :: 0 <= i < |d.items| ==> d.items[i].Str? }

  function Strings(d: Json): seq<string>
    requires StringArray(d)
  {
    seq(|d.items|, i requires 0 <= i < |d.items| => d.items[i].s)
  }

  function ArrayOf(xs: seq<string>): Json { Arr(seq(|xs|, i requires 0 <= i < |xs| => Str(xs[i]))) }

  /** `_canonical_array`. */
  function Canonical(d: Json): Option<Json> {
    if StringArray(d) then Some(ArrayOf(SortedSet(Strings(d)))) else None
  }

  /** Canonicalization keeps the set of reasons and leaves them ascending and distinct. */
  lemma CanonicalMeaning(d: Json)
    requires StringArray(d)
    ensures var c := Canonical(d).value;
            StringArray(c) && Ascends(Strings(c)) && forall x :: x in Strings(c) <==> x in Strings(d)
  {
    SortedSetMeaning(Strings(d));
    assert Strings(Canonical(d).value) == SortedSet(Strings(d));
  }

  /** On string arrays Python's equality is equality. */
  lemma SameStrings(a: Json, b: Json)
    requires StringArray(a) && StringArray(b)
    ensures Same(a, b) <==> a == b
  {
    if Same(a, b) {
      forall i | 0 <= i < |a.items| ensures |b.items| == |a.items| && a.items[i] == b.items[i] {
        assert Plain(a).items[i] == Plain(b).items[i];
      }
      assert |Plain(a).items| == |Plain(b).items|;
    }
  }

  // ---------- writing through a pointer ----------

  function Put(d: Json, path: Path, v: Json): Option<Json>
    requires path != []
  {
    match d
    case Obj(m) =>
      if |path| == 1 then Some(Obj(m[path[0] := v]))
      else if path[0] !in m then None
      else
        var inner := Put(m[path[0]], path[1..], v);
        if inner.None? then None else Some(Obj(m[path[0] := inner.value]))
    case Arr(items) =>
      var i := ToIndex(path[0]);
      if i.None? || i.value >= |items| then None
      else if |path| == 1 then Some(Arr(items[i.value := v]))
      else
        var inner := Put(items[i.value], path[1..], v);
        if inner.None? then None else Some(Arr(items[i.value := inner.value]))
    case _ => None
  }

  // ---------- the projection ----------

  datatype SchemaError = SchemaError(uniqueItems: bool, path: Path)

  datatype TransformError = NotAnObject | AlreadyValid | Unsupported | Unreachable | NotStrings | NothingToRepair
                          | DiffMismatch | NotDiagnostic

  /** `coverage/reason_classes/<symbol>`. */
  function Target(symbol: string): Path { ["coverage", "reason_classes", symbol] }

  predicate Repairable(e: SchemaError) { e.uniqueItems && |e.path| == 3 && e.path == Target(e.path[2]) }

  /** The pointed-at array, reached through objects, with something to repair. */
  ghost predicate NeedsRepair(d: Json, symbol: string) {
    var at := Member(d, Target(symbol));
    at.Some? && StringArray(at.value) && Canonical(at.value).value != at.value
  }

  function Printed(paths: set<Path>): set<string> { set p | p in paths :: Print(p) }

  function Pointers(errors: seq<SchemaError>): seq<string> {
    if errors == [] then [] else [Print(errors[0].path)] + Pointers(errors[1..])
  }

  lemma {:induction false} PointersMeaning(errors: seq<SchemaError>)
    ensures forall x :: x in Pointers(errors) <==> exists e :: e in errors && x == Print(e.path)
  {
    if errors != [] {
      PointersMeaning(errors[1..]);
      assert forall e :: e in errors <==> e == errors[0] || e in errors[1..];
    }
  }

  // ---------- the document with its reason classes replaced ----------

  /** Coverage and reason classes are objects. */
  predicate Regular(d: Json) {
    && d.Obj? && "coverage" in d.members && d.members["coverage"].Obj?
    && "reason_classes" in d.members["coverage"].members && d.members["coverage"].members["reason_classes"].Obj?
  }

  function Classes(d: Json): map<string, Json>
    requires Regular(d)
  {
    d.members["coverage"].members["reason_classes"].members
  }

  function WithClasses(d: Json, rc: map<string, Json>): Json
    requires Regular(d)
  {
    Obj(d.members["coverage" := Obj(d.members["coverage"].members["reason_classes" := Obj(rc)])])
  }

  /** Every array named by `done` is canonical, every other one as it was. */
  function Repaired(rc: map<string, Json>, done: set<string>): map<string, Json> {
    map s | s in rc :: if s in done && Canonical(rc[s]).Some? then Canonical(rc[s]).value else rc[s]
  }

  lemma MemberCons(d: Json, k: string, rest: Path)
    ensures Member(d, [k] + rest) == if d.Obj? && k in d.members then Member(d.members[k], rest) else None
    ensures Walk(d, [k] + rest) == if Child(d, k).Some? then Walk(Child(d, k).value, rest) else None
  {}

  lemma MemberThree(d: Json, a: string, b: string, c: string)
    ensures Member(d, [a, b, c]).Some? <==>
              && d.Obj? && a in d.members && d.members[a].Obj? && b in d.members[a].members
              && d.members[a].members[b].Obj? && c in d.members[a].members[b].members
    ensures Member(d, [a, b, c]).Some? ==> Member(d, [a, b, c]).value == d.members[a].members[b].members[c]
    ensures d.Obj? && a in d.members && d.members[a].Obj? && b in d.members[a].members && d.members[a].members[b].Obj? ==>
              Walk(d, [a, b, c]) == Member(d, [a, b, c])
  {
    assert [a, b, c] == [a] + ([b] + ([c] + []));
    MemberCons(d, a, [b] + ([c] + []));
    if d.Obj? && a in d.members {
      MemberCons(d.members[a], b, [c] + []);
      if d.members[a].Obj? && b in d.members[a].members {
        MemberCons(d.members[a].members[b], c, []);
      }
    }
  }

  lemma MemberOfTarget(d: Json, symbol: string)
    ensures Member(d, Target(symbol)).Some? ==> Regular(d)
    ensures Regular(d) ==>
              && Member(d, Target(symbol)) == (if symbol in Classes(d) then Some(Classes(d)[symbol]) else None)
              && Walk(d, Target(symbol)) == Member(d, Target(symbol))
  {
    hide Member, Walk, Child;
    MemberThree(d, "coverage", "reason_classes", symbol);
  }

  lemma PutCons(m: map<string, Json>, k: string, rest: Path, v: Json)
    requires rest != [] && k in m && Put(m[k], rest, v).Some?
    ensures Put(Obj(m), [k] + rest, v) == Some(Obj(m[k := Put(m[k], rest, v).value]))
  {}

  lemma PutThree(m: map<string, Json>, a: string, b: string, c: string, v: Json)
    requires a in m && m[a].Obj? && b in m[a].members && m[a].members[b].Obj?
    ensures Put(Obj(m), [a, b, c], v)
         == Some(Obj(m[a := Obj(m[a].members[b := Obj(m[a].members[b].members[c := v])])]))
  {
    assert [a, b, c] == [a] + [b, c] && [b, c] == [b] + [c];
    var n := m[a].members;
    assert Put(n[b], [c], v) == Some(Obj(n[b].members[c := v]));
    PutCons(n, b, [c], v);
    PutCons(m, a, [b, c], v);
  }

  lemma PutTarget(d: Json, rc: map<string, Json>, symbol: string, v: Json)
    requires Regular(d)
    ensures Put(WithClasses(d, rc), Target(symbol), v) == Some(WithClasses(d, rc[symbol := v]))
  {
    hide Put;
    PutThree(WithClasses(d, rc).members, "coverage", "reason_classes", symbol, v);
    var c := d.members["coverage"].members;
    assert c["reason_classes" := Obj(rc)]["reason_classes" := Obj(rc[symbol := v])]
        == c["reason_classes" := Obj(rc[symbol := v])];
    assert WithClasses(d, rc).members["coverage" := Obj(c["reason_classes" := Obj(rc[symbol := v])])]
        == WithClasses(d, rc[symbol := v]).members;
  }

  lemma ChangedBelow(m: map<string, Json>, k: string, v: Json)
    requires k in m
    ensures Changed(Obj(m), Obj(m[k := v])) == set p | p in Changed(m[k], v) :: [k] + p
  {
    var after := m[k := v];
    forall j | j in m && j != k ensures Changed(m[j], after[j]) == {} { UnchangedIff(m[j], after[j]); }
  }

  function Rewritten(before: map<string, Json>, after: map<string, Json>): set<string>
    requires before.Keys == after.Keys
  {
    set s | s in before && !Same(before[s], after[s])
  }

  lemma ChangedArrays(before: map<string, Json>, after: map<string, Json>)
    requires before.Keys == after.Keys && forall s :: s in before ==> before[s] == after[s] || !before[s].Obj?
    ensures Changed(Obj(before), Obj(after)) == set s | s in Rewritten(before, after) :: [s]
  {
    forall s | s in before ensures Changed(before[s], after[s]) == if Same(before[s], after[s]) then {} else {[]} {
      UnchangedIff(before[s], after[s]);
    }
    assert forall s: string :: [s] + [] == [s];
    ChangedKeys(before, after);
  }

  lemma ChangedKeys(before: map<string, Json>, after: map<string, Json>)
    requires before.Keys == after.Keys
    requires forall s :: s in before ==> Changed(before[s], after[s]) == if Same(before[s], after[s]) then {} else {[]}
    ensures Changed(Obj(before), Obj(after)) == set s | s in Rewritten(before, after) :: [s]
  {
    assert forall s: string :: [s] + [] == [s];
    assert Changed(Obj(before), Obj(after))
        == set k, p | k in before && k in after && p in Changed(before[k], after[k]) :: [k] + p;
  }

  lemma PathsThree(names: set<string>, a: string, b: string, low: set<Path>, mid: set<Path>, top: set<Path>)
    requires low == (set s | s in names :: [s]) && mid == (set p | p in low :: [b] + p) && top == set p | p in mid :: [a] + p
    ensures top == set s | s in names :: [a, b, s]
  {
    forall s | s in names ensures [a, b, s] in top {
      assert [s] in low && [b] + [s] in mid && [a] + ([b] + [s]) == [a, b, s];
    }
    forall p | p in top ensures exists s :: s in names && p == [a, b, s] {
      var q :| q in mid && p == [a] + q;
      var r :| r in low && q == [b] + r;
      var s :| s in names && r == [s];
      assert p == [a, b, s];
    }
  }

  lemma ChangedThree(m: map<string, Json>, a: string, b: string, rc: map<string, Json>, after: Json)
    requires a in m && m[a].Obj? && b in m[a].members && m[a].members[b].Obj?
    requires rc.Keys == m[a].members[b].members.Keys
    requires forall s :: s in rc ==> rc[s] == m[a].members[b].members[s] || !m[a].members[b].members[s].Obj?
    requires after == Obj(m[a := Obj(m[a].members[b := Obj(rc)])])
    ensures Changed(Obj(m), after) == set s | s in Rewritten(m[a].members[b].members, rc) :: [a, b, s]
  {
    hide Changed, Rewritten;
    var n := m[a].members;
    var was := n[b].members;
    ChangedArrays(was, rc);
    ChangedBelow(n, b, Obj(rc));
    ChangedBelow(m, a, Obj(n[b := Obj(rc)]));
    PathsThree(Rewritten(was, rc), a, b, Changed(Obj(was), Obj(rc)), Changed(m[a], Obj(n[b := Obj(rc)])),
               Changed(Obj(m), after));
  }

  /** The whole document changes at the replaced arrays and nowhere else. */
  lemma ChangedClasses(d: Json, rc: map<string, Json>)
    requires Regular(d) && rc.Keys == Classes(d).Keys
    requires forall s :: s in rc ==> rc[s] == Classes(d)[s] || !Classes(d)[s].Obj?
    ensures Changed(d, WithClasses(d, rc)) == set s | s in Rewritten(Classes(d), rc) :: Target(s)
  {
    hide Changed, Rewritten;
    ChangedThree(d.members, "coverage", "reason_classes", rc, WithClasses(d, rc));
  }

  // ---------- the pointers ----------

  lemma {:induction false} EscapePlain(t: string)
    requires '~' !in t && '/' !in t
    ensures Escape(t) == t
  {
    if t != [] {
      assert t == [t[0]] + t[1..];
      EscapeCons(t[0], t[1..]);
      EscapePlain(t[1..]);
    }
  }

  predicate Contains(s: string, part: string) {
    exists i :: 0 <= i <= |s| && part <= s[i..]
  }

  predicate Diagnostic(pointer: string) { "/coverage/" <= pointer && Contains(pointer, "/reason_classes/") }

  lemma PrintThree(a: string, b: string, c: string)
    ensures Print([a, b, c]) == "/" + Escape(a) + "/" + Escape(b) + "/" + Escape(c)
  {
    assert [a, b, c][1..] == [b, c] && [b, c][1..] == [c];
    assert Join([b, c]) == Escape(b) + "/" + Escape(c);
    assert Join([a, b, c]) == Escape(a) + "/" + (Escape(b) + "/" + Escape(c));
  }

  lemma ContainsMiddle(before: string, part: string, after: string)
    ensures Contains(before + part + after, part)
  {
    var s := before + part + after;
    assert s[|before|..] == part + after;
  }

  lemma DiagnosticText(e: string)
    ensures Diagnostic("/" + "coverage" + "/" + "reason_classes" + "/" + e)
  {
    var s := "/" + "coverage" + "/" + "reason_classes" + "/" + e;
    assert s == "/coverage" + "/reason_classes/" + e;
    ContainsMiddle("/coverage", "/reason_classes/", e);
    assert "/coverage/" <= s;
  }

  lemma PrintPlain(a: string, b: string, c: string)
    requires '~' !in a && '/' !in a && '~' !in b && '/' !in b
    ensures Print([a, b, c]) == "/" + a + "/" + b + "/" + Escape(c)
  {
    PrintThree(a, b, c);
    EscapePlain(a);
    EscapePlain(b);
  }

  lemma TargetText(symbol: string)
    ensures Print(Target(symbol)) == "/" + "coverage" + "/" + "reason_classes" + "/" + Escape(symbol)
  {
    hide Print, Escape;
    PrintPlain("coverage", "reason_classes", symbol);
  }

  lemma ThreeParse(a: string, b: string, c: string)
    requires a != ""
    ensures Parse(Print([a, b, c])) == [a, b, c]
  {
    ParsePrintIff([a, b, c]);
  }

  /** A target's pointer is diagnostic and reads back as the target. */
  lemma TargetPointer(symbol: string)
    ensures Diagnostic(Print(Target(symbol))) && Parse(Print(Target(symbol))) == Target(symbol)
    ensures Print(Target(symbol)) == "/coverage/reason_classes/" + Escape(symbol)
  {
    hide Print, Escape, Parse, Diagnostic;
    TargetText(symbol);
    assert "/" + "coverage" + "/" + "reason_classes" + "/" == "/coverage/reason_classes/";
    ThreeParse("coverage", "reason_classes", symbol);
    DiagnosticText(Escape(symbol));
  }

  // ---------- the edit loop ----------

  function SymbolsOf(errors: seq<SchemaError>): set<string> { set e | e in errors && |e.path| == 3 :: e.path[2] }

  /** Every reported error can be repaired where it stands. */
  ghost predicate AllRepairable(d: Json, errors: seq<SchemaError>) {
    forall e :: e in errors ==> Repairable(e) && NeedsRepair(d, e.path[2])
  }

  lemma {:induction false} PointerTarget(errors: seq<SchemaError>, pointer: string) returns (symbol: string)
    requires pointer in Pointers(errors) && forall e :: e in errors ==> Repairable(e)
    ensures symbol in SymbolsOf(errors) && pointer == Print(Target(symbol))
    ensures exists e :: e in errors && e.path == Target(symbol) && e.path[2] == symbol
  {
    PointersMeaning(errors);
    var e :| e in errors && pointer == Print(e.path);
    symbol := e.path[2];
  }

  /** The projection built so far. */
  ghost predicate Built(d: Json, projected: Json, done: set<string>) {
    Regular(d) ==>
      && projected == WithClasses(d, Repaired(Classes(d), done)) && done <= Classes(d).Keys
      && forall s :: s in done ==> NeedsRepair(d, s)
  }

  lemma BuiltNone(d: Json)
    ensures Built(d, d, {})
  {
    if Regular(d) {
      assert Repaired(Classes(d), {}) == Classes(d);
      var m := d.members;
      assert m["coverage"].members["reason_classes" := Obj(Classes(d))] == m["coverage"].members;
      assert m["coverage" := m["coverage"]] == m;
    }
  }

  lemma BuiltStep(d: Json, projected: Json, done: set<string>, symbol: string)
    requires Built(d, projected, done) && Regular(d) && NeedsRepair(d, symbol)
    ensures var v := Canonical(Member(d, Target(symbol)).value).value;
            Put(projected, Target(symbol), v).Some? && Built(d, Put(projected, Target(symbol), v).value, done + {symbol})
  {
    MemberOfTarget(d, symbol);
    var rc := Repaired(Classes(d), done);
    var v := Canonical(Classes(d)[symbol]).value;
    PutTarget(d, rc, symbol, v);
    assert rc[symbol := v] == Repaired(Classes(d), done + {symbol});
  }

  /** A finished projection differs from the original at the named arrays exactly. */
  lemma BuiltChanges(d: Json, projected: Json, done: set<string>)
    requires Built(d, projected, done) && Regular(d)
    ensures Changed(d, projected) == set s | s in done :: Target(s)
  {
    var rc := Repaired(Classes(d), done);
    forall s | s in rc ensures !Same(Classes(d)[s], rc[s]) <==> s in done {
      MemberOfTarget(d, s);
      if s in done {
        CanonicalMeaning(Classes(d)[s]);
        SameStrings(Classes(d)[s], rc[s]);
      }
    }
    assert Rewritten(Classes(d), rc) == done;
    ChangedClasses(d, rc);
  }

  /** A document that changed at a target had objects all the way to it. */
  lemma ChangedMeansRegular(d: Json, projected: Json, symbol: string)
    requires Print(Target(symbol)) in Printed(Changed(d, projected))
    ensures Regular(d)
  {
    hide Print, Changed, Member, Regular, Escape;
    var q :| q in Changed(d, projected) && Print(q) == Print(Target(symbol));
    assert Target(symbol)[0] == "coverage" && "coverage" != "";
    PrintInjective(Target(symbol), q);
    ChangedMeaning(d, projected, q);
    assert BothObjects(d, projected, q[..2]);
    assert q[..2] == ["coverage"] + (["reason_classes"] + []);
    RegularByMember(d);
  }

  lemma RegularByMember(d: Json)
    requires Member(d, ["coverage"] + (["reason_classes"] + [])).Some?
    requires Member(d, ["coverage"] + (["reason_classes"] + [])).value.Obj?
    ensures Regular(d)
  {
    MemberCons(d, "coverage", ["reason_classes"] + []);
    MemberCons(d.members["coverage"], "reason_classes", []);
  }

  lemma RepairNeedsRegular(d: Json, symbol: string)
    ensures NeedsRepair(d, symbol) ==> Regular(d) && Walk(d, Target(symbol)) == Member(d, Target(symbol))
  {
    MemberOfTarget(d, symbol);
  }

  /** The repair of one array, `_get_pointer` to `_set_pointer`. */
  method RepairOne(original: Json, projected: Json, pointer: string, ghost symbol: string, ghost done: set<string>)
    returns (r: Result<Json, TransformError>)
    requires pointer == Print(Target(symbol)) && Built(original, projected, done)
    ensures r.Fail? ==> !NeedsRepair(original, symbol)
    ensures r.Ok? ==> Built(original, r.value, done + {symbol})
  {
    TargetPointer(symbol);
    RepairNeedsRegular(original, symbol);
    MemberOfTarget(original, symbol);
    if Regular(original) && NeedsRepair(original, symbol) { BuiltStep(original, projected, done, symbol); }
    hide Regular, Parse, Walk, Put, Built;
    var before := GetPointer(original, pointer);
    if before.None? { return Fail(Unreachable); }
    var after := Canonical(before.value);
    if after.None? { return Fail(NotStrings); }
    if before.value == after.value { return Fail(NothingToRepair); }
    var next := Put(projected, Parse(pointer), after.value);
    if next.None? { return Fail(Unreachable); }
    BuiltIrregular(original, next.value, done + {symbol});
    return Ok(next.value);
  }

  lemma BuiltIrregular(d: Json, projected: Json, done: set<string>)
    ensures !Regular(d) ==> Built(d, projected, done)
  {}

  /** The edits of `transform_snapshot_bytes` and their check by `verify_allowed_diff`.
      They succeed exactly when every reported error names a repairable array; then the
      projection differs from the original at those arrays exactly, each in canonical form. */
  method Transform(original: Json, errors: seq<SchemaError>) returns (r: Result<Json, TransformError>)
    ensures r.Ok? <==> original.Obj? && errors != [] && AllRepairable(original, errors)
    ensures r.Ok? ==> Regular(original)
                      && r.value == WithClasses(original, Repaired(Classes(original), SymbolsOf(errors)))
    ensures r.Ok? ==> Changed(original, r.value) == set e | e in errors :: e.path
  {
    if !original.Obj? { return Fail(NotAnObject); }
    if errors == [] { return Fail(AlreadyValid); }
    if exists e :: e in errors && !Repairable(e) { return Fail(Unsupported); }
    r := EditAndVerify(original, errors);
  }

  method EditAndVerify(original: Json, errors: seq<SchemaError>) returns (r: Result<Json, TransformError>)
    requires original.Obj? && errors != [] && forall e :: e in errors ==> Repairable(e)
    ensures r.Ok? <==> AllRepairable(original, errors)
    ensures r.Ok? ==> Regular(original)
                      && r.value == WithClasses(original, Repaired(Classes(original), SymbolsOf(errors)))
    ensures r.Ok? ==> Changed(original, r.value) == set e | e in errors :: e.path
  {
    assert errors[0] in errors && Repairable(errors[0]);
    var pointers := SortedSet(Pointers(errors));
    SortedSetMeaning(Pointers(errors));
    var edited;
    ghost var done;
    edited, done := EditAll(original, errors, pointers);
    if edited.Fail? { return Fail(edited.error); }
    var projected := edited.value;
    AllDone(errors, pointers, done);
    Finished(original, projected, errors, pointers, done);
    NotAll(original, errors, errors[0].path[2]);
    hide *;
    var actual := Printed(Changed(original, projected));
    if actual != Names(pointers) { return Fail(DiffMismatch); }
    if exists p :: p in pointers && !Diagnostic(p) { return Fail(NotDiagnostic); }
    return Ok(projected);
  }

  /** One edit per target pointer, in sorted order. */
  method EditAll(original: Json, errors: seq<SchemaError>, pointers: seq<string>)
    returns (r: Result<Json, TransformError>, ghost done: set<string>)
    requires (forall e :: e in errors ==> Repairable(e)) && forall x :: x in pointers <==> x in Pointers(errors)
    ensures r.Fail? ==> !AllRepairable(original, errors)
    ensures r.Ok? ==> Built(original, r.value, done)
    ensures r.Ok? ==> forall s :: s in done <==> s in SymbolsOf(errors) && Print(Target(s)) in pointers
  {
    hide *;
    var projected := original;
    done := {};
    BuiltNone(original);
    for i := 0 to |pointers|
      invariant Built(original, projected, done)
      invariant forall s :: s in done <==> s in SymbolsOf(errors) && Print(Target(s)) in pointers[..i]
    {
      assert pointers[i] in pointers;
      ghost var symbol := PointerTarget(errors, pointers[i]);
      var next := RepairOne(original, projected, pointers[i], symbol, done);
      if next.Fail? {
        NotAll(original, errors, symbol);
        return Fail(next.error), done;
      }
      projected := next.value;
      PrintedOnce(pointers[i], symbol);
      assert pointers[..i + 1] == pointers[..i] + [pointers[i]];
      done := done + {symbol};
    }
    assert pointers[..|pointers|] == pointers;
    r := Ok(projected);
  }

  function Names(xs: seq<string>): set<string> { set x | x in xs }

  lemma NotAll(d: Json, errors: seq<SchemaError>, symbol: string)
    requires exists e :: e in errors && e.path == Target(symbol) && e.path[2] == symbol
    ensures !NeedsRepair(d, symbol) ==> !AllRepairable(d, errors)
    ensures !Regular(d) ==> !AllRepairable(d, errors)
  {
    RepairNeedsRegular(d, symbol);
  }

  lemma PrintedOnce(pointer: string, symbol: string)
    requires pointer == Print(Target(symbol))
    ensures forall s :: Print(Target(s)) == pointer ==> s == symbol
  {
    forall s | Print(Target(s)) == pointer ensures s == symbol {
      assert Target(symbol)[0] == "coverage" && "coverage" != "";
      PrintInjective(Target(symbol), Target(s));
      assert Target(symbol)[2] == Target(s)[2];
    }
  }

  lemma AllDone(errors: seq<SchemaError>, pointers: seq<string>, done: set<string>)
    requires (forall e :: e in errors ==> Repairable(e)) && forall x :: x in pointers <==> x in Pointers(errors)
    requires forall s :: s in done <==> s in SymbolsOf(errors) && Print(Target(s)) in pointers
    ensures done == SymbolsOf(errors)
    ensures forall x :: x in pointers <==> exists s :: s in done && x == Print(Target(s))
    ensures (set s | s in done :: Target(s)) == set e | e in errors :: e.path
  {
    PointersMeaning(errors);
    forall e | e in errors ensures e.path[2] in SymbolsOf(errors) && e.path == Target(e.path[2]) && Print(e.path) in pointers {}
    forall s | s in SymbolsOf(errors) ensures Print(Target(s)) in pointers && exists e :: e in errors && e.path == Target(s) {
      var e :| e in errors && |e.path| == 3 && e.path[2] == s;
      assert e.path == Target(s);
    }
  }

  /** What the final check sees. */
  lemma Finished(d: Json, projected: Json, errors: seq<SchemaError>, pointers: seq<string>, done: set<string>)
    requires Built(d, projected, done) && done == SymbolsOf(errors) && errors != []
    requires forall e :: e in errors ==> Repairable(e)
    requires forall x :: x in pointers <==> exists s :: s in done && x == Print(Target(s))
    ensures Regular(d) ==> Printed(Changed(d, projected)) == Names(pointers)
                           && Changed(d, projected) == (set s | s in done :: Target(s))
                           && AllRepairable(d, errors)
                           && projected == WithClasses(d, Repaired(Classes(d), done))
    ensures Printed(Changed(d, projected)) == Names(pointers) ==> Regular(d)
    ensures forall p :: p in pointers ==> Diagnostic(p)
  {
    assert errors[0] in errors && Repairable(errors[0]);
    var symbol := errors[0].path[2];
    assert symbol in done && Print(Target(symbol)) in pointers;
    if Print(Target(symbol)) in Printed(Changed(d, projected)) { ChangedMeansRegular(d, projected, symbol); }
    forall p | p in pointers ensures Diagnostic(p) {
      var s :| s in done && p == Print(Target(s));
      TargetPointer(s);
    }
    if Regular(d) {
      BuiltChanges(d, projected, done);
      hide *;
      PrintedTargets(Changed(d, projected), done, pointers);
      RepairableAll(d, projected, errors, done);
    }
  }

  lemma PrintedTargets(changed: set<Path>, done: set<string>, pointers: seq<string>)
    requires changed == set s | s in done :: Target(s)
    requires forall x :: x in pointers <==> exists s :: s in done && x == Print(Target(s))
    ensures Printed(changed) == Names(pointers)
  {}

  lemma RepairableAll(d: Json, projected: Json, errors: seq<SchemaError>, done: set<string>)
    requires Built(d, projected, done) && Regular(d) && done == SymbolsOf(errors)
    requires forall e :: e in errors ==> Repairable(e)
    ensures AllRepairable(d, errors) && projected == WithClasses(d, Repaired(Classes(d), done))
  {}
}
