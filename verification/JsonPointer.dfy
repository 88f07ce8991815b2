/** JSON pointers as RFC 6901 sections 3 and 4 print them, the reader and the differ the
    legacy projection uses, and the projection's exact effect. */
module JsonPointer {
  import opened Bars

  datatype Json =
    | Null | Flag(b: bool) | Number(n: int) | Real(r: real) | Str(s: string)
    | Arr(items: seq<Json>) | Obj(members: map<string, Json>)

  type Path = seq<string>

  // ---------- tokens ----------

  /** `str.replace` for one character. */
  function ReplaceChar(s: string, c: char, into: string): string {
    if s == [] then [] else (if s[0] == c then into else [s[0]]) + ReplaceChar(s[1..], c, into)
  }

  /** `str.replace` for a pair of characters, left to right without overlap. */
  function ReplacePair(s: string, a: char, b: char, into: char): string {
    if s == [] then []
    else if |s| >= 2 && s[0] == a && s[1] == b then [into] + ReplacePair(s[2..], a, b, into)
    else [s[0]] + ReplacePair(s[1..], a, b, into)
  }

  function Escape(token: string): string { ReplaceChar(ReplaceChar(token, '~', "~0"), '/', "~1") }

  function Unescape(text: string): string { ReplacePair(ReplacePair(text, '~', '1', '/'), '~', '0', '~') }

  lemma CharCons(x: char, s: string, c: char, into: string)
    ensures ReplaceChar([x] + s, c, into) == (if x == c then into else [x]) + ReplaceChar(s, c, into)
  {}

  lemma EscapeCons(c: char, t: string)
    ensures Escape([c] + t) == (if c == '~' then "~0" else if c == '/' then "~1" else [c]) + Escape(t)
  {
    var inner := ReplaceChar(t, '~', "~0");
    CharCons(c, t, '~', "~0");
    if c == '~' {
      CharCons('~', "0" + inner, '/', "~1");
      CharCons('0', inner, '/', "~1");
      assert "~0" + inner == ['~'] + ("0" + inner) && "0" + inner == ['0'] + inner;
    } else {
      CharCons(c, inner, '/', "~1");
    }
  }

  lemma PairCons(c: char, s: string, a: char, b: char, into: char)
    requires c != a
    ensures ReplacePair([c] + s, a, b, into) == [c] + ReplacePair(s, a, b, into)
  {}

  lemma PairHit(s: string, a: char, b: char, into: char)
    ensures ReplacePair([a, b] + s, a, b, into) == [into] + ReplacePair(s, a, b, into)
  {}

  lemma PairMiss(d: char, s: string, a: char, b: char, into: char)
    requires d != b && d != a
    ensures ReplacePair([a, d] + s, a, b, into) == [a, d] + ReplacePair(s, a, b, into)
  {}

  /** Escaping loses nothing: `~1` must be read before `~0`, and is. */
  lemma {:induction false} UnescapeEscape(t: string)
    ensures Unescape(Escape(t)) == t
  {
    if t != [] {
      var c, rest := t[0], t[1..];
      assert t == [c] + rest;
      EscapeCons(c, rest);
      UnescapeEscape(rest);
      var e := Escape(rest);
      var half := ReplacePair(e, '~', '1', '/');
      if c == '~' {
        PairMiss('0', e, '~', '1', '/');
        PairHit(half, '~', '0', '~');
        assert "~0" == ['~', '0'];
      } else if c == '/' {
        PairHit(e, '~', '1', '/');
        PairCons('/', half, '~', '0', '~');
        assert "~1" == ['~', '1'];
      } else {
        PairCons(c, e, '~', '1', '/');
        PairCons(c, half, '~', '0', '~');
      }
    }
  }

  lemma {:induction false} EscapeHasNoSlash(t: string)
    ensures '/' !in Escape(t)
    ensures Escape(t) == [] <==> t == []
  {
    if t != [] {
      assert t == [t[0]] + t[1..];
      EscapeCons(t[0], t[1..]);
      EscapeHasNoSlash(t[1..]);
    }
  }

  // ---------- printing and parsing ----------

  function Join(path: Path): string {
    if path == [] then "" else if |path| == 1 then Escape(path[0]) else Escape(path[0]) + "/" + Join(path[1..])
  }

  /** `json_pointer`. */
  function Print(path: Path): string { "/" + Join(path) }

  /** `lstrip("/")`: every leading slash goes. */
  function Strip(s: string): string { if s != [] && s[0] == '/' then Strip(s[1..]) else s }

  /** `split("/")`, each part unescaped. */
  function Split(s: string): (path: Path)
    ensures path != []
  {
    if s == [] then [""]
    else if s[0] == '/' then [""] + Split(s[1..])
    else
      var rest := Split(s[1..]);
      [[s[0]] + rest[0]] + rest[1..]
  }

  function UnescapeAll(path: Path): Path { if path == [] then [] else [Unescape(path[0])] + UnescapeAll(path[1..]) }

  /** What `_get_pointer` and `_set_pointer` walk along. */
  function Parse(pointer: string): (path: Path) { UnescapeAll(Split(Strip(pointer))) }

  lemma {:induction false} SplitToken(token: string, s: string)
    requires '/' !in token
    ensures Split(token) == [token]
    ensures Split(token + "/" + s) == [token] + Split(s)
  {
    if token == [] {
      assert token + "/" + s == "/" + s && ("/" + s)[1..] == s;
    } else {
      var c, rest := token[0], token[1..];
      SplitToken(rest, s);
      assert (token + "/" + s)[1..] == rest + "/" + s;
      assert token == [c] + rest;
      assert ([rest] + Split(s))[1..] == Split(s);
    }
  }

  lemma {:induction false} SplitJoin(path: Path)
    requires path != []
    ensures UnescapeAll(Split(Join(path))) == path
  {
    hide *;
    var first, rest := path[0], path[1..];
    EscapeHasNoSlash(first);
    UnescapeEscape(first);
    assert path == [first] + rest;
    JoinCons(first, rest);
    if rest == [] {
      SplitToken(Escape(first), "");
      UnescapeCons(Escape(first), []);
      assert [Escape(first)] + [] == [Escape(first)];
    } else {
      SplitToken(Escape(first), Join(rest));
      SplitJoin(rest);
      UnescapeCons(Escape(first), Split(Join(rest)));
    }
  }

  lemma JoinCons(first: string, rest: Path)
    ensures Join([first] + rest) == if rest == [] then Escape(first) else Escape(first) + "/" + Join(rest)
  {}

  lemma UnescapeCons(first: string, rest: Path)
    ensures UnescapeAll([first] + rest) == [Unescape(first)] + UnescapeAll(rest)
    ensures UnescapeAll([]) == []
  {}

  /** Stripping keeps the pointer whole unless it begins with an empty token. */
  lemma {:induction false} SplitStripped(s: string)
    ensures s == [] || s[0] != '/' ==> Strip(s) == s
    ensures s != [] && s[0] == '/' ==> |Split(Strip(s))| < |Split(s)|
    ensures |UnescapeAll(Split(s))| == |Split(s)|
    ensures |UnescapeAll(Split(Strip(s)))| == |Split(Strip(s))|
  {
    UnescapeLength(Split(s));
    UnescapeLength(Split(Strip(s)));
    if s != [] && s[0] == '/' {
      SplitStripped(s[1..]);
    }
  }

  lemma {:induction false} UnescapeLength(path: Path)
    ensures |UnescapeAll(path)| == |path|
  {
    if path != [] { UnescapeLength(path[1..]); }
  }

  /** Exactly which printed paths parse back to themselves: not the document's own path,
      and not one that begins with an empty token and goes on. */
  lemma ParsePrintIff(path: Path)
    ensures Parse(Print(path)) == path <==> path != [] && (path[0] != "" || |path| == 1)
  {
    var s := Join(path);
    assert ("/" + s)[1..] == s;
    assert Strip(Print(path)) == Strip(s);
    SplitStripped(s);
    if path != [] {
      SplitJoin(path);
      EscapeHasNoSlash(path[0]);
      if path[0] != "" {
        assert Escape(path[0])[0] in Escape(path[0]);
        assert s[0] == Escape(path[0])[0];
      } else if |path| > 1 {
        assert s == "/" + Join(path[1..]);
      }
    }
  }

  lemma SecondCharacter(p: Path)
    ensures p != [] && p[0] != "" <==> |Print(p)| > 1 && Print(p)[1] != '/'
  {}

  /** A pointer with a non-empty first token is printed by one path only. */
  lemma PrintInjective(p: Path, q: Path)
    requires p != [] && p[0] != "" && Print(p) == Print(q)
    ensures p == q
  {
    SecondCharacter(p);
    SecondCharacter(q);
    ParsePrintIff(p);
    ParsePrintIff(q);
  }

  // ---------- walking a document ----------

  function Digit(n: nat): char
    requires n < 10
  {
    "0123456789"[n]
  }

  function Decimal(n: nat): string { (if n < 10 then "" else Decimal(n / 10)) + [Digit(n % 10)] }

  /** `int(part)` for a string of digits. */
  function ToIndex(s: string): Option<nat> {
    if s == [] || !('0' <= s[|s| - 1] <= '9') then None
    else
      var low := (s[|s| - 1] as int) - ('0' as int);
      if |s| == 1 then Some(low)
      else
        match ToIndex(s[..|s| - 1])
        case None => None
        case Some(high) => Some(10 * high + low)
  }

  lemma {:induction false} DecimalRoundTrip(n: nat)
    ensures ToIndex(Decimal(n)) == Some(n) && Decimal(n) != ""
  {
    DigitRange(n % 10);
    if n >= 10 {
      DecimalRoundTrip(n / 10);
      hide Digit;
      var high, low := Decimal(n / 10), Digit(n % 10);
      assert Decimal(n) == high + [low] && (high + [low])[..|high|] == high;
    }
  }

  lemma DigitRange(n: nat)
    requires n < 10
    ensures '0' <= Digit(n) <= '9' && (Digit(n) as int) - ('0' as int) == n
  {}

  /** One step of the walk. */
  function Child(d: Json, part: string): Option<Json> {
    match d
    case Obj(m) => if part in m then Some(m[part]) else None
    case Arr(items) =>
      var i := ToIndex(part);
      if i.Some? && i.value < |items| then Some(items[i.value]) else None
    case _ => None
  }

  function Walk(d: Json, path: Path): Option<Json> {
    if path == [] then Some(d)
    else
      match Child(d, path[0])
      case None => None
      case Some(c) => Walk(c, path[1..])
  }

  /** `_get_pointer`. */
  method GetPointer(d: Json, pointer: string) returns (r: Option<Json>)
    ensures r == Walk(d, Parse(pointer))
  {
    var parts := Parse(pointer);
    var current := d;
    for i := 0 to |parts|
      invariant Walk(d, parts) == Walk(current, parts[i..])
    {
      var next := Child(current, parts[i]);
      assert parts[i..][1..] == parts[i + 1..];
      if next.None? { return None; }
      current := next.value;
    }
    return Some(current);
  }

  datatype Step = Key(name: string) | Index(i: nat)

  function Tokens(steps: seq<Step>): Path {
    if steps == [] then []
    else [if steps[0].Key? then steps[0].name else Decimal(steps[0].i)] + Tokens(steps[1..])
  }

  /** The node a path of keys and indices names. */
  function NodeAt(d: Json, steps: seq<Step>): Option<Json> {
    if steps == [] then Some(d)
    else if steps[0].Key? && d.Obj? && steps[0].name in d.members then NodeAt(d.members[steps[0].name], steps[1..])
    else if steps[0].Index? && d.Arr? && steps[0].i < |d.items| then NodeAt(d.items[steps[0].i], steps[1..])
    else None
  }

  lemma {:induction false} WalkTokens(d: Json, steps: seq<Step>)
    requires NodeAt(d, steps).Some?
    ensures Walk(d, Tokens(steps)) == NodeAt(d, steps)
  {
    if steps != [] {
      assert Tokens(steps)[1..] == Tokens(steps[1..]);
      if steps[0].Key? {
        WalkTokens(d.members[steps[0].name], steps[1..]);
      } else {
        DecimalRoundTrip(steps[0].i);
        WalkTokens(d.items[steps[0].i], steps[1..]);
      }
    }
  }

  /** Reading the printed pointer reaches the node it was printed for. */
  lemma PointerReachesNode(d: Json, steps: seq<Step>)
    requires NodeAt(d, steps).Some?
    requires steps != [] && (Tokens(steps)[0] != "" || |steps| == 1)
    ensures Walk(d, Parse(Print(Tokens(steps)))) == NodeAt(d, steps)
  {
    WalkTokens(d, steps);
    TokensLength(steps);
    ParsePrintIff(Tokens(steps));
  }

  lemma {:induction false} TokensLength(steps: seq<Step>)
    ensures |Tokens(steps)| == |steps|
  {
    if steps != [] { TokensLength(steps[1..]); }
  }

  /** The document's own pointer does not reach the document. */
  lemma RootPointerMisses()
    ensures NodeAt(Obj(map[]), []) == Some(Obj(map[])) && Walk(Obj(map[]), Parse(Print([]))) == None
  {}

  // ---------- the diff ----------

  /** What Python's equality looks at: true is 1, false is 0, and an integer is the float of its value. */
  function Plain(d: Json): Json {
    match d
    case Flag(b) => Real(if b then 1.0 else 0.0)
    case Number(n) => Real(n as real)
    case Arr(items) => Arr(seq(|items|, i requires 0 <= i < |items| => Plain(items[i])))
    case Obj(members) => Obj(map k | k in members :: Plain(members[k]))
    case _ => d
  }

  /** `==`. */
  predicate Same(a: Json, b: Json) { Plain(a) == Plain(b) }

  /** The paths `_changed_pointers` prints, relative to where it stands. */
  function Changed(before: Json, after: Json): set<Path>
    decreases before
  {
    if before.Obj? && after.Obj? then
      (set k | k in before.members.Keys + after.members.Keys && (k !in before.members || k !in after.members) :: [k])
      + (set k, p | k in before.members && k in after.members && p in Changed(before.members[k], after.members[k]) :: [k] + p)
    else if !Same(before, after) then {[]}
    else {}
  }

  lemma SameObjects(b: map<string, Json>, a: map<string, Json>)
    ensures Same(Obj(b), Obj(a)) <==> b.Keys == a.Keys && forall k :: k in b && k in a ==> Same(b[k], a[k])
  {
    var x, y := map k | k in b :: Plain(b[k]), map k | k in a :: Plain(a[k]);
    assert Plain(Obj(b)) == Obj(x) && Plain(Obj(a)) == Obj(y);
    assert x.Keys == b.Keys && y.Keys == a.Keys;
    if Same(Obj(b), Obj(a)) {
      assert x == y;
      forall k | k in b && k in a ensures Same(b[k], a[k]) { assert x[k] == y[k]; }
    }
  }

  /** The diff is empty exactly when the documents compare as equal. */
  lemma {:induction false} UnchangedIff(before: Json, after: Json)
    ensures Changed(before, after) == {} <==> Same(before, after)
    decreases before
  {
    if before.Obj? && after.Obj? {
      var b, a := before.members, after.members;
      SameObjects(b, a);
      hide Same;
      forall k | k in b && k in a ensures Changed(b[k], a[k]) == {} <==> Same(b[k], a[k]) {
        UnchangedIff(b[k], a[k]);
      }
      if k :| k in b.Keys + a.Keys && (k !in b || k !in a) {
        assert [k] in Changed(before, after);
      } else if k :| k in b && k in a && !Same(b[k], a[k]) {
        var p :| p in Changed(b[k], a[k]);
        assert [k] + p in Changed(before, after);
      }
    } else if !Same(before, after) {
      assert [] in Changed(before, after);
    }
  }

  /** So the diff does not see true turned into 1, nor 1 into 1.0. */
  lemma UnseenChange()
    ensures var was := Obj(map["a" := Json.Flag(true), "b" := Number(1)]);
            var now := Obj(map["a" := Number(1), "b" := Real(1.0)]);
            was != now && Changed(was, now) == {}
  {
    var b, a := map["a" := Json.Flag(true), "b" := Number(1)], map["a" := Number(1), "b" := Real(1.0)];
    assert b["a"] != a["a"];
    SameObjects(b, a);
    UnchangedIff(Obj(b), Obj(a));
  }

  /** Following object keys only. */
  function Member(d: Json, path: Path): Option<Json> {
    if path == [] then Some(d)
    else if d.Obj? && path[0] in d.members then Member(d.members[path[0]], path[1..])
    else None
  }

  /** Nothing at either place, or things that compare as equal. */
  predicate SameAt(a: Option<Json>, b: Option<Json>) {
    match (a, b)
    case (None, None) => true
    case (Some(x), Some(y)) => Same(x, y)
    case _ => false
  }

  /** The diff names exactly the points where the documents part: reached through objects
      in both, there in only one, or there in both, unequal and not both objects. */
  lemma {:induction false} ChangedMeaning(before: Json, after: Json, p: Path)
    ensures p in Changed(before, after) <==>
              && !SameAt(Member(before, p), Member(after, p))
              && !BothObjects(before, after, p)
              && forall n :: 0 <= n < |p| ==> BothObjects(before, after, p[..n])
    decreases before
  {
    hide Same;
    if p == [] {
      if before.Obj? && after.Obj? { assert [] !in Changed(before, after); }
    } else {
      var k, rest := p[0], p[1..];
      assert p == [k] + rest && p[..0] == [];
      assert BothObjects(before, after, p[..0]) <==> before.Obj? && after.Obj?;
      if before.Obj? && after.Obj? {
        if k in before.members && k in after.members {
          var b, a := before.members[k], after.members[k];
          ChangedMeaning(b, a, rest);
          assert p in Changed(before, after) <==> rest in Changed(b, a) by {
            forall q | [k] + q == p ensures q == rest { assert ([k] + q)[1..] == q; }
          }
          forall n | 0 <= n < |rest| ensures BothObjects(b, a, rest[..n]) <==> BothObjects(before, after, p[..n + 1]) {
            assert p[..n + 1][1..] == rest[..n];
          }
          assert (forall n :: 0 <= n < |p| ==> BothObjects(before, after, p[..n]))
            <==> (forall n :: 0 <= n < |rest| ==> BothObjects(b, a, rest[..n])) by {
            forall n | 0 < n < |p| ensures BothObjects(before, after, p[..n]) <==> BothObjects(b, a, rest[..n - 1]) {
              assert p[..n][1..] == rest[..n - 1];
            }
          }
        } else {
          assert rest == [] <==> p == [k];
          assert Member(before, p) == (if k in before.members then Member(before.members[k], rest) else None);
          assert Member(after, p) == (if k in after.members then Member(after.members[k], rest) else None);
          assert |p| > 1 ==> !BothObjects(before, after, p[..1]);
          assert forall q, n :: [n] + q == p ==> n == k;
        }
      }
    }
  }

  predicate BothObjects(before: Json, after: Json, p: Path) {
    Member(before, p).Some? && Member(after, p).Some? && Member(before, p).value.Obj? && Member(after, p).value.Obj?
  }
}
