/** Close target selection on the snapshots the stage chain publishes: reordering the
    captures of such a snapshot never changes the outcome. */
module CloseOrder {
  import opened Bars
  import opened Coverage
  import opened StageChain
  import T = TargetSelection

  /** What a fact of a capture becomes as a candidate. */
  type View = (Ref, Fact) -> T.Candidate

  /** The in-window observations of one capture, in the order of its document. */
  function Observed(r: Ref, facts: seq<Fact>, w: Window, view: View): T.Observations {
    if facts == [] then []
    else
      Observed(r, facts[..|facts| - 1], w, view)
      + var f := facts[|facts| - 1];
        if Stamp(f, w).Some? then [T.Observation(r.symbol, Stamp(f, w).value, view(r, f))] else []
  }

  /** Capture by capture, as `_target_observations` reads them. */
  function AllObserved(refs: seq<Ref>, w: Window, view: View): T.Observations {
    if refs == [] then []
    else
      var r := refs[|refs| - 1];
      AllObserved(refs[..|refs| - 1], w, view) + Observed(r, r.facts, w, view)
  }

  /** The observations of one symbol, in order. */
  function Only(obs: T.Observations, s: string): T.Observations {
    if obs == [] then []
    else
      var o := obs[|obs| - 1];
      Only(obs[..|obs| - 1], s) + if o.symbol == s then [o] else []
  }

  // ---------- the walk decides symbol by symbol ----------

  function Alone(obs: T.Observations, s: string): Result<T.Chosen, T.SelectionError> { T.CloseWalk(Only(obs, s)) }

  /** The walk over everything chose for `s` what the walk over `s` alone chose. */
  ghost predicate SameChoice(whole: T.Chosen, one: T.Chosen, s: string) {
    (s in whole <==> s in one) && (s in whole ==> whole[s] == one[s])
  }

  lemma OnlySnoc(init: T.Observations, o: T.Observation, s: string)
    ensures Only(init + [o], s) == if o.symbol == s then Only(init, s) + [o] else Only(init, s)
  {
    assert (init + [o])[..|init|] == init;
  }

  lemma WalkSnoc(init: T.Observations, o: T.Observation)
    ensures T.CloseWalk(init).Ok? ==> T.CloseWalk(init + [o]) == T.CloseStep(T.CloseWalk(init).value, o)
    ensures T.CloseWalk(init).Fail? ==> T.CloseWalk(init + [o]).Fail?
  {
    assert (init + [o])[..|init|] == init;
  }

  /** The walk succeeds exactly when it succeeds on each symbol alone. */
  lemma {:induction false} WalkBySymbol(obs: T.Observations)
    ensures T.CloseWalk(obs).Ok? <==> forall s :: Alone(obs, s).Ok?
  {
    if obs == [] {
      assert forall s :: Only(obs, s) == [];
    } else {
      var init, o := obs[..|obs| - 1], obs[|obs| - 1];
      assert obs == init + [o];
      WalkBySymbol(init);
      WalkSnoc(init, o);
      WalkSnoc(Only(init, o.symbol), o);
      forall s ensures s != o.symbol ==> Alone(obs, s) == Alone(init, s) { OnlySnoc(init, o, s); }
      OnlySnoc(init, o, o.symbol);
      if T.CloseWalk(init).Ok? {
        assert Alone(init, o.symbol).Ok?;
        ChoiceBySymbol(init, o.symbol);
        hide T.CloseWalk;
        assert T.CloseWalk(obs).Ok? <==> Alone(obs, o.symbol).Ok?;
      } else {
        var s :| Alone(init, s).Fail?;
        assert Alone(obs, s).Fail?;
      }
    }
  }

  lemma {:induction false} ChoiceBySymbol(obs: T.Observations, s: string)
    requires T.CloseWalk(obs).Ok?
    ensures Alone(obs, s).Ok? && SameChoice(T.CloseWalk(obs).value, Alone(obs, s).value, s)
  {
    if obs == [] {
      assert Only(obs, s) == [];
    } else {
      var init, o := obs[..|obs| - 1], obs[|obs| - 1];
      assert obs == init + [o];
      WalkSnoc(init, o);
      ChoiceBySymbol(init, s);
      OnlySnoc(init, o, s);
      WalkSnoc(Only(init, s), o);
    }
  }

  /** So two lists with the same observations of every symbol, in the same order, agree. */
  lemma SameSubsequences(a: T.Observations, b: T.Observations)
    requires forall s :: Only(a, s) == Only(b, s)
    ensures T.CloseWalk(a) == T.CloseWalk(b)
  {
    hide T.CloseWalk;
    assert forall s :: Alone(a, s) == Alone(b, s);
    WalkBySymbol(a);
    WalkBySymbol(b);
    if T.CloseWalk(a).Ok? {
      var m, n := T.CloseWalk(a).value, T.CloseWalk(b).value;
      forall s ensures SameChoice(m, n, s) {
        ChoiceBySymbol(a, s);
        ChoiceBySymbol(b, s);
      }
      SameMaps(m, n);
    } else {
      assert T.CloseWalk(a).error.Ambiguous? && T.CloseWalk(b).error.Ambiguous?;
    }
  }

  lemma SameMaps(m: T.Chosen, n: T.Chosen)
    requires forall s :: SameChoice(m, n, s)
    ensures m == n
  {
    forall s ensures s in m <==> s in n { assert SameChoice(m, n, s); }
    forall s | s in m ensures m[s] == n[s] { assert SameChoice(m, n, s); }
  }

  // ---------- published snapshots ----------

  lemma OnlyJoin(a: T.Observations, b: T.Observations, s: string)
    ensures Only(a + b, s) == Only(a, s) + Only(b, s)
    decreases |b|
  {
    if b == [] {
      assert a + b == a;
    } else {
      var init, o := b[..|b| - 1], b[|b| - 1];
      assert a + b == (a + init) + [o] && b == init + [o];
      OnlyJoin(a, init, s);
      OnlySnoc(a + init, o, s);
      OnlySnoc(init, o, s);
    }
  }

  lemma ObservedSnoc(r: Ref, init: seq<Fact>, f: Fact, w: Window, view: View)
    ensures Observed(r, init + [f], w, view)
         == Observed(r, init, w, view)
            + if Stamp(f, w).Some? then [T.Observation(r.symbol, Stamp(f, w).value, view(r, f))] else []
  {
    assert (init + [f])[..|init|] == init;
  }

  lemma {:induction false} OnlyObserved(r: Ref, facts: seq<Fact>, w: Window, view: View, s: string)
    ensures r.symbol != s ==> Only(Observed(r, facts, w, view), s) == []
    ensures r.symbol == s ==> Only(Observed(r, facts, w, view), s) == Observed(r, facts, w, view)
    ensures (forall f :: f in facts ==> Stamp(f, w).None?) ==> Observed(r, facts, w, view) == []
  {
    if facts != [] {
      var init, f := facts[..|facts| - 1], facts[|facts| - 1];
      assert facts == init + [f];
      OnlyObserved(r, init, w, view, s);
      ObservedSnoc(r, init, f, w, view);
      assert f in facts && forall x :: x in init ==> x in facts;
      hide Observed, Only, Stamp;
      var was := Observed(r, init, w, view);
      if Stamp(f, w).Some? {
        OnlySnoc(was, T.Observation(r.symbol, Stamp(f, w).value, view(r, f)), s);
      } else {
        assert was + [] == was;
      }
    }
  }

  lemma AllObservedSnoc(init: seq<Ref>, r: Ref, w: Window, view: View)
    ensures AllObserved(init + [r], w, view) == AllObserved(init, w, view) + Observed(r, r.facts, w, view)
  {
    assert (init + [r])[..|init|] == init;
  }

  /** Before a capture that has in-window facts no other one of its symbol has any. */
  lemma SingleSnoc(init: seq<Ref>, last: Ref, w: Window)
    requires SingleSource(init + [last], w)
    ensures SingleSource(init, w)
    ensures Seen(last, w) ==> forall r :: r in init && r.symbol == last.symbol ==> !Seen(r, w)
  {
    var refs := init + [last];
    assert forall i :: 0 <= i < |init| ==> refs[i] == init[i];
    assert refs[|init|] == last;
  }

  /** One more capture adds its own observations to those of its symbol. */
  lemma OnlyMore(init: seq<Ref>, last: Ref, w: Window, view: View, s: string)
    ensures Only(AllObserved(init + [last], w, view), s)
         == if last.symbol == s && Seen(last, w) then Only(AllObserved(init, w, view), s) + Observed(last, last.facts, w, view)
            else Only(AllObserved(init, w, view), s)
  {
    AllObservedSnoc(init, last, w, view);
    OnlyObserved(last, last.facts, w, view, s);
    OnlyJoin(AllObserved(init, w, view), Observed(last, last.facts, w, view), s);
    assert !Seen(last, w) ==> Observed(last, last.facts, w, view) == [];
    hide *;
    var was := Only(AllObserved(init, w, view), s);
    assert was + [] == was;
  }

  lemma {:induction false} NoCapture(refs: seq<Ref>, w: Window, view: View, s: string)
    requires forall r :: r in refs && r.symbol == s ==> !Seen(r, w)
    ensures Only(AllObserved(refs, w, view), s) == []
  {
    if refs != [] {
      var init, last := refs[..|refs| - 1], refs[|refs| - 1];
      assert refs == init + [last] && last in refs;
      NoCapture(init, w, view, s);
      OnlyMore(init, last, w, view, s);
    }
  }

  /** A symbol's observations are those of its one capture with in-window facts. */
  lemma {:induction false} OneCapture(refs: seq<Ref>, w: Window, view: View, r: Ref)
    requires SingleSource(refs, w) && r in refs && Seen(r, w)
    ensures Only(AllObserved(refs, w, view), r.symbol) == Observed(r, r.facts, w, view)
  {
    var init, last := refs[..|refs| - 1], refs[|refs| - 1];
    assert refs == init + [last];
    SingleSnoc(init, last, w);
    OnlyMore(init, last, w, view, r.symbol);
    if r == last {
      NoCapture(init, w, view, r.symbol);
      hide *;
      var mine := Observed(r, r.facts, w, view);
      assert [] + mine == mine;
    } else {
      assert r in init;
      OneCapture(init, w, view, r);
    }
  }

  /** On a Close snapshot the chain can publish, target selection does not depend on the order
      of its captures. */
  lemma PublishedCloseIsOrderFree(cfg: Config, script: seq<Step>, refs: seq<Ref>, view: View)
    requires cfg.WellFormed() && Close in Play(cfg, map[], script)
    requires multiset(refs) == multiset(Play(cfg, map[], script)[Close].refs)
    ensures T.CloseWalk(AllObserved(refs, Target(Close), view))
         == T.CloseWalk(AllObserved(Play(cfg, map[], script)[Close].refs, Target(Close), view))
  {
    var was, w := Play(cfg, map[], script)[Close].refs, Target(Close);
    CloseFactsFromOneCapture(cfg, script);
    hide *;
    PermutedSingle(was, refs, w);
    forall s ensures Only(AllObserved(refs, w, view), s) == Only(AllObserved(was, w, view), s) {
      SameOnly(was, refs, w, view, s);
    }
    SameSubsequences(AllObserved(refs, w, view), AllObserved(was, w, view));
  }

  lemma SameOnly(a: seq<Ref>, b: seq<Ref>, w: Window, view: View, s: string)
    requires SingleSource(a, w) && SingleSource(b, w) && forall r :: r in a <==> r in b
    ensures Only(AllObserved(a, w, view), s) == Only(AllObserved(b, w, view), s)
  {
    hide Only, AllObserved, Observed, SingleSource, Seen;
    if r :| r in a && r.symbol == s && Seen(r, w) {
      OneCapture(a, w, view, r);
      OneCapture(b, w, view, r);
    } else {
      NoCapture(a, w, view, s);
      NoCapture(b, w, view, s);
    }
  }

  lemma PermutedSingle(a: seq<Ref>, b: seq<Ref>, w: Window)
    requires SingleSource(a, w) && multiset(a) == multiset(b)
    ensures SingleSource(b, w) && forall r :: r in a <==> r in b
  {
    forall r ensures r in a <==> r in b { assert r in multiset(a) <==> r in multiset(b); }
    forall i, j | 0 <= i < j < |b| && Seen(b[i], w) && Seen(b[j], w) ensures b[i].symbol != b[j].symbol {
      AtMostOnce(a, b[i], w);
      Twice(b, i, j);
      assert b[i] in b && b[j] in b;
      var k :| 0 <= k < |a| && a[k] == b[i];
      var l :| 0 <= l < |a| && a[l] == b[j];
      assert k != l;
    }
  }

  lemma Twice(refs: seq<Ref>, i: nat, j: nat)
    requires i < j < |refs|
    ensures refs[i] == refs[j] ==> multiset(refs)[refs[i]] >= 2
  {
    assert refs == refs[..j] + [refs[j]] + refs[j + 1..];
    assert refs[i] == refs[..j][i] && refs[..j][i] in refs[..j];
  }

  lemma {:induction false} AtMostOnce(refs: seq<Ref>, r: Ref, w: Window)
    requires SingleSource(refs, w) && Seen(r, w)
    ensures multiset(refs)[r] <= 1
  {
    if refs != [] {
      var init, last := refs[..|refs| - 1], refs[|refs| - 1];
      AtMostOnce(init, r, w);
      assert refs == init + [last];
      assert multiset(refs) == multiset(init) + multiset{last};
      if last == r {
        assert r !in init by {
          forall i | 0 <= i < |init| ensures init[i] != r { assert refs[i] == init[i]; }
        }
        assert r !in multiset(init);
      }
    }
  }
}
