/** The LL(1) engine: the FIRST and FOLLOW fixed points, the selection set of
    a production and the LL(1) table built from them. */
module LL1 {
  import opened Symbols
  import opened Grammars
  import opened FirstFollow
  import opened LL1Table

  // ---------------------------------------------------------------------------
  // FIRST: one pass over every production
  // ---------------------------------------------------------------------------

  /** What a FIRST pass keeps from its start map `m` to the current map `r`:
      the same names, sets that only grow and stay inside the alphabet, and
      below every closed map above `m`. */
  ghost predicate FirstProgress(g: GrammarView, m: SetMap, r: SetMap)
  {
    && (forall k :: k in r <==> k in m)
    && Within(r, FirstAlphabet(g))
    && Below(m, r)
    && (forall M :: FirstClosed(g, M) && Below(m, M) ==> Below(r, M))
  }

  /** The productions of `a` before `upto` have had their FIRST, read in the
      start map `m`, merged into the current map `r`. */
  ghost predicate FirstDone(g: GrammarView, m: SetMap, r: SetMap, a: string, upto: int)
    requires a in g.rules
  {
    forall j | 0 <= j < upto && j < |g.rules[a]| :: Normalize(First(g.terminals, m, g.rules[a][j])) <= Get(r, a)
  }

  /** One insertion of the FIRST pass keeps FirstProgress, records what the
      production contributes, and keeps what earlier insertions recorded. */
  lemma FirstStep(g: GrammarView, m: SetMap, r: SetMap, a: string, j: int, todo: set<string>)
    requires a in g.rules && a in m && 0 <= j < |g.rules[a]|
    requires FirstProgress(g, m, r) && FirstDone(g, m, r, a, j)
    requires forall b | b in g.rules && b !in todo :: FirstDone(g, m, r, b, |g.rules[b]|)
    ensures var r2 := r[a := Get(r, a) + Normalize(First(g.terminals, r, g.rules[a][j]))];
      && FirstProgress(g, m, r2)
      && FirstDone(g, m, r2, a, j + 1)
      && forall b | b in g.rules && b !in todo :: FirstDone(g, m, r2, b, |g.rules[b]|)
  {
    var p := g.rules[a][j];
    var f := Normalize(First(g.terminals, r, p));
    var r2 := r[a := Get(r, a) + f];
    FirstWithinAlphabet(g, r, p);
    FirstMonotone(g.terminals, m, r, p);
    assert Get(r, a) <= FirstAlphabet(g) by {
      if a in r {
        assert r[a] <= FirstAlphabet(g);
      }
    }
    assert Below(r, r2);
    assert Normalize(First(g.terminals, m, p)) <= f;
    assert FirstDone(g, m, r2, a, j + 1) by {
      forall k | 0 <= k < j + 1 && k < |g.rules[a]|
        ensures Normalize(First(g.terminals, m, g.rules[a][k])) <= Get(r2, a)
      {
        if k < j {
          assert Normalize(First(g.terminals, m, g.rules[a][k])) <= Get(r, a);
        }
      }
    }
    forall k ensures Get(m, k) <= Get(r2, k) {
      assert Get(m, k) <= Get(r, k);
    }
    forall M | FirstClosed(g, M) && Below(m, M) ensures Below(r2, M) {
      assert Below(r, M);
      FirstMonotone(g.terminals, r, M, p);
      assert Normalize(First(g.terminals, M, p)) <= Get(M, a);
      forall k ensures Get(r2, k) <= Get(M, k) {
        assert Get(r, k) <= Get(M, k);
      }
    }
    forall b | b in g.rules && b !in todo ensures FirstDone(g, m, r2, b, |g.rules[b]|) {
      forall k | 0 <= k < |g.rules[b]| ensures Normalize(First(g.terminals, m, g.rules[b][k])) <= Get(r2, b) {
        assert Get(r, b) <= Get(r2, b);
      }
    }
  }

  /** The inner loop of a FIRST pass: the FIRST of each production of `a`, in
      order, is merged into the set of `a`. */
  method FirstRule(g: GrammarView, m: SetMap, r0: SetMap, a: string, ghost todo: set<string>) returns (r: SetMap)
    requires a in g.rules && a in m
    requires FirstProgress(g, m, r0)
    requires forall b | b in g.rules && b !in todo :: FirstDone(g, m, r0, b, |g.rules[b]|)
    ensures FirstProgress(g, m, r)
    ensures forall b | b in g.rules && b !in todo :: FirstDone(g, m, r, b, |g.rules[b]|)
    ensures FirstDone(g, m, r, a, |g.rules[a]|)
  {
    r := r0;
    var productions := g.rules[a];
    var j := 0;
    while j < |productions|
      invariant 0 <= j <= |productions|
      invariant FirstProgress(g, m, r)
      invariant forall b | b in g.rules && b !in todo :: FirstDone(g, m, r, b, |g.rules[b]|)
      invariant FirstDone(g, m, r, a, j)
    {
      FirstStep(g, m, r, a, j, todo);
      var tempFirst := Normalize(First(g.terminals, r, productions[j]));
      r := r[a := Get(r, a) + tempFirst];
      j := j + 1;
    }
  }

  /** A pass that changed nothing leaves a closed map. */
  lemma FirstPassClosed(g: GrammarView, m: SetMap)
    requires forall b | b in g.rules :: FirstDone(g, m, m, b, |g.rules[b]|)
    ensures FirstClosed(g, m)
  {
    forall a, j | a in g.rules && 0 <= j < |g.rules[a]|
      ensures Normalize(First(g.terminals, m, g.rules[a][j])) <= Get(m, a)
    {
      assert FirstDone(g, m, m, a, |g.rules[a]|);
    }
  }

  /** One pass of the FIRST fixed point: every production's FIRST, with an EOL
      turned into EPSILON, is merged into its antecedent's set, reading the map
      as it is being updated. */
  method FirstPass(g: GrammarView, m: SetMap) returns (r: SetMap)
    requires forall k :: k in m <==> k in g.rules
    requires Within(m, FirstAlphabet(g))
    ensures FirstProgress(g, m, r)
    ensures r == m ==> FirstClosed(g, r)
  {
    r := m;
    var todo := g.rules.Keys;
    while todo != {}
      invariant todo <= g.rules.Keys
      invariant FirstProgress(g, m, r)
      invariant forall b | b in g.rules && b !in todo :: FirstDone(g, m, r, b, |g.rules[b]|)
      decreases |todo|
    {
      var a :| a in todo;
      r := FirstRule(g, m, r, a, todo);
      todo := todo - {a};
    }
    if r == m {
      FirstPassClosed(g, m);
    }
  }

  // ---------------------------------------------------------------------------
  // FOLLOW: one pass over every occurrence of a non-terminal
  // ---------------------------------------------------------------------------

  /** The symbols a FOLLOW set may hold: EOL, the terminals and whatever the
      FIRST map holds, never EPSILON. */
  ghost function FollowUniverse(g: GrammarView, fs: SetMap): set<string>
  {
    ({EOL} + g.terminals + Flatten(fs)) - {EPSILON}
  }

  /** Every symbol written on a right-hand side. */
  ghost function Occurrences(g: GrammarView): set<string>
  {
    set a, j, i | a in g.rules && 0 <= j < |g.rules[a]| && 0 <= i < |g.rules[a][j]| :: g.rules[a][j][i]
  }

  /** The names a FOLLOW entry may be created for. */
  ghost function FollowKeys(g: GrammarView): set<string>
  {
    g.rules.Keys + {g.axiom} + Occurrences(g)
  }

  /** FollowOk, with the antecedent's FOLLOW read in the snapshot `snap` and
      the occurrence's FOLLOW in the current map `cur`. */
  ghost predicate FollowOkFrom(g: GrammarView, fs: SetMap, snap: SetMap, cur: SetMap, a: string, p: Production, i: int)
    requires 0 <= i < |p|
  {
    var rest := First(g.terminals, fs, p[i + 1..]);
    && rest - {EPSILON} <= Get(cur, p[i])
    && (EPSILON in rest ==> Get(snap, a) <= Get(cur, p[i]))
  }

  lemma FollowOkFromGrow(g: GrammarView, fs: SetMap, s1: SetMap, s2: SetMap, c1: SetMap, c2: SetMap, a: string, p: Production, i: int)
    requires 0 <= i < |p|
    requires Below(s2, s1) && Below(c1, c2)
    requires FollowOkFrom(g, fs, s1, c1, a, p, i)
    ensures FollowOkFrom(g, fs, s2, c2, a, p, i)
  {
    assert Get(c1, p[i]) <= Get(c2, p[i]);
    assert Get(s2, a) <= Get(s1, a);
  }

  /** Adding to the FOLLOW set of `s` symbols of the universe that every closed
      map above `m` already holds there is progress in the sense of FollowProgress. */
  lemma InsertProgress(g: GrammarView, fs: SetMap, m: SetMap, s: string, add: set<string>)
    requires s in FollowKeys(g) && add <= FollowUniverse(g, fs) && Within(m, FollowUniverse(g, fs))
    requires forall M :: FollowClosed(g, fs, M) && Below(m, M) ==> add <= Get(M, s)
    ensures FollowProgress(g, fs, m, m[s := Get(m, s) + add], !(add <= Get(m, s)))
  {
    ghost var keys, u := FollowKeys(g), FollowUniverse(g, fs);
    var r := m[s := Get(m, s) + add];
    assert Below(m, r);
    if !(add <= Get(m, s)) {
      MissingInsert(keys, u, m, s, add);
    } else {
      assert Below(r, m);
    }
    forall M | FollowClosed(g, fs, M) && Below(m, M) ensures Below(r, M) {
      forall k ensures Get(r, k) <= Get(M, k) {
        assert Get(m, k) <= Get(M, k);
      }
    }
  }

  /** The FOLLOW work at occurrence `i` of production `j` of `a`: what follows
      the occurrence in the production is added, and when that can vanish,
      the antecedent's FOLLOW too. `changed` is set when a symbol is new. */
  method FollowAt(g: GrammarView, fs: SetMap, m: SetMap, a: string, j: int, i: int) returns (r: SetMap, changed: bool)
    requires a in g.rules && 0 <= j < |g.rules[a]| && 0 <= i < |g.rules[a][j]|
    requires g.rules[a][j][i] !in g.terminals
    requires Within(m, FollowUniverse(g, fs))
    ensures FollowProgress(g, fs, m, r, changed)
    ensures FollowOkFrom(g, fs, m, r, a, g.rules[a][j], i)
  {
    ghost var keys, u := FollowKeys(g), FollowUniverse(g, fs);
    var rhs := g.rules[a][j];
    var symbol := rhs[i];
    assert symbol in keys;
    var firstRemaining: set<string>;
    if i + 1 < |rhs| {
      firstRemaining := First(g.terminals, fs, rhs[i + 1..]);
    } else {
      firstRemaining := {EPSILON};
    }
    assert firstRemaining == First(g.terminals, fs, rhs[i + 1..]);
    var add := firstRemaining - {EPSILON};
    assert forall M :: FollowClosed(g, fs, M) && Below(m, M) ==> add <= Get(M, symbol) by {
      forall M | FollowClosed(g, fs, M) && Below(m, M) ensures add <= Get(M, symbol) {
        assert FollowOk(g, fs, M, a, g.rules[a][j], i);
      }
    }
    InsertProgress(g, fs, m, symbol, add);
    changed := !(add <= Get(m, symbol));
    r := m[symbol := Get(m, symbol) + add];
    if EPSILON in firstRemaining {
      var fl := Get(r, a);
      assert fl <= u by {
        if a in r {
          assert r[a] <= u;
        }
      }
      assert forall M :: FollowClosed(g, fs, M) && Below(r, M) ==> fl <= Get(M, symbol) by {
        forall M | FollowClosed(g, fs, M) && Below(r, M) ensures fl <= Get(M, symbol) {
          assert FollowOk(g, fs, M, a, g.rules[a][j], i);
          assert Get(r, a) <= Get(M, a);
        }
      }
      InsertProgress(g, fs, r, symbol, fl);
      ProgressChain(g, fs, m, r, r[symbol := Get(r, symbol) + fl], changed, !(fl <= Get(r, symbol)));
      assert Get(m, a) <= fl;
      changed := changed || !(fl <= Get(r, symbol));
      r := r[symbol := Get(r, symbol) + fl];
    }
  }

  /** What a FOLLOW pass keeps from its start map `m` to the current map `r`:
      the map only grows, stays inside the universe and below every closed map
      above `m`, and `changed` is set exactly when something was added. */
  ghost predicate FollowProgress(g: GrammarView, fs: SetMap, m: SetMap, r: SetMap, changed: bool)
  {
    && Within(r, FollowUniverse(g, fs))
    && Below(m, r)
    && (forall M :: FollowClosed(g, fs, M) && Below(m, M) ==> Below(r, M))
    && (!changed ==> Below(r, m))
    && (changed ==> Missing(FollowKeys(g), FollowUniverse(g, fs), r) < Missing(FollowKeys(g), FollowUniverse(g, fs), m))
  }

  /** Every non-terminal occurrence of production `j` of `a` before `upto` is done. */
  ghost predicate ProductionDone(g: GrammarView, fs: SetMap, m: SetMap, r: SetMap, a: string, j: int, upto: int)
    requires a in g.rules && 0 <= j < |g.rules[a]|
  {
    forall i | 0 <= i < upto && i < |g.rules[a][j]| && g.rules[a][j][i] !in g.terminals ::
      FollowOkFrom(g, fs, m, r, a, g.rules[a][j], i)
  }

  /** Every production of `a` before `upto` is done. */
  ghost predicate RuleDone(g: GrammarView, fs: SetMap, m: SetMap, r: SetMap, a: string, upto: int)
    requires a in g.rules
  {
    forall j | 0 <= j < upto && j < |g.rules[a]| :: ProductionDone(g, fs, m, r, a, j, |g.rules[a][j]|)
  }

  lemma ProgressChain(g: GrammarView, fs: SetMap, m: SetMap, r0: SetMap, r1: SetMap, changed: bool, c: bool)
    requires FollowProgress(g, fs, m, r0, changed)
    requires FollowProgress(g, fs, r0, r1, c)
    ensures FollowProgress(g, fs, m, r1, changed || c)
  {
    ghost var keys, u := FollowKeys(g), FollowUniverse(g, fs);
    forall k ensures Get(m, k) <= Get(r1, k) {
      assert Get(m, k) <= Get(r0, k) <= Get(r1, k);
    }
    if c {
      MissingGrow(keys, u, m, r0);
    } else {
      forall k ensures Get(r1, k) <= Get(r0, k) {
        assert Get(r1, k) <= Get(r0, k);
      }
      if !changed {
        forall k ensures Get(r1, k) <= Get(m, k) {
          assert Get(r1, k) <= Get(r0, k) <= Get(m, k);
        }
      } else {
        MissingGrow(keys, u, r1, r0);
      }
    }
  }

  lemma ProductionDoneGrow(g: GrammarView, fs: SetMap, m: SetMap, r0: SetMap, r1: SetMap, a: string, j: int, upto: int)
    requires a in g.rules && 0 <= j < |g.rules[a]|
    requires Below(r0, r1) && ProductionDone(g, fs, m, r0, a, j, upto)
    ensures ProductionDone(g, fs, m, r1, a, j, upto)
  {
    forall i | 0 <= i < upto && i < |g.rules[a][j]| && g.rules[a][j][i] !in g.terminals
      ensures FollowOkFrom(g, fs, m, r1, a, g.rules[a][j], i)
    {
      FollowOkFromGrow(g, fs, m, m, r0, r1, a, g.rules[a][j], i);
    }
  }

  lemma RuleDoneGrow(g: GrammarView, fs: SetMap, m: SetMap, r0: SetMap, r1: SetMap, a: string, upto: int)
    requires a in g.rules
    requires Below(r0, r1) && RuleDone(g, fs, m, r0, a, upto)
    ensures RuleDone(g, fs, m, r1, a, upto)
  {
    forall j | 0 <= j < upto && j < |g.rules[a]| ensures ProductionDone(g, fs, m, r1, a, j, |g.rules[a][j]|) {
      ProductionDoneGrow(g, fs, m, r0, r1, a, j, |g.rules[a][j]|);
    }
  }

  /** The FOLLOW work for every non-terminal occurrence of production `j` of `a`. */
  method FollowProduction(g: GrammarView, fs: SetMap, m: SetMap, a: string, j: int) returns (r: SetMap, changed: bool)
    requires a in g.rules && 0 <= j < |g.rules[a]|
    requires Within(m, FollowUniverse(g, fs))
    ensures FollowProgress(g, fs, m, r, changed)
    ensures ProductionDone(g, fs, m, r, a, j, |g.rules[a][j]|)
  {
    r, changed := m, false;
    MissingGrow(FollowKeys(g), FollowUniverse(g, fs), m, m);
    var rhs := g.rules[a][j];
    var i := 0;
    while i < |rhs|
      invariant 0 <= i <= |rhs|
      invariant FollowProgress(g, fs, m, r, changed)
      invariant ProductionDone(g, fs, m, r, a, j, i)
    {
      if rhs[i] !in g.terminals {
        var r1, c := FollowAt(g, fs, r, a, j, i);
        ProgressChain(g, fs, m, r, r1, changed, c);
        ProductionDoneGrow(g, fs, m, r, r1, a, j, i);
        FollowOkFromGrow(g, fs, r, m, r1, r1, a, rhs, i);
        r, changed := r1, changed || c;
      }
      i := i + 1;
    }
  }

  /** One pass of the FOLLOW fixed point over every occurrence of every
      non-terminal, reading the map as it is being updated. */
  method FollowPass(g: GrammarView, fs: SetMap, m: SetMap) returns (r: SetMap, changed: bool)
    requires Within(m, FollowUniverse(g, fs))
    ensures Within(r, FollowUniverse(g, fs)) && Below(m, r)
    ensures forall M :: FollowClosed(g, fs, M) && Below(m, M) ==> Below(r, M)
    ensures !changed ==> Below(r, m)
    ensures !changed && EOL in Get(m, g.axiom) ==> FollowClosed(g, fs, r)
    ensures changed ==> Missing(FollowKeys(g), FollowUniverse(g, fs), r) < Missing(FollowKeys(g), FollowUniverse(g, fs), m)
  {
    r, changed := m, false;
    MissingGrow(FollowKeys(g), FollowUniverse(g, fs), m, m);
    var todo := g.rules.Keys;
    while todo != {}
      invariant todo <= g.rules.Keys
      invariant FollowProgress(g, fs, m, r, changed)
      invariant forall b | b in g.rules && b !in todo :: RuleDone(g, fs, m, r, b, |g.rules[b]|)
      decreases |todo|
    {
      var lhs :| lhs in todo;
      var j := 0;
      while j < |g.rules[lhs]|
        invariant 0 <= j <= |g.rules[lhs]|
        invariant FollowProgress(g, fs, m, r, changed)
        invariant forall b | b in g.rules && b !in todo :: RuleDone(g, fs, m, r, b, |g.rules[b]|)
        invariant RuleDone(g, fs, m, r, lhs, j)
      {
        var r1, c := FollowProduction(g, fs, r, lhs, j);
        ProgressChain(g, fs, m, r, r1, changed, c);
        forall b | b in g.rules && b !in todo ensures RuleDone(g, fs, m, r1, b, |g.rules[b]|) {
          RuleDoneGrow(g, fs, m, r, r1, b, |g.rules[b]|);
        }
        RuleDoneGrow(g, fs, m, r, r1, lhs, j);
        assert ProductionDone(g, fs, m, r1, lhs, j, |g.rules[lhs][j]|) by {
          forall i | 0 <= i < |g.rules[lhs][j]| && g.rules[lhs][j][i] !in g.terminals
            ensures FollowOkFrom(g, fs, m, r1, lhs, g.rules[lhs][j], i)
          {
            FollowOkFromGrow(g, fs, r, m, r1, r1, lhs, g.rules[lhs][j], i);
          }
        }
        r, changed := r1, changed || c;
        j := j + 1;
      }
      todo := todo - {lhs};
    }
    if !changed && EOL in Get(m, g.axiom) {
      assert EOL in Get(r, g.axiom);
      forall b, k, i | b in g.rules && 0 <= k < |g.rules[b]| && 0 <= i < |g.rules[b][k]| && g.rules[b][k][i] !in g.terminals
        ensures FollowOk(g, fs, r, b, g.rules[b][k], i)
      {
        assert RuleDone(g, fs, m, r, b, |g.rules[b]|);
        assert ProductionDone(g, fs, m, r, b, k, |g.rules[b][k]|);
        FollowOkFromGrow(g, fs, m, r, r, r, b, g.rules[b][k], i);
      }
    }
  }

  // ---------------------------------------------------------------------------
  // The column of one non-terminal
  // ---------------------------------------------------------------------------

  /** The cell of `t` exists and holds a production. */
  predicate Occupied<P>(column: map<string, seq<P>>, t: string)
  {
    t in column && column[t] != []
  }

  /** No symbol of `s` has an occupied cell. */
  ghost predicate NoneOccupied<P>(column: map<string, seq<P>>, s: set<string>)
  {
    forall t | t in s :: !Occupied(column, t)
  }

  /** Pushes `p` at the end of the cell of every symbol of `ds`, creating the
      cells that do not exist yet; `hit` tells whether one of those cells
      already held a production. */
  method PushProduction<P>(column: map<string, seq<P>>, ds: set<string>, p: P)
    returns (r: map<string, seq<P>>, hit: bool)
    ensures forall t :: t in r <==> t in column || t in ds
    ensures forall t | t in r :: r[t] == (if t in column then column[t] else []) + (if t in ds then [p] else [])
    ensures hit <==> !NoneOccupied(column, ds)
  {
    r, hit := column, false;
    var rest := ds;
    while rest != {}
      invariant PushedSoFar(column, r, hit, ds, rest, p)
      decreases |rest|
    {
      var symbol :| symbol in rest;
      var cell := if symbol in r then r[symbol] else [];
      var r2, hit2 := r[symbol := cell + [p]], hit || cell != [];
      PushStep(column, r, hit, ds, rest, p, symbol, r2, hit2);
      r, hit := r2, hit2;
      rest := rest - {symbol};
    }
  }

  /** `r` is `column` with `p` pushed into the cells of the symbols of `ds`
      that are not in `rest`, and `hit` tells whether one of those cells was
      occupied before. */
  ghost predicate PushedSoFar<P>(column: map<string, seq<P>>, r: map<string, seq<P>>, hit: bool,
                                 ds: set<string>, rest: set<string>, p: P)
  {
    && rest <= ds
    && (forall t :: t in r <==> t in column || (t in ds && t !in rest))
    && (forall t | t in r :: r[t] == (if t in column then column[t] else []) + (if t in ds && t !in rest then [p] else []))
    && (hit <==> exists t :: t in ds && t !in rest && Occupied(column, t))
  }

  lemma PushStep<P>(column: map<string, seq<P>>, r: map<string, seq<P>>, hit: bool, ds: set<string>, rest: set<string>, p: P,
                    symbol: string, r2: map<string, seq<P>>, hit2: bool)
    requires PushedSoFar(column, r, hit, ds, rest, p) && symbol in rest
    requires r2 == r[symbol := (if symbol in r then r[symbol] else []) + [p]]
    requires hit2 == (hit || (if symbol in r then r[symbol] else []) != [])
    ensures PushedSoFar(column, r2, hit2, ds, rest - {symbol}, p)
  {
  }

  /** `column` is the column of the first `j` productions, and `conflict`
      tells whether one of its cells holds more than one. */
  ghost predicate ColumnSoFar(ps: seq<Production>, preds: seq<set<string>>, j: int,
                              column: map<string, seq<Production>>, conflict: bool)
  {
    && |ps| == |preds| && 0 <= j <= |ps|
    && ColumnIs(column, ps[..j], preds[..j])
    && (conflict <==> !SingleCells(ps[..j], preds[..j]))
  }

  /** Pushing production `j` into the column of the first `j` productions
      gives the column of the first `j + 1`, with a conflict exactly when one
      of the cells it is pushed into was occupied. */
  lemma BuildStep(ps: seq<Production>, preds: seq<set<string>>, j: int, prev: map<string, seq<Production>>, conflict: bool,
                  column: map<string, seq<Production>>, hit: bool)
    requires ColumnSoFar(ps, preds, j, prev, conflict) && j < |ps|
    requires forall t :: t in column <==> t in prev || t in preds[j]
    requires forall t | t in column :: column[t] == (if t in prev then prev[t] else []) + (if t in preds[j] then [ps[j]] else [])
    requires hit <==> !NoneOccupied(prev, preds[j])
    ensures ColumnSoFar(ps, preds, j + 1, column, conflict || hit)
  {
    assert ps[..j + 1][..j] == ps[..j] && preds[..j + 1][..j] == preds[..j];
    ColumnStep(ps[..j + 1], preds[..j + 1], prev, column);
    forall t | t in preds[j] ensures Occupied(prev, t) <==> Cell(ps[..j], preds[..j], t) != [] {
      UnionMembership(preds[..j], t);
      CellEmpty(ps[..j], preds[..j], t);
    }
    SingleCellsStep(ps[..j + 1], preds[..j + 1]);
  }

  /** The whole column has been built. */
  lemma BuildDone(ps: seq<Production>, preds: seq<set<string>>, column: map<string, seq<Production>>, conflict: bool)
    requires ColumnSoFar(ps, preds, |ps|, column, conflict)
    ensures column == Column(ps, preds)
    ensures conflict <==> !SingleCells(ps, preds)
  {
    assert ps[..|ps|] == ps && preds[..|ps|] == preds;
    ColumnIsColumn(column, ps, preds);
  }

  /** Builds the column of `a`: every production is pushed into the cell of
      each symbol of its selection set, and a conflict is reported when a cell
      that already holds a production receives another. */
  method BuildColumn(terms: set<string>, fs: SetMap, fw: SetMap, a: string, ps: seq<Production>)
    returns (column: map<string, seq<Production>>, conflict: bool)
    ensures column == Column(ps, Predictions(terms, fs, fw, a, ps))
    ensures conflict <==> !SingleCells(ps, Predictions(terms, fs, fw, a, ps))
  {
    ghost var preds := Predictions(terms, fs, fw, a, ps);
    column, conflict := map[], false;
    var j := 0;
    while j < |ps|
      invariant ColumnSoFar(ps, preds, j, column, conflict)
      decreases |ps| - j
    {
      var ds := Prediction(terms, fs, fw, a, ps[j]);
      ghost var prev := column;
      var hit;
      column, hit := PushProduction(column, ds, ps[j]);
      BuildStep(ps, preds, j, prev, conflict, column, hit);
      conflict := conflict || hit;
      j := j + 1;
    }
    BuildDone(ps, preds, column, conflict);
  }

  /** The row of `a` the selection sets of its productions call for. */
  function Row(g: GrammarView, fs: SetMap, fw: SetMap, a: string): map<string, seq<Production>>
    requires a in g.rules
  {
    Column(g.rules[a], Predictions(g.terminals, fs, fw, a, g.rules[a]))
  }

  /** Every row of `table` is the one its non-terminal calls for. */
  ghost predicate RowsAsCalled(g: GrammarView, fs: SetMap, fw: SetMap, table: map<string, map<string, seq<Production>>>)
  {
    forall a | a in table :: a in g.rules && table[a] == Row(g, fs, fw, a)
  }

  /** Every non-terminal outside `todo` has a conflict-free row. */
  ghost predicate SingleOutside(g: GrammarView, fs: SetMap, fw: SetMap, todo: set<string>)
  {
    forall a | a in g.rules && a !in todo :: SingleCells(g.rules[a], Predictions(g.terminals, fs, fw, a, g.rules[a]))
  }

  /** One row of the table loop: the row of `a` is inserted unless one is
      already there, and its conflicts join those found so far. */
  lemma FillStep(g: GrammarView, fs: SetMap, fw: SetMap, table: map<string, map<string, seq<Production>>>,
                 todo: set<string>, hasConflict: bool, a: string, column: map<string, seq<Production>>, c: bool)
    requires a in todo && a in g.rules
    requires RowsAsCalled(g, fs, fw, table) && forall b | b in g.rules && b !in todo :: b in table
    requires hasConflict <==> !SingleOutside(g, fs, fw, todo)
    requires column == Row(g, fs, fw, a)
    requires c <==> !SingleCells(g.rules[a], Predictions(g.terminals, fs, fw, a, g.rules[a]))
    ensures var t2 := if a !in table then table[a := column] else table;
      && RowsAsCalled(g, fs, fw, t2)
      && (forall b | b in g.rules && b !in todo - {a} :: b in t2)
      && ((hasConflict || c) <==> !SingleOutside(g, fs, fw, todo - {a}))
  {
  }

  /** A table holding only called-for rows, one for every rule, has the
      rules' keys. */
  lemma RowsCoverRules(g: GrammarView, fs: SetMap, fw: SetMap, t: map<string, map<string, seq<Production>>>)
    requires RowsAsCalled(g, fs, fw, t) && forall b | b in g.rules :: b in t
    ensures t.Keys == g.rules.Keys
  {
  }

  /** The loop of CreateLL1Table over the non-terminals: a row that already
      exists is kept, as a map insertion does not overwrite. */
  method FillTable(g: GrammarView, fs: SetMap, fw: SetMap, t0: map<string, map<string, seq<Production>>>)
    returns (t: map<string, map<string, seq<Production>>>, ok: bool)
    requires RowsAsCalled(g, fs, fw, t0)
    ensures RowsAsCalled(g, fs, fw, t)
    ensures t.Keys == g.rules.Keys
    ensures ok <==> SingleOutside(g, fs, fw, {})
  {
    t := t0;
    var todo := g.rules.Keys;
    var hasConflict := false;
    while todo != {}
      invariant todo <= g.rules.Keys
      invariant RowsAsCalled(g, fs, fw, t)
      invariant forall b | b in g.rules && b !in todo :: b in t
      invariant hasConflict <==> !SingleOutside(g, fs, fw, todo)
      decreases |todo|
    {
      var a :| a in todo;
      var column, c := BuildColumn(g.terminals, fs, fw, a, g.rules[a]);
      FillStep(g, fs, fw, t, todo, hasConflict, a, column, c);
      hasConflict := hasConflict || c;
      if a !in t {
        t := t[a := column];
      }
      todo := todo - {a};
    }
    RowsCoverRules(g, fs, fw, t);
    ok := !hasConflict;
  }

  // ---------------------------------------------------------------------------
  // The parser
  // ---------------------------------------------------------------------------

  class LL1Parser {
    /** The parser's own copy of the grammar. */
    const gr: GrammarView
    var first: SetMap
    var follow: SetMap
    var table: map<string, map<string, seq<Production>>>

    /** FIRST and FOLLOW are the least fixed points. */
    ghost predicate SetsOk()
      reads this`first, this`follow
    {
      && IsLeastFirst(gr, first)
      && IsLeastFollow(gr, first, follow)
      && Within(follow, FollowUniverse(gr, first))
    }

    /** Every row of the table is the one its non-terminal calls for. */
    ghost predicate RowsOk()
      reads this
    {
      RowsAsCalled(gr, first, follow, table)
    }

    ghost predicate Valid()
      reads this
    {
      SetsOk() && RowsOk()
    }

    /** Copies the grammar and computes its FIRST and FOLLOW sets. */
    constructor (gram: Grammar)
      ensures gr == gram.View()
      ensures table == map[]
      ensures Valid()
    {
      gr := gram.View();
      first, follow, table := map[], map[], map[];
      new;
      ComputeFirstSets();
      ComputeFollowSets();
    }

    /** Least fixed point of FIRST, starting every non-terminal at the empty set. */
    method ComputeFirstSets()
      modifies this`first
      ensures IsLeastFirst(gr, first)
    {
      first := map a | a in gr.rules :: {};
      var changed := true;
      while changed
        invariant forall k :: k in first <==> k in gr.rules
        invariant Within(first, FirstAlphabet(gr))
        invariant forall M :: FirstClosed(gr, M) ==> Below(first, M)
        invariant !changed ==> FirstClosed(gr, first)
        decreases Missing(gr.rules.Keys, FirstAlphabet(gr), first), if changed then 1 else 0
      {
        var oldFirstSets := first;
        first := FirstPass(gr, first);
        changed := oldFirstSets != first;
        if changed {
          MissingStrict(gr.rules.Keys, FirstAlphabet(gr), oldFirstSets, first);
        }
      }
      assert first.Keys == gr.rules.Keys;
    }

    /** Least fixed point of FOLLOW, starting from EOL in FOLLOW(axiom). */
    method ComputeFollowSets()
      modifies this`follow
      ensures IsLeastFollow(gr, first, follow)
      ensures Within(follow, FollowUniverse(gr, first))
    {
      ghost var keys, u := FollowKeys(gr), FollowUniverse(gr, first);
      follow := map a | a in gr.rules :: {};
      follow := follow[gr.axiom := Get(follow, gr.axiom) + {EOL}];
      var changed := true;
      while changed
        invariant Within(follow, u)
        invariant EOL in Get(follow, gr.axiom)
        invariant forall M :: FollowClosed(gr, first, M) ==> Below(follow, M)
        invariant !changed ==> FollowClosed(gr, first, follow)
        decreases Missing(keys, u, follow), if changed then 1 else 0
      {
        ghost var before := follow;
        follow, changed := FollowPass(gr, first, follow);
        if !changed {
          MissingGrow(keys, u, before, follow);
          MissingGrow(keys, u, follow, before);
        }
      }
    }

    /** FOLLOW of a name; the empty set for a name without an entry. */
    function Follow(arg: string): (r: set<string>)
      reads this
      ensures arg !in follow ==> r == {}
      ensures Valid() ==> EPSILON !in r
      ensures Valid() && arg == gr.axiom ==> EOL in r
      ensures Valid() ==> forall M :: FollowClosed(gr, first, M) ==> r <= Get(M, arg)
    {
      if arg !in follow then {} else follow[arg]
    }

    /** The selection set of `antecedent -> consequent`. */
    function PredictionSymbols(antecedent: string, consequent: Production): (r: set<string>)
      reads this
      ensures Valid() ==> EPSILON !in r && r <= (gr.terminals + {EOL}) - {EPSILON}
      ensures EPSILON !in First(gr.terminals, first, consequent) ==> r == First(gr.terminals, first, consequent)
      ensures EPSILON in First(gr.terminals, first, consequent) ==>
        r == (First(gr.terminals, first, consequent) - {EPSILON}) + Follow(antecedent)
    {
      Prediction(gr.terminals, first, follow, antecedent, consequent)
    }

    /** Recomputes FIRST and FOLLOW when either map is empty, then builds a row
        per non-terminal and reports whether every cell holds at most one
        production. */
    method CreateLL1Table() returns (ok: bool)
      requires Valid()
      modifies this`first, this`follow, this`table
      ensures Valid()
      ensures table.Keys == gr.rules.Keys
      ensures forall a | a in gr.rules :: table[a] == Row(gr, first, follow, a)
      ensures ok <==> SingleOutside(gr, first, follow, {})
      ensures ok <==> forall a | a in gr.rules :: PairwiseDisjoint(Predictions(gr.terminals, first, follow, a, gr.rules[a]))
    {
      assert gr.axiom in follow;
      if |first| == 0 || |follow| == 0 {
        assert gr.rules.Keys == {};
        ComputeFirstSets();
        ComputeFollowSets();
      }
      ok := FillRows();
      forall a | a in gr.rules {
        SingleCellsIffDisjoint(gr.rules[a], Predictions(gr.terminals, first, follow, a, gr.rules[a]));
      }
    }

    /** The table part of CreateLL1Table, on the parser's fields. */
    method FillRows() returns (ok: bool)
      requires SetsOk() && RowsOk()
      modifies this`table
      ensures SetsOk() && RowsOk()
      ensures table.Keys == gr.rules.Keys
      ensures ok <==> SingleOutside(gr, first, follow, {})
    {
      table, ok := FillTable(gr, first, follow, table);
    }
  }
}
