/** FIRST of a symbol sequence, the closure conditions that FIRST and FOLLOW
    maps satisfy at their fixed points, and the prediction (selection) set of a
    production. Maps of sets are read through `Get`, so a name without an entry
    has the empty set, as the entry `operator[]` creates would. */
module FirstFollow {
  import opened Symbols
  import opened Grammars

  type SetMap = map<string, set<string>>

  function Get(m: SetMap, k: string): set<string>
  {
    if k in m then m[k] else {}
  }

  /** Pointwise inclusion of two maps of sets. */
  ghost predicate Below(m1: SetMap, m2: SetMap)
  {
    forall k :: Get(m1, k) <= Get(m2, k)
  }

  /** Every element of every set in `m`. */
  ghost function Flatten(m: SetMap): set<string>
  {
    set k, t | k in m && t in m[k] :: t
  }

  ghost predicate Within(m: SetMap, u: set<string>)
  {
    forall k | k in m :: m[k] <= u
  }

  ghost predicate NoEpsilon(m: SetMap)
  {
    forall k | k in m :: EPSILON !in m[k]
  }

  /** FIRST of a symbol sequence, given the terminal set and the current FIRST
      map of the non-terminals. A name that is not a terminal is read as a
      non-terminal, with an empty FIRST set when it has no entry. */
  function First(terms: set<string>, fs: SetMap, rule: seq<string>): (r: set<string>)
    ensures r <= {EPSILON} + (terms - {EOL}) + Flatten(fs)
    decreases |rule|
  {
    if |rule| == 0 || (|rule| == 1 && rule[0] == EPSILON) then {EPSILON}
    else if |rule| > 1 && rule[0] == EPSILON then First(terms, fs, rule[1..])
    else if rule[0] in terms then
      (if rule[0] == EOL then {EPSILON} else {rule[0]})
    else
      var fii := Get(fs, rule[0]);
      assert forall t | t in fii :: t in Flatten(fs);
      (fii - {EPSILON}) + (if EPSILON in fii then First(terms, fs, rule[1..]) else {})
  }

  /** The fix-up applied to each production's FIRST before it is merged: an EOL
      is replaced by EPSILON. */
  function Normalize(s: set<string>): (r: set<string>)
    ensures EOL !in r
    ensures s - {EOL} <= r <= s + {EPSILON}
    ensures EOL in s ==> EPSILON in r
    ensures EOL !in s ==> r == s
  {
    if EOL in s then (s - {EOL}) + {EPSILON} else s
  }

  /** The alphabet of FIRST sets: EPSILON and every terminal but EOL. */
  function FirstAlphabet(g: GrammarView): set<string>
  {
    (g.terminals - {EOL}) + {EPSILON}
  }

  /** Every production's FIRST is already included in its antecedent's set. */
  ghost predicate FirstClosed(g: GrammarView, m: SetMap)
  {
    forall a, j | a in g.rules && 0 <= j < |g.rules[a]| ::
      Normalize(First(g.terminals, m, g.rules[a][j])) <= Get(m, a)
  }

  /** `fs` is the least closed FIRST map, with one entry per non-terminal. */
  ghost predicate IsLeastFirst(g: GrammarView, fs: SetMap)
  {
    && fs.Keys == g.rules.Keys
    && Within(fs, FirstAlphabet(g))
    && FirstClosed(g, fs)
    && forall m :: FirstClosed(g, m) ==> Below(fs, m)
  }

  /** The FOLLOW conditions at occurrence `i` of production `p` of `a`. */
  ghost predicate FollowOk(g: GrammarView, fs: SetMap, m: SetMap, a: string, p: Production, i: int)
    requires 0 <= i < |p|
  {
    var rest := First(g.terminals, fs, p[i + 1..]);
    && rest - {EPSILON} <= Get(m, p[i])
    && (EPSILON in rest ==> Get(m, a) <= Get(m, p[i]))
  }

  /** EOL follows the axiom and every occurrence of a non-terminal satisfies FollowOk. */
  ghost predicate FollowClosed(g: GrammarView, fs: SetMap, m: SetMap)
  {
    && EOL in Get(m, g.axiom)
    && forall a, j, i | a in g.rules && 0 <= j < |g.rules[a]| && 0 <= i < |g.rules[a][j]| && g.rules[a][j][i] !in g.terminals ::
         FollowOk(g, fs, m, a, g.rules[a][j], i)
  }

  /** `fw` is the least closed FOLLOW map and holds no EPSILON. */
  ghost predicate IsLeastFollow(g: GrammarView, fs: SetMap, fw: SetMap)
  {
    && FollowClosed(g, fs, fw)
    && NoEpsilon(fw)
    && forall m :: FollowClosed(g, fs, m) ==> Below(fw, m)
  }

  /** The selection set of production `a -> alpha`. */
  function Prediction(terms: set<string>, fs: SetMap, fw: SetMap, a: string, alpha: Production): (r: set<string>)
    ensures EPSILON !in Get(fw, a) ==> EPSILON !in r
    ensures First(terms, fs, alpha) - {EPSILON} <= r <= First(terms, fs, alpha) + Get(fw, a)
    ensures EPSILON !in First(terms, fs, alpha) ==> r == First(terms, fs, alpha)
  {
    var hd := First(terms, fs, alpha);
    if EPSILON !in hd then hd else (hd - {EPSILON}) + Get(fw, a)
  }

  // ---------------------------------------------------------------------------
  // Lemmas about First
  // ---------------------------------------------------------------------------

  /** First of the empty sequence and of [EPSILON] is {EPSILON}. */
  lemma FirstOfEmpty(terms: set<string>, fs: SetMap)
    ensures First(terms, fs, []) == {EPSILON}
    ensures First(terms, fs, [EPSILON]) == {EPSILON}
  {
  }

  /** A leading EPSILON is skipped. */
  lemma FirstSkipsEpsilon(terms: set<string>, fs: SetMap, rest: seq<string>)
    ensures First(terms, fs, [EPSILON] + rest) == First(terms, fs, rest)
  {
    if rest != [] {
      assert ([EPSILON] + rest)[1..] == rest;
    }
  }

  /** A terminal head other than EOL yields exactly itself; EOL yields EPSILON. */
  lemma FirstOfTerminal(terms: set<string>, fs: SetMap, t: string, rest: seq<string>)
    requires t in terms && t != EPSILON
    ensures First(terms, fs, [t] + rest) == if t == EOL then {EPSILON} else {t}
  {
  }

  /** A non-terminal head contributes its FIRST without EPSILON, and the rest
      is looked at only when it is nullable. */
  lemma FirstOfNonTerminal(terms: set<string>, fs: SetMap, n: string, rest: seq<string>)
    requires n !in terms && n != EPSILON
    ensures First(terms, fs, [n] + rest) ==
      (Get(fs, n) - {EPSILON}) + (if EPSILON in Get(fs, n) then First(terms, fs, rest) else {})
  {
    assert ([n] + rest)[1..] == rest;
  }

  /** EOL never enters a FIRST set once no entry of the map holds it. */
  lemma FirstNoEol(terms: set<string>, fs: SetMap, rule: seq<string>)
    requires EOL !in Flatten(fs)
    ensures EOL !in First(terms, fs, rule)
    ensures Normalize(First(terms, fs, rule)) == First(terms, fs, rule)
  {
  }

  lemma FlattenWithin(m: SetMap, u: set<string>)
    requires Within(m, u)
    ensures Flatten(m) <= u
  {
  }

  /** First is monotone in the FIRST map. */
  lemma {:induction false} FirstMonotone(terms: set<string>, m1: SetMap, m2: SetMap, rule: seq<string>)
    requires Below(m1, m2)
    ensures First(terms, m1, rule) <= First(terms, m2, rule)
    decreases |rule|
  {
    if |rule| == 0 || (|rule| == 1 && rule[0] == EPSILON) {
    } else if |rule| > 1 && rule[0] == EPSILON {
      FirstMonotone(terms, m1, m2, rule[1..]);
    } else if rule[0] in terms {
    } else {
      assert Get(m1, rule[0]) <= Get(m2, rule[0]);
      FirstMonotone(terms, m1, m2, rule[1..]);
    }
  }

  /** First only depends on the map through Get. */
  lemma FirstSameSets(terms: set<string>, m1: SetMap, m2: SetMap, rule: seq<string>)
    requires Below(m1, m2) && Below(m2, m1)
    ensures First(terms, m1, rule) == First(terms, m2, rule)
  {
    FirstMonotone(terms, m1, m2, rule);
    FirstMonotone(terms, m2, m1, rule);
  }

  /** FIRST of a concatenation, as the textbook defines it, as long as no EOL
      terminal stops the walk inside the left part. */
  lemma {:induction false} FirstConcat(terms: set<string>, fs: SetMap, alpha: seq<string>, beta: seq<string>)
    requires EOL !in alpha
    ensures First(terms, fs, alpha + beta) ==
      (First(terms, fs, alpha) - {EPSILON}) + (if EPSILON in First(terms, fs, alpha) then First(terms, fs, beta) else {})
    decreases |alpha|
  {
    if alpha == [] {
      assert alpha + beta == beta;
    } else if alpha == [EPSILON] {
      FirstSkipsEpsilon(terms, fs, beta);
    } else if alpha[0] == EPSILON {
      assert (alpha + beta)[1..] == alpha[1..] + beta;
      FirstConcat(terms, fs, alpha[1..], beta);
    } else if alpha[0] in terms {
    } else {
      assert (alpha + beta)[1..] == alpha[1..] + beta;
      FirstConcat(terms, fs, alpha[1..], beta);
    }
  }

  /** With a FIRST map inside the alphabet, First stays inside the alphabet. */
  lemma FirstWithinAlphabet(g: GrammarView, fs: SetMap, rule: seq<string>)
    requires Within(fs, FirstAlphabet(g))
    ensures First(g.terminals, fs, rule) <= FirstAlphabet(g)
    ensures Normalize(First(g.terminals, fs, rule)) == First(g.terminals, fs, rule)
  {
    FlattenWithin(fs, FirstAlphabet(g));
  }

  // ---------------------------------------------------------------------------
  // The termination measure of both fixed points
  // ---------------------------------------------------------------------------

  /** The pairs (name, symbol) of a finite universe that `m` does not hold yet. */
  ghost function Missing(keys: set<string>, u: set<string>, m: SetMap): set<(string, string)>
  {
    set k, t | k in keys && t in u && t !in Get(m, k) :: (k, t)
  }

  /** Growing a map never adds a missing pair. */
  lemma MissingGrow(keys: set<string>, u: set<string>, m1: SetMap, m2: SetMap)
    requires Below(m1, m2)
    ensures Missing(keys, u, m2) <= Missing(keys, u, m1)
  {
    forall e | e in Missing(keys, u, m2) ensures e in Missing(keys, u, m1) {
      assert Get(m1, e.0) <= Get(m2, e.0);
    }
  }

  /** Inserting into one set a symbol of the universe it lacks removes a missing pair. */
  lemma MissingInsert(keys: set<string>, u: set<string>, m: SetMap, k: string, add: set<string>)
    requires k in keys && add <= u && !(add <= Get(m, k))
    ensures Missing(keys, u, m[k := Get(m, k) + add]) < Missing(keys, u, m)
  {
    var m2 := m[k := Get(m, k) + add];
    assert Below(m, m2);
    MissingGrow(keys, u, m, m2);
    var t :| t in add && t !in Get(m, k);
    assert (k, t) in Missing(keys, u, m);
  }

  /** Two maps with the same keys, the second above the first and inside the
      universe, have fewer missing pairs when they differ. */
  lemma MissingStrict(keys: set<string>, u: set<string>, m1: SetMap, m2: SetMap)
    requires (forall k :: k in m1 <==> k in keys) && (forall k :: k in m2 <==> k in keys) && Within(m2, u)
    requires Below(m1, m2) && m1 != m2
    ensures Missing(keys, u, m2) < Missing(keys, u, m1)
  {
    MissingGrow(keys, u, m1, m2);
    var k :| k in keys && m1[k] != m2[k];
    assert Get(m1, k) <= Get(m2, k);
    var t :| t in m2[k] && t !in m1[k];
    assert (k, t) in Missing(keys, u, m1);
  }

  // ---------------------------------------------------------------------------
  // Lemmas about the fixed points and the prediction set
  // ---------------------------------------------------------------------------

  /** The least FIRST map is unique, so the result of the fixed point does not
      depend on the order in which non-terminals are visited. */
  lemma LeastFirstUnique(g: GrammarView, f1: SetMap, f2: SetMap)
    requires IsLeastFirst(g, f1) && IsLeastFirst(g, f2)
    ensures f1 == f2
  {
    assert Below(f1, f2) && Below(f2, f1);
    forall k | k in f1 ensures f1[k] == f2[k] {
      assert Get(f1, k) <= Get(f2, k) && Get(f2, k) <= Get(f1, k);
    }
  }

  /** The least FOLLOW map is unique up to empty entries. */
  lemma LeastFollowUnique(g: GrammarView, fs: SetMap, w1: SetMap, w2: SetMap, k: string)
    requires IsLeastFollow(g, fs, w1) && IsLeastFollow(g, fs, w2)
    ensures Get(w1, k) == Get(w2, k)
  {
    assert Below(w1, w2) && Below(w2, w1);
    assert Get(w1, k) <= Get(w2, k) && Get(w2, k) <= Get(w1, k);
  }

  /** The prediction set never holds EPSILON; it is First(alpha) when alpha is
      not nullable, and otherwise adds FOLLOW(a). */
  lemma PredictionMeaning(terms: set<string>, fs: SetMap, fw: SetMap, a: string, alpha: Production)
    requires NoEpsilon(fw)
    ensures var r := Prediction(terms, fs, fw, a, alpha);
      var hd := First(terms, fs, alpha);
      && EPSILON !in r
      && hd - {EPSILON} <= r
      && r - Get(fw, a) <= hd
      && (EPSILON !in hd ==> r == hd)
      && (EPSILON in hd ==> Get(fw, a) <= r)
  {
  }
}
