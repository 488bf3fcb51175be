/** The grammar model: productions keyed by antecedent, the axiom, and the
    maximal-munch tokenizer that turns a raw right-hand side into symbols. */
module Grammars {
  import opened Symbols

  datatype Option<T> = None | Some(value: T)

  /** A read-only copy of what the LL(1) engine needs from a grammar. */
  datatype GrammarView = GrammarView(rules: map<string, seq<Production>>, axiom: string, terminals: set<string>)

  /** The productions of `a`, or none when `a` has no entry (the entry that
      `g_[a]` would create is empty). */
  function Productions(g: map<string, seq<Production>>, a: string): seq<Production>
  {
    if a in g then g[a] else []
  }

  // ---------------------------------------------------------------------------
  // Maximal munch, stated independently of the tokenizer's loops
  // ---------------------------------------------------------------------------

  function Concat(pieces: seq<string>): string
  {
    if pieces == [] then [] else pieces[0] + Concat(pieces[1..])
  }

  /** `w` is a non-empty declared prefix of `r` and no longer prefix of `r` is declared. */
  ghost predicate IsLongestDeclaredPrefix(decl: set<string>, w: string, r: string)
  {
    && 0 < |w| <= |r|
    && w == r[..|w|]
    && w in decl
    && forall m | |w| < m <= |r| :: r[..m] !in decl
  }

  /** No non-empty prefix of `r` is declared. */
  ghost predicate NoDeclaredPrefix(decl: set<string>, r: string)
  {
    forall m | 0 < m <= |r| :: r[..m] !in decl
  }

  /** `pieces` is what a greedy left-to-right walk over `r` takes: each piece is
      the longest declared prefix of what remains when it is taken. */
  ghost predicate GreedyPieces(decl: set<string>, pieces: seq<string>, r: string)
    decreases |pieces|
  {
    pieces == [] ||
    (IsLongestDeclaredPrefix(decl, pieces[0], r) && GreedyPieces(decl, pieces[1..], r[|pieces[0]|..]))
  }

  /** The length of the longest declared prefix of `r` among its first `k`
      non-empty prefixes, or 0 when none is declared. */
  function LongestFrom(decl: set<string>, r: string, k: nat): (n: nat)
    requires k <= |r|
    ensures n <= k
    ensures n > 0 ==> r[..n] in decl
    ensures forall m | n < m <= k :: r[..m] !in decl
    decreases k
  {
    if k == 0 then 0 else if r[..k] in decl then k else LongestFrom(decl, r, k - 1)
  }

  function LongestPrefix(decl: set<string>, r: string): (n: nat)
    ensures n <= |r|
  {
    LongestFrom(decl, r, |r|)
  }

  lemma LongestPrefixMeaning(decl: set<string>, r: string)
    ensures LongestPrefix(decl, r) > 0 ==> IsLongestDeclaredPrefix(decl, r[..LongestPrefix(decl, r)], r)
    ensures LongestPrefix(decl, r) == 0 <==> NoDeclaredPrefix(decl, r)
  {
  }

  function Prepend(pieces: seq<string>, rest: Option<seq<string>>): Option<seq<string>>
  {
    match rest
    case None => None
    case Some(more) => Some(pieces + more)
  }

  lemma PrependAppend(xs: seq<string>, ys: seq<string>, rest: Option<seq<string>>)
    ensures Prepend(xs, Prepend(ys, rest)) == Prepend(xs + ys, rest)
  {
    if rest.Some? {
      assert xs + (ys + rest.value) == (xs + ys) + rest.value;
    }
  }

  /** Greedy tokenization of `s` into declared symbols: take the longest
      declared prefix, continue after it, and fail as soon as nothing declared
      starts where the walk stands. */
  function Munch(decl: set<string>, s: string): Option<seq<string>>
    decreases |s|
  {
    if s == [] then Some([])
    else
      var n := LongestPrefix(decl, s);
      if n == 0 then None else Prepend([s[..n]], Munch(decl, s[n..]))
  }

  /** What `Split` returns: the EPSILON literal alone, the greedy pieces, or the
      empty sequence when the walk gets stuck. */
  function SplitResult(decl: set<string>, s: string): seq<string>
  {
    if s == EPSILON then [EPSILON]
    else match Munch(decl, s)
      case Some(pieces) => pieces
      case None => []
  }

  lemma {:induction false} MunchSound(decl: set<string>, s: string, pieces: seq<string>)
    requires Munch(decl, s) == Some(pieces)
    ensures Concat(pieces) == s
    ensures GreedyPieces(decl, pieces, s)
    ensures forall i | 0 <= i < |pieces| :: pieces[i] in decl && pieces[i] != []
    decreases |s|
  {
    if s != [] {
      var n := LongestPrefix(decl, s);
      LongestPrefixMeaning(decl, s);
      var rest :| Munch(decl, s[n..]) == Some(rest) && pieces == [s[..n]] + rest;
      MunchSound(decl, s[n..], rest);
      assert pieces[1..] == rest;
      assert s == s[..n] + s[n..];
    }
  }

  lemma {:induction false} MunchComplete(decl: set<string>, s: string, pieces: seq<string>)
    requires GreedyPieces(decl, pieces, s) && Concat(pieces) == s
    ensures Munch(decl, s) == Some(pieces)
    decreases |pieces|
  {
    if pieces != [] {
      var w := pieces[0];
      LongestIsUnique(decl, s, w);
      assert s[|w|..] == Concat(pieces[1..]);
      MunchComplete(decl, s[|w|..], pieces[1..]);
      assert pieces == [w] + pieces[1..];
    }
  }

  /** The longest declared prefix is the one LongestPrefix measures. */
  lemma LongestIsUnique(decl: set<string>, r: string, w: string)
    requires IsLongestDeclaredPrefix(decl, w, r)
    ensures LongestPrefix(decl, r) == |w|
  {
  }

  /** The greedy walk has taken `pieces` from the front of `s` and what remains
      is non-empty and starts with no declared symbol. */
  ghost predicate StuckAfter(decl: set<string>, pieces: seq<string>, s: string)
  {
    && GreedyPieces(decl, pieces, s)
    && |Concat(pieces)| < |s| && s[..|Concat(pieces)|] == Concat(pieces)
    && NoDeclaredPrefix(decl, s[|Concat(pieces)|..])
  }

  /** The tokenizer fails when the greedy walk gets stuck ... */
  lemma {:induction false} MunchStuck(decl: set<string>, s: string, pieces: seq<string>)
    requires StuckAfter(decl, pieces, s)
    ensures Munch(decl, s) == None
    decreases |pieces|
  {
    LongestPrefixMeaning(decl, s);
    if pieces != [] {
      var w := pieces[0];
      assert Concat(pieces) == w + Concat(pieces[1..]);
      LongestIsUnique(decl, s, w);
      var t := s[|w|..];
      assert s[..|Concat(pieces)|] == s[..|w|] + t[..|Concat(pieces[1..])|];
      assert t[..|Concat(pieces[1..])|] == Concat(pieces[1..]);
      assert t[|Concat(pieces[1..])|..] == s[|Concat(pieces)|..];
      MunchStuck(decl, t, pieces[1..]);
    }
  }

  /** ... and only then. */
  lemma {:induction false} MunchFailure(decl: set<string>, s: string)
    requires Munch(decl, s) == None
    ensures exists pieces :: StuckAfter(decl, pieces, s)
    decreases |s|
  {
    LongestPrefixMeaning(decl, s);
    var n := LongestPrefix(decl, s);
    if n == 0 {
      assert s[|Concat([])|..] == s;
      assert StuckAfter(decl, [], s);
    } else {
      assert Munch(decl, s[n..]) == None;
      MunchFailure(decl, s[n..]);
      var more :| StuckAfter(decl, more, s[n..]);
      StuckExtend(decl, s, n, more);
    }
  }

  lemma StuckExtend(decl: set<string>, s: string, n: nat, more: seq<string>)
    requires 0 < n <= |s| && IsLongestDeclaredPrefix(decl, s[..n], s)
    requires StuckAfter(decl, more, s[n..])
    ensures StuckAfter(decl, [s[..n]] + more, s)
  {
    var pieces := [s[..n]] + more;
    assert pieces[1..] == more;
    assert Concat(pieces) == s[..n] + Concat(more);
    assert s[..|Concat(pieces)|] == Concat(pieces);
    assert s[|Concat(pieces)|..] == s[n..][|Concat(more)|..];
  }

  // ---------------------------------------------------------------------------
  // Queries on a production list
  // ---------------------------------------------------------------------------

  /** Index of the first production that begins with EPSILON, or |rules| if none
      does (the iterator `find_if` returns). */
  function FindLeadingEpsilon(rules: seq<Production>): (i: nat)
    requires forall k | 0 <= k < |rules| :: rules[k] != []
    ensures i <= |rules|
    ensures i < |rules| ==> rules[i][0] == EPSILON
    ensures forall j | 0 <= j < i :: rules[j][0] != EPSILON
  {
    if rules == [] then 0
    else if rules[0][0] == EPSILON then 0
    else 1 + FindLeadingEpsilon(rules[1..])
  }

  /** Does the production start with its own antecedent? (`at(0)` throws on an
      empty consequent.) */
  function HasLeftRecursion(antecedent: string, consequent: Production): (r: bool)
    requires consequent != []
    ensures r <==> consequent[0] == antecedent
    ensures r ==> antecedent in consequent
  {
    consequent[0] == antecedent
  }

  /** The productions of `ps` that mention `x`, in order, once per production. */
  function Containing(ps: seq<Production>, x: string): seq<Production>
  {
    if ps == [] then []
    else Containing(ps[..|ps| - 1], x) + (if x in ps[|ps| - 1] then [ps[|ps| - 1]] else [])
  }

  /** The productions paired with antecedent `a` in `pairs`, in order. */
  function Project(pairs: seq<(string, Production)>, a: string): seq<Production>
  {
    if pairs == [] then []
    else Project(pairs[..|pairs| - 1], a) + (if pairs[|pairs| - 1].0 == a then [pairs[|pairs| - 1].1] else [])
  }

  /** What the filter has collected for `b` while the antecedents in `todo` are still to be processed. */
  ghost function Filtered(g: map<string, seq<Production>>, todo: set<string>, x: string, b: string): seq<Production>
  {
    if b in g && b !in todo then Containing(g[b], x) else []
  }

  /** Every pair names an antecedent of `g`, one of its productions, and that production mentions `x`. */
  ghost predicate PairsFrom(g: map<string, seq<Production>>, x: string, pairs: seq<(string, Production)>)
  {
    forall k | 0 <= k < |pairs| :: pairs[k].0 in g && pairs[k].1 in g[pairs[k].0] && x in pairs[k].1
  }

  lemma ProjectAppend(pairs: seq<(string, Production)>, e: (string, Production), a: string)
    ensures Project(pairs + [e], a) == Project(pairs, a) + (if e.0 == a then [e.1] else [])
  {
    assert (pairs + [e])[..|pairs|] == pairs;
  }

  lemma ContainingPrefix(ps: seq<Production>, j: nat, x: string)
    requires j < |ps|
    ensures Containing(ps[..j + 1], x) == Containing(ps[..j], x) + (if x in ps[j] then [ps[j]] else [])
  {
    assert ps[..j + 1][..j] == ps[..j];
  }

  /** The inner loop of the filter: the productions of `a` that mention `x`
      are appended, in order, each paired with `a`. */
  method AppendContaining(rules0: seq<(string, Production)>, a: string, prods: seq<Production>, x: string)
    returns (rules: seq<(string, Production)>)
    ensures forall b :: Project(rules, b) == Project(rules0, b) + (if b == a then Containing(prods, x) else [])
    ensures |rules0| <= |rules| && forall k | 0 <= k < |rules0| :: rules[k] == rules0[k]
    ensures forall k | |rules0| <= k < |rules| :: rules[k].0 == a && rules[k].1 in prods && x in rules[k].1
  {
    rules := rules0;
    var j := 0;
    while j < |prods|
      invariant 0 <= j <= |prods|
      invariant forall b :: Project(rules, b) == Project(rules0, b) + (if b == a then Containing(prods[..j], x) else [])
      invariant |rules0| <= |rules| && forall k | 0 <= k < |rules0| :: rules[k] == rules0[k]
      invariant forall k | |rules0| <= k < |rules| :: rules[k].0 == a && rules[k].1 in prods && x in rules[k].1
    {
      ContainingPrefix(prods, j, x);
      if x in prods[j] {
        forall b ensures Project(rules + [(a, prods[j])], b) == Project(rules, b) + (if b == a then [prods[j]] else []) {
          ProjectAppend(rules, (a, prods[j]), b);
        }
        rules := rules + [(a, prods[j])];
      }
      j := j + 1;
    }
    assert prods[..j] == prods;
  }

  /** One antecedent of the filter's outer loop has been processed. */
  lemma FilterStep(g: map<string, seq<Production>>, todo: set<string>, x: string, a: string,
                   before: seq<(string, Production)>, after: seq<(string, Production)>)
    requires a in todo && a in g
    requires forall b :: Project(before, b) == Filtered(g, todo, x, b)
    requires PairsFrom(g, x, before)
    requires forall b :: Project(after, b) == Project(before, b) + (if b == a then Containing(g[a], x) else [])
    requires |before| <= |after| && forall k | 0 <= k < |before| :: after[k] == before[k]
    requires forall k | |before| <= k < |after| :: after[k].0 == a && after[k].1 in g[a] && x in after[k].1
    ensures forall b :: Project(after, b) == Filtered(g, todo - {a}, x, b)
    ensures PairsFrom(g, x, after)
  {
    forall k | 0 <= k < |after|
      ensures after[k].0 in g && after[k].1 in g[after[k].0] && x in after[k].1
    {
      if k < |before| {
        assert after[k] == before[k];
      }
    }
    forall b ensures Project(after, b) == Filtered(g, todo - {a}, x, b) {
      var old_ := Project(before, b);
      assert old_ == Filtered(g, todo, x, b);
      if b == a {
        assert old_ == [];
        assert Project(after, b) == old_ + Containing(g[a], x);
      } else {
        assert (b in todo - {a}) == (b in todo);
        assert Project(after, b) == old_ + [];
      }
    }
  }

  class Grammar {
    /** The grammar's own symbol table. */
    const st: SymbolTable
    /** Productions keyed by antecedent, in insertion order per antecedent. */
    var g: map<string, seq<Production>>
    var axiom: string

    constructor ()
      ensures fresh(st) && st.Valid()
      ensures st.st == map[] && st.terminals == {} && st.nonTerminals == {}
      ensures g == map[] && axiom == ""
    {
      st := new SymbolTable();
      g := map[];
      axiom := "";
    }

    /** The copy of the grammar the LL(1) engine is built from. */
    function View(): GrammarView
      reads this, st
    {
      GrammarView(g, axiom, st.terminals)
    }

    /** Splits a raw right-hand side into declared symbols by maximal munch. */
    method Split(s: string) returns (r: seq<string>)
      ensures r == SplitResult(st.st.Keys, s)
    {
      if s == EPSILON {
        return [EPSILON];
      }
      ghost var decl := st.st.Keys;
      var splitted: seq<string> := [];
      var start, end := 0, 1;
      MunchFrom(decl, s);
      while end <= |s|
        invariant start < end <= |s| + 1
        invariant start <= |s|
        invariant Munch(decl, s) == Prepend(splitted, Munch(decl, s[start..]))
        invariant NoPieceBetween(decl, s, start, start, end)
        decreases |s| - start, |s| + 1 - end
      {
        if st.In(s[start..end]) {
          end := Lookahead(s, start, end);
          MunchTake(decl, s, start, end);
          PrependAppend(splitted, [s[start..end]], Munch(decl, s[end..]));
          splitted := splitted + [s[start..end]];
          start := end;
          end := start + 1;
        } else {
          end := end + 1;
        }
      }
      if start < end - 1 {
        MunchStuckAt(decl, s, start);
        return [];
      }
      assert s[start..] == [];
      return splitted;
    }

    /** The inner loop of Split: the end of the longest declared piece that
        starts at `start`, given that `s[start..end]` is declared. */
    method Lookahead(s: string, start: nat, end: nat) returns (e: nat)
      requires start < end <= |s| && s[start..end] in st.st
      ensures end <= e <= |s| && s[start..e] in st.st
      ensures NoPieceBetween(st.st.Keys, s, start, e, |s| + 1)
    {
      e := end;
      var lookahead := end + 1;
      while lookahead <= |s|
        invariant e < lookahead <= |s| + 1
        invariant end <= e && s[start..e] in st.st
        invariant NoPieceBetween(st.st.Keys, s, start, e, lookahead)
      {
        if st.In(s[start..lookahead]) {
          e := lookahead;
        }
        lookahead := lookahead + 1;
      }
    }

    /** Tokenizes `consequent` and, when that yields symbols, appends them as a
        new production of `antecedent`. */
    method AddRule(antecedent: string, consequent: string) returns (ok: bool)
      modifies this
      ensures var pieces := SplitResult(st.st.Keys, consequent);
        && (ok <==> pieces != [])
        && g == (if ok then old(g)[antecedent := Productions(old(g), antecedent) + [pieces]] else old(g))
      ensures axiom == old(axiom)
    {
      var pieces := Split(consequent);
      if pieces == [] {
        return false;
      }
      g := g[antecedent := Productions(g, antecedent) + [pieces]];
      return true;
    }

    method SetAxiom(a: string)
      modifies this
      ensures axiom == a && g == old(g)
    {
      axiom := a;
    }

    /** Does some production of `antecedent` begin with EPSILON? `at` throws
        when `antecedent` has no entry, and a production is never empty here
        because its first symbol is read unchecked. */
    function HasEmptyProduction(antecedent: string): (r: bool)
      reads this
      requires antecedent in g
      requires forall k | 0 <= k < |g[antecedent]| :: g[antecedent][k] != []
      ensures r <==> exists p :: p in g[antecedent] && p[0] == EPSILON
    {
      FindLeadingEpsilon(g[antecedent]) != |g[antecedent]|
    }

    /** Every (antecedent, production) pair whose production mentions `arg`. */
    method FilterRulesByConsequent(arg: string) returns (rules: seq<(string, Production)>)
      ensures forall a :: Project(rules, a) == Containing(Productions(g, a), arg)
      ensures forall k | 0 <= k < |rules| :: rules[k].0 in g && rules[k].1 in g[rules[k].0] && arg in rules[k].1
    {
      rules := [];
      var todo := g.Keys;
      while todo != {}
        invariant todo <= g.Keys
        invariant forall a :: Project(rules, a) == Filtered(g, todo, arg, a)
        invariant PairsFrom(g, arg, rules)
        decreases todo
      {
        var a :| a in todo;
        ghost var before := rules;
        rules := AppendContaining(rules, a, g[a], arg);
        FilterStep(g, todo, arg, a, before, rules);
        todo := todo - {a};
      }
    }

    /** Appends `consequent` to the productions of `antecedent` as given. */
    method AddProduction(antecedent: string, consequent: Production)
      modifies this
      ensures g == old(g)[antecedent := Productions(old(g), antecedent) + [consequent]]
      ensures axiom == old(axiom)
    {
      g := g[antecedent := Productions(g, antecedent) + [consequent]];
    }
  }

  /** No piece `s[start..m]` with `lo < m < hi` is declared. */
  ghost predicate NoPieceBetween(decl: set<string>, s: string, start: int, lo: int, hi: int)
  {
    forall m | lo < m < hi && 0 <= start <= m <= |s| :: s[start..m] !in decl
  }

  /** The munch of `s` is the munch of `s` with nothing taken yet. */
  lemma MunchFrom(decl: set<string>, s: string)
    ensures Munch(decl, s) == Prepend([], Munch(decl, s[0..]))
  {
    assert s[0..] == s;
    if Munch(decl, s).Some? {
      assert [] + Munch(decl, s).value == Munch(decl, s).value;
    }
  }

  /** When `s[start..e]` is the longest declared piece at `start`, the munch
      from `start` takes it and continues at `e`. */
  lemma MunchTake(decl: set<string>, s: string, start: int, e: int)
    requires 0 <= start < e <= |s| && s[start..e] in decl
    requires NoPieceBetween(decl, s, start, e, |s| + 1)
    ensures Munch(decl, s[start..]) == Prepend([s[start..e]], Munch(decl, s[e..]))
  {
    var r := s[start..];
    var n := e - start;
    assert r[..n] == s[start..e];
    forall m | n < m <= |r| ensures r[..m] !in decl {
      assert r[..m] == s[start..start + m];
    }
    assert LongestPrefix(decl, r) == n;
    assert r[n..] == s[e..];
  }

  /** When no declared piece starts at `start`, the munch from there fails. */
  lemma MunchStuckAt(decl: set<string>, s: string, start: int)
    requires 0 <= start < |s|
    requires NoPieceBetween(decl, s, start, start, |s| + 1)
    ensures Munch(decl, s[start..]) == None
  {
    var r := s[start..];
    forall m | 0 < m <= |r| ensures r[..m] !in decl {
      assert r[..m] == s[start..start + m];
    }
    LongestPrefixMeaning(decl, r);
  }
}
