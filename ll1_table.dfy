/** The LL(1) table of one non-terminal: the column that maps each lookahead
    symbol to the productions predicted for it, and when that column is free
    of conflicts. */
module LL1Table {
  import opened Symbols
  import opened FirstFollow

  /** The productions among `ps` whose selection set holds `t`, in order. */
  function Cell(ps: seq<Production>, preds: seq<set<string>>, t: string): seq<Production>
    requires |ps| == |preds|
    decreases |ps|
  {
    if ps == [] then []
    else
      var n := |ps| - 1;
      Cell(ps[..n], preds[..n], t) + (if t in preds[n] then [ps[n]] else [])
  }

  function Union(preds: seq<set<string>>): set<string>
    decreases |preds|
  {
    if preds == [] then {} else Union(preds[..|preds| - 1]) + preds[|preds| - 1]
  }

  /** The column of a non-terminal: one cell per symbol of some selection set. */
  function Column(ps: seq<Production>, preds: seq<set<string>>): map<string, seq<Production>>
    requires |ps| == |preds|
  {
    map t | t in Union(preds) :: Cell(ps, preds, t)
  }

  /** No cell of the column holds more than one production. */
  ghost predicate SingleCells(ps: seq<Production>, preds: seq<set<string>>)
    requires |ps| == |preds|
  {
    forall t :: |Cell(ps, preds, t)| <= 1
  }

  ghost predicate PairwiseDisjoint(preds: seq<set<string>>)
  {
    forall i, j | 0 <= i < j < |preds| :: preds[i] !! preds[j]
  }

  /** The selection sets of the productions of `a`, in order. */
  function Predictions(terms: set<string>, fs: SetMap, fw: SetMap, a: string, ps: seq<Production>): (r: seq<set<string>>)
    ensures |r| == |ps|
    ensures forall j | 0 <= j < |ps| :: r[j] == Prediction(terms, fs, fw, a, ps[j])
  {
    seq(|ps|, j requires 0 <= j < |ps| => Prediction(terms, fs, fw, a, ps[j]))
  }

  // ---------------------------------------------------------------------------
  // Lemmas
  // ---------------------------------------------------------------------------

  lemma {:induction false} UnionMembership(preds: seq<set<string>>, t: string)
    ensures t in Union(preds) <==> exists j :: 0 <= j < |preds| && t in preds[j]
    decreases |preds|
  {
    if preds != [] {
      var n := |preds| - 1;
      UnionMembership(preds[..n], t);
      if t in Union(preds[..n]) {
        var j :| 0 <= j < n && t in preds[..n][j];
        assert t in preds[j];
      }
      if exists j :: 0 <= j < |preds| && t in preds[j] {
        var j :| 0 <= j < |preds| && t in preds[j];
        if j < n {
          assert t in preds[..n][j];
        }
      }
    }
  }

  /** A cell is empty exactly when the symbol is in no selection set. */
  lemma {:induction false} CellEmpty(ps: seq<Production>, preds: seq<set<string>>, t: string)
    requires |ps| == |preds|
    ensures Cell(ps, preds, t) == [] <==> forall j | 0 <= j < |preds| :: t !in preds[j]
    decreases |ps|
  {
    if ps != [] {
      var n := |ps| - 1;
      CellEmpty(ps[..n], preds[..n], t);
      assert forall j | 0 <= j < n :: preds[..n][j] == preds[j];
    }
  }

  /** Every production of a cell is one of the productions whose selection set
      holds the symbol. */
  lemma {:induction false} CellMembers(ps: seq<Production>, preds: seq<set<string>>, t: string)
    requires |ps| == |preds|
    ensures forall q | q in Cell(ps, preds, t) :: exists j :: 0 <= j < |ps| && ps[j] == q && t in preds[j]
    ensures forall j | 0 <= j < |ps| && t in preds[j] :: ps[j] in Cell(ps, preds, t)
    decreases |ps|
  {
    if ps != [] {
      var n := |ps| - 1;
      CellMembers(ps[..n], preds[..n], t);
      forall q | q in Cell(ps, preds, t) ensures exists j :: 0 <= j < |ps| && ps[j] == q && t in preds[j] {
        if q in Cell(ps[..n], preds[..n], t) {
          var j :| 0 <= j < n && ps[..n][j] == q && t in preds[..n][j];
          assert ps[j] == q && t in preds[j];
        } else {
          assert ps[n] == q && t in preds[n];
        }
      }
      forall j | 0 <= j < |ps| && t in preds[j] ensures ps[j] in Cell(ps, preds, t) {
        if j < n {
          assert ps[..n][j] == ps[j] && preds[..n][j] == preds[j];
        }
      }
    }
  }

  /** A column stays free of conflicts when one more production is appended
      exactly when the new selection set hits only empty cells. */
  lemma SingleCellsStep(ps: seq<Production>, preds: seq<set<string>>)
    requires |ps| == |preds| && ps != []
    ensures var n := |ps| - 1;
      SingleCells(ps, preds) <==>
        SingleCells(ps[..n], preds[..n]) && forall t | t in preds[n] :: Cell(ps[..n], preds[..n], t) == []
  {
    var n := |ps| - 1;
    if SingleCells(ps, preds) {
      forall t ensures |Cell(ps[..n], preds[..n], t)| <= 1 {
        assert |Cell(ps, preds, t)| <= 1;
      }
      forall t | t in preds[n] ensures Cell(ps[..n], preds[..n], t) == [] {
        assert |Cell(ps, preds, t)| <= 1;
      }
    }
    if SingleCells(ps[..n], preds[..n]) && forall t | t in preds[n] :: Cell(ps[..n], preds[..n], t) == [] {
      forall t ensures |Cell(ps, preds, t)| <= 1 {
        assert |Cell(ps[..n], preds[..n], t)| <= 1;
      }
    }
  }

  /** The column of a non-terminal is conflict-free exactly when the selection
      sets of its productions are pairwise disjoint. */
  lemma {:induction false} SingleCellsIffDisjoint(ps: seq<Production>, preds: seq<set<string>>)
    requires |ps| == |preds|
    ensures SingleCells(ps, preds) <==> PairwiseDisjoint(preds)
    decreases |ps|
  {
    if ps == [] {
      assert forall t :: Cell(ps, preds, t) == [];
    } else {
      var n := |ps| - 1;
      SingleCellsIffDisjoint(ps[..n], preds[..n]);
      SingleCellsStep(ps, preds);
      assert forall i | 0 <= i < n :: preds[..n][i] == preds[i];
      var lastFree := forall t | t in preds[n] :: Cell(ps[..n], preds[..n], t) == [];
      var lastDisjoint := forall i | 0 <= i < n :: preds[i] !! preds[n];
      assert lastFree <==> lastDisjoint by {
        forall t | t in preds[n] {
          CellEmpty(ps[..n], preds[..n], t);
        }
      }
      assert PairwiseDisjoint(preds) <==> PairwiseDisjoint(preds[..n]) && lastDisjoint;
    }
  }

  /** A symbol has a cell in the column exactly when it is in some selection
      set, and then the cell is not empty. */
  lemma ColumnKeys(ps: seq<Production>, preds: seq<set<string>>, t: string)
    requires |ps| == |preds|
    ensures t in Column(ps, preds) <==> exists j :: 0 <= j < |preds| && t in preds[j]
    ensures t in Column(ps, preds) ==> Column(ps, preds)[t] != []
    ensures t !in Column(ps, preds) ==> Cell(ps, preds, t) == []
  {
    UnionMembership(preds, t);
    CellEmpty(ps, preds, t);
  }

  /** `c` is the column of `ps`, stated symbol by symbol. */
  ghost predicate ColumnIs(c: map<string, seq<Production>>, ps: seq<Production>, preds: seq<set<string>>)
    requires |ps| == |preds|
  {
    && (forall t :: t in c <==> t in Union(preds))
    && (forall t | t in c :: c[t] == Cell(ps, preds, t))
  }

  lemma ColumnIsColumn(c: map<string, seq<Production>>, ps: seq<Production>, preds: seq<set<string>>)
    requires |ps| == |preds|
    ensures ColumnIs(c, ps, preds) <==> c == Column(ps, preds)
  {
  }

  /** Appending one production to a column pushes it into the cell of every
      symbol of its selection set. */
  lemma ColumnStep(ps: seq<Production>, preds: seq<set<string>>, prev: map<string, seq<Production>>, c: map<string, seq<Production>>)
    requires |ps| == |preds| && ps != []
    requires var n := |ps| - 1;
      && ColumnIs(prev, ps[..n], preds[..n])
      && (forall t :: t in c <==> t in prev || t in preds[n])
      && forall t | t in c :: c[t] == (if t in prev then prev[t] else []) + (if t in preds[n] then [ps[n]] else [])
    ensures ColumnIs(c, ps, preds)
  {
    var n := |ps| - 1;
    forall t | t in c ensures c[t] == Cell(ps, preds, t) {
      if t !in prev {
        UnionMembership(preds[..n], t);
        CellEmpty(ps[..n], preds[..n], t);
      }
    }
  }
}
