/** The symbol table of a context-free grammar: declared terminals (with their
    recognition pattern) and non-terminals, plus the two sentinel symbols. */
module Symbols {

  /** The empty-string marker. Its concrete spelling lives in a header that is
      not part of this model; the proofs only use that it differs from EOL. */
  const EPSILON: string := "EPSILON"

  /** The end-of-input marker. */
  const EOL: string := "$"

  /** A right-hand side: an ordered sequence of symbol names. */
  type Production = seq<string>

  datatype SymbolKind = Terminal | NonTerminal

  /** What the table remembers about a name: its kind and, for a terminal, its pattern. */
  datatype SymbolInfo = SymbolInfo(kind: SymbolKind, regex: string)

  class SymbolTable {
    /** Every declared name, with the kind and pattern of its FIRST declaration. */
    var st: map<string, SymbolInfo>
    var terminals: set<string>
    var terminalsWthoEol: set<string>
    var nonTerminals: set<string>

    /** Every name in one of the kind sets was declared through PutTerminal or
        PutNonTerminal, so it is a key of `st`. */
    ghost predicate Valid()
      reads this
    {
      && terminalsWthoEol <= terminals
      && terminalsWthoEol <= st.Keys
      && nonTerminals <= st.Keys
    }

    constructor ()
      ensures Valid()
      ensures st == map[] && terminals == {} && terminalsWthoEol == {} && nonTerminals == {}
    {
      st := map[];
      terminals := {};
      terminalsWthoEol := {};
      nonTerminals := {};
    }

    /** Is `s` a declared name (of either kind)? */
    predicate In(s: string)
      reads this
      ensures Valid() && (s in terminalsWthoEol || s in nonTerminals) ==> In(s)
    {
      s in st
    }

    /** Is `s` in the terminal set? */
    predicate IsTerminal(s: string)
      reads this
      ensures Valid() && s in terminalsWthoEol ==> IsTerminal(s)
    {
      s in terminals
    }

    /** Terminal test that, despite its name, leaves out EPSILON (not EOL). */
    predicate IsTerminalWthoEol(s: string)
      reads this
      ensures IsTerminalWthoEol(s) <==> IsTerminal(s) && s != EPSILON
    {
      s != EPSILON && s in terminals
    }

    /** Declares a terminal with its pattern. A map insertion never overwrites,
        so a name declared before keeps its first kind and pattern in `st`,
        but it is added to the terminal sets all the same. */
    method PutTerminal(identifier: string, regex: string)
      requires Valid()
      modifies this
      ensures Valid()
      ensures In(identifier) && IsTerminal(identifier) && IsTerminalWthoEol(identifier) == (identifier != EPSILON)
      ensures st == if identifier in old(st) then old(st) else old(st)[identifier := SymbolInfo(Terminal, regex)]
      ensures terminals == old(terminals) + {identifier}
      ensures terminalsWthoEol == old(terminalsWthoEol) + {identifier}
      ensures nonTerminals == old(nonTerminals)
      ensures forall s :: old(In(s)) ==> In(s)
      ensures forall s :: old(IsTerminal(s)) ==> IsTerminal(s)
    {
      if identifier !in st {
        st := st[identifier := SymbolInfo(Terminal, regex)];
      }
      terminals := terminals + {identifier};
      terminalsWthoEol := terminalsWthoEol + {identifier};
    }

    /** Declares a non-terminal. The terminal sets are left alone; a name
        declared before keeps its first kind and pattern in `st`. */
    method PutNonTerminal(identifier: string)
      requires Valid()
      modifies this
      ensures Valid()
      ensures In(identifier) && identifier in nonTerminals
      ensures st == if identifier in old(st) then old(st) else old(st)[identifier := SymbolInfo(NonTerminal, "")]
      ensures nonTerminals == old(nonTerminals) + {identifier}
      ensures terminals == old(terminals) && terminalsWthoEol == old(terminalsWthoEol)
      ensures forall s :: old(In(s)) ==> In(s)
      ensures forall s :: IsTerminal(s) == old(IsTerminal(s))
    {
      if identifier !in st {
        st := st[identifier := SymbolInfo(NonTerminal, "")];
      }
      nonTerminals := nonTerminals + {identifier};
    }
  }
}
