# PLShell grammar engine, modelled in Dafny

PLShell is a teaching shell for context-free grammars. Its core is modelled here:

- The **symbol table** records the declared terminals and non-terminals.
- The **grammar** holds productions keyed by antecedent, plus an axiom. A maximal-munch tokenizer (`Split`) cuts a raw right-hand side into declared symbols.
- The **LL(1) engine** computes the FIRST and FOLLOW sets as least fixed points, the prediction (selection) set of each production, and the LL(1) table, and reports whether the table has a conflict.
- The **LR(0) item** and the **LR(0) state** come with state equality and the XOR-fold state hash.

Files:

| file | module | models |
|---|---|---|
| `symbols.dfy` | `Symbols` | `SymbolTable`, the EPSILON and EOL markers |
| `grammar.dfy` | `Grammars` | `Grammar` and a specification of maximal munch |
| `first_follow.dfy` | `FirstFollow` | `First` as a pure function, closure and leastness of the FIRST and FOLLOW maps, selection sets |
| `ll1_table.dfy` | `LL1Table` | cells and columns of the table, and "no conflict iff pairwise disjoint selection sets" |
| `ll1_parser.dfy` | `LL1` | `LL1Parser` with its two fixed-point loops and the table construction |
| `lr0.dfy` | `Lr0` | `Lr0Item`, `state`, and the state hash |

How the model works:

- **Classes.** Code that updates objects in place is modelled as classes: `SymbolTable`, `Grammar`, `LL1Parser` and `Lr0Item`. Their methods carry `modifies` clauses.
- **Loops.** Each loop that updates the symbol table, the grammar or the parser is a method with its own loop invariants. Each such method is proved against a specification function:
  - `Split` against `Munch`;
  - a FIRST pass against the closure predicate `FirstClosed`;
  - a FOLLOW pass against `FollowClosed`;
  - the table loop against `Column`.
- **Loops as expressions.** Loops that only compute a value are expressions or recursive functions:
  - the loop over `fii` in `First` is a set difference;
  - the two inserts into a FOLLOW set in `ComputeFollowSets` are set unions inside `FollowAt`;
  - the `find_if` in `HasEmptyProduction` is the recursive `FindLeadingEpsilon`;
  - the `std::accumulate` of the state hash is the recursive `Accumulate`.
- **Fixed points.** Both fixed-point computations are proved to terminate, measured by the (name, symbol) pairs not yet in the map. They are proved to return the *least* closed map. So the result is the same whatever order the hash maps are walked in (`LeastFirstUnique`, `LeastFollowUnique`).
- **Conflicts.** The table has no conflict exactly when, for every non-terminal, the selection sets of its productions are pairwise disjoint (`SingleCellsIffDisjoint`).
- **Maps.** A map of sets is read through `Get`, which returns the empty set for a missing key. This is what `operator[]` on `first_sets_` and `follow_sets_` yields.

## Model

| member | source | states |
|---|---|---|
| Symbols.SymbolTable.PutTerminal | src/parser/symbol_table.cpp:6-11 | The name becomes known and terminal, and is added to both terminal sets. The table entry keeps its first declaration, because `insert` never overwrites. The non-terminal set is unchanged. Known names stay known and the table invariant is kept. |
| Symbols.SymbolTable.PutNonTerminal | src/parser/symbol_table.cpp:13-16 | The name becomes known and is added to the non-terminal set. The table entry keeps its first declaration. The terminal sets are unchanged. |
| Symbols.SymbolTable.In | src/parser/symbol_table.cpp:18-20 | Every name in a kind set is known. |
| Symbols.SymbolTable.IsTerminal | src/parser/symbol_table.cpp:22-24 | Every name in the set without EOL is a terminal. |
| Symbols.SymbolTable.IsTerminalWthoEol | src/parser/symbol_table.cpp:26-28 | True iff the name is a terminal other than EPSILON. |
| Grammars.Grammar.Split | src/parser/grammar.cpp:81-115 | The result is `[EPSILON]` for the EPSILON literal. Otherwise it is the greedy longest-declared-prefix tokenization, or `[]` when the walk gets stuck. |
| Grammars.Grammar.Lookahead | src/parser/grammar.cpp:93-100 | Returns the end of the longest declared piece that starts at `start`. No longer piece is declared. |
| Grammars.LongestPrefixMeaning | src/parser/grammar.cpp:89-107 | The measured prefix is declared and no longer prefix is declared. It is 0 iff no prefix is declared. |
| Grammars.LongestIsUnique | src/parser/grammar.cpp:93-100 | A longest declared prefix is the one the walk measures. |
| Grammars.MunchSound | src/parser/grammar.cpp:81-115 | A successful split concatenates back to the input. Each piece is declared, non-empty and the longest possible at its place. |
| Grammars.MunchComplete | src/parser/grammar.cpp:81-115 | Any greedy decomposition of the input is what the tokenizer returns. |
| Grammars.MunchStuck | src/parser/grammar.cpp:109-112 | When the greedy walk reaches a non-empty rest with no declared prefix, the split fails. |
| Grammars.MunchFailure | src/parser/grammar.cpp:109-112 | A failed split always has such a stuck point. |
| Grammars.StuckExtend | src/parser/grammar.cpp:101-103 | Taking the longest piece first keeps a stuck point stuck. |
| Grammars.Grammar.AddRule | src/parser/grammar.cpp:117-123 | Returns true iff `Split` yields symbols. Then the symbols are appended to the antecedent's productions. Otherwise the grammar is unchanged. |
| Grammars.Grammar.SetAxiom | src/parser/grammar.cpp:125-127 | The axiom is replaced and the productions are untouched. |
| Grammars.FindLeadingEpsilon | src/parser/grammar.cpp:131-133 | Returns the index of the first production that starts with EPSILON, or the length when there is none. |
| Grammars.Grammar.HasEmptyProduction | src/parser/grammar.cpp:129-134 | True iff some production of the antecedent starts with EPSILON. |
| Grammars.AppendContaining | src/parser/grammar.cpp:140-144 | Appends, in order, exactly the productions of one antecedent that mention the symbol. Earlier pairs are kept. |
| Grammars.Grammar.FilterRulesByConsequent | src/parser/grammar.cpp:136-147 | For every antecedent, the pairs returned are its productions that mention `arg`, in order. Every pair is a real production that mentions `arg`. |
| Grammars.HasLeftRecursion | src/parser/grammar.cpp:188-191 | True iff the consequent starts with the antecedent. |
| Grammars.Grammar.AddProduction | src/parser/grammar.cpp:193-196 | The consequent is appended to the antecedent's productions, creating the entry if needed. |
| FirstFollow.First | src/parser/ll1_parser.cpp:46-82 | FIRST holds only EPSILON, terminals other than EOL, and symbols already in the FIRST map. |
| FirstFollow.FirstOfEmpty | src/parser/ll1_parser.cpp:48-51 | FIRST of the empty sequence and of `[EPSILON]` is `{EPSILON}`. |
| FirstFollow.FirstSkipsEpsilon | src/parser/ll1_parser.cpp:53-55 | A leading EPSILON is skipped. |
| FirstFollow.FirstOfTerminal | src/parser/ll1_parser.cpp:58-67 | A terminal head yields itself, and EOL yields EPSILON. |
| FirstFollow.FirstOfNonTerminal | src/parser/ll1_parser.cpp:69-80 | A non-terminal head yields its FIRST without EPSILON. It adds FIRST of the rest only when its FIRST holds EPSILON. |
| FirstFollow.FirstNoEol | src/parser/ll1_parser.cpp:58-64 | EOL never appears in a FIRST set. |
| FirstFollow.FirstMonotone | src/parser/ll1_parser.cpp:69-80 | FIRST grows with the FIRST map. |
| FirstFollow.FirstSameSets | src/parser/ll1_parser.cpp:69 | FIRST depends on the map only through the sets it holds. |
| FirstFollow.FirstConcat | src/parser/ll1_parser.cpp:46-82 | FIRST of a concatenation follows the textbook law when the first part has no EOL. |
| FirstFollow.FirstWithinAlphabet | src/parser/ll1_parser.cpp:58-74 | With FIRST sets inside {EPSILON} + terminals, FIRST stays inside them. |
| FirstFollow.Normalize | src/parser/ll1_parser.cpp:100-103 | The result never holds EOL. When the set held EOL, the result holds EPSILON and otherwise only the set's other members; a set without EOL is unchanged. |
| FirstFollow.LeastFirstUnique | src/parser/ll1_parser.cpp:85-114 | The least closed FIRST map is unique. |
| FirstFollow.LeastFollowUnique | src/parser/ll1_parser.cpp:116-167 | The least closed FOLLOW map is unique, up to empty entries. |
| FirstFollow.PredictionMeaning | src/parser/ll1_parser.cpp:176-187 | The selection set never holds EPSILON. It is FIRST of the production when that is not nullable, and otherwise FIRST without EPSILON plus FOLLOW of the antecedent. |
| FirstFollow.Prediction | src/parser/ll1_parser.cpp:176-187 | The selection set lies between FIRST of the production without EPSILON and FIRST plus FOLLOW of the antecedent. It is exactly FIRST when the production is not nullable, and it holds no EPSILON when that FOLLOW set holds none. |
| LL1.FirstRule | src/parser/ll1_parser.cpp:96-107 | After the loop, every production's normalized FIRST is in its antecedent's set. It keeps the sets growing, inside the alphabet, and below every closed map. |
| LL1.FirstPassClosed | src/parser/ll1_parser.cpp:110-113 | A pass that changes nothing leaves a closed FIRST map. |
| LL1.FirstPass | src/parser/ll1_parser.cpp:92-108 | One pass keeps the map growing, inside the alphabet and below every closed map. If nothing changed, the map is closed. |
| LL1.LL1Parser.ComputeFirstSets | src/parser/ll1_parser.cpp:85-114 | The result is the least closed FIRST map, with one entry per non-terminal. |
| LL1.FollowAt | src/parser/ll1_parser.cpp:130-161 | FOLLOW of the symbol gains FIRST of the rest without EPSILON, and FOLLOW of the antecedent when the rest is nullable. `changed` is true iff something new was added. |
| LL1.FollowProduction | src/parser/ll1_parser.cpp:128-163 | Every non-terminal occurrence of the production meets the FOLLOW conditions. |
| LL1.FollowPass | src/parser/ll1_parser.cpp:124-165 | A pass grows the map within the universe, below every closed map. `changed` is false only if nothing grew, and then the map is closed. A changing pass strictly shrinks the missing pairs. |
| LL1.LL1Parser.ComputeFollowSets | src/parser/ll1_parser.cpp:116-167 | The result is the least closed FOLLOW map. It holds EOL for the axiom and no EPSILON. |
| LL1.LL1Parser.Follow | src/parser/ll1_parser.cpp:169-174 | A name with no entry gives the empty set. A computed set has no EPSILON, holds EOL for the axiom, and is below every closed map. |
| LL1.LL1Parser.PredictionSymbols | src/parser/ll1_parser.cpp:176-187 | Returns FIRST when it is not nullable, and otherwise FIRST without EPSILON plus `Follow(antecedent)`. It holds only terminals and EOL, never EPSILON. |
| LL1Table.Predictions | src/parser/ll1_parser.cpp:29-31 | One selection set per production, in order. |
| LL1Table.CellEmpty | src/parser/ll1_parser.cpp:33-39 | A cell is empty iff its symbol is in no selection set. |
| LL1Table.CellMembers | src/parser/ll1_parser.cpp:33-39 | A cell holds exactly the productions whose selection set contains its symbol. |
| LL1Table.ColumnKeys | src/parser/ll1_parser.cpp:28-40 | A symbol has a cell iff some selection set holds it, and then the cell is not empty. |
| LL1Table.SingleCellsIffDisjoint | src/parser/ll1_parser.cpp:26-40 | No cell holds two productions iff the selection sets are pairwise disjoint. |
| LL1.PushProduction | src/parser/ll1_parser.cpp:33-39 | The production is appended to the cell of every selection symbol, and cells are created on demand. `hit` is true iff one of those cells was already occupied. |
| LL1.BuildColumn | src/parser/ll1_parser.cpp:28-40 | The column is the specified column of the non-terminal. A conflict is reported iff some cell holds more than one production. |
| LL1.FillTable | src/parser/ll1_parser.cpp:24-43 | Every non-terminal gets its specified row, and an existing row is not overwritten. The result is true iff every row is conflict-free. |
| LL1.LL1Parser.FillRows | src/parser/ll1_parser.cpp:24-43 | Same contract on the parser's fields; FIRST and FOLLOW are untouched. |
| LL1.LL1Parser.CreateLL1Table | src/parser/ll1_parser.cpp:19-44 | Every non-terminal's row is its specified column. The result is true iff, for every non-terminal, the selection sets of its productions are pairwise disjoint. |
| LL1.LL1Parser.constructor | src/parser/ll1_parser.cpp:14-17 | Copies the grammar and leaves the least FIRST and FOLLOW maps computed. |
| Lr0.Item.NextToDot | include/lr0_item.hpp:52-58 | Returns the symbol after the dot, or "" when the dot is at the end. |
| Lr0.Item.Advanced | include/lr0_item.hpp:72-75 | The dot moves one place on and the other fields are unchanged. |
| Lr0.Lr0Item.Value | include/lr0_item.hpp:21-27 | The value snapshot carries the five fields. |
| Lr0.Lr0Item.constructor | include/lr0_item.hpp:29-38 | The dot starts at 0. |
| Lr0.Lr0Item.WithDot | include/lr0_item.hpp:40-50 | The dot starts at the given position. |
| Lr0.Lr0Item.NextToDot | include/lr0_item.hpp:52-58 | Returns `consequent[dot]`, or "" when the dot is at the end. |
| Lr0.Lr0Item.IsComplete | include/lr0_item.hpp:77-84 | True iff the dot equals the length of the consequent. |
| Lr0.Item.IsComplete | include/lr0_item.hpp:77-84 | A complete item has no symbol after its dot. |
| Lr0.Lr0Item.AdvanceDot | include/lr0_item.hpp:72-75 | The dot grows by exactly one, in place, and nothing else changes. |
| Lr0.Lr0Item.Equals | include/lr0_item.hpp:86-95 | True iff antecedent, consequent and dot agree. |
| Lr0.Item.Equals | include/lr0_item.hpp:86-95 | Equal items have the same key, so the same symbol after the dot and the same completeness. |
| Lr0.EqualsIsKeyEquality | include/lr0_item.hpp:86-95 | Item equality is key equality. It is reflexive and symmetric and ignores the epsilon and EOL spellings. |
| Lr0.AdvancePassesNext | include/lr0_item.hpp:52-75 | Advancing an incomplete item passes over exactly its next symbol and stays in range. |
| Lr0.AdvanceBy | include/lr0_item.hpp:72-75 | After k advances, the dot has moved by k and nothing else has changed. |
| Lr0.AdvanceToEnd | include/lr0_item.hpp:72-84 | Advancing as many times as there are symbols left completes the item. |
| Lr0.StateEqualsIffSameKeys | include/state.hpp:22-31 | Two states are equal iff they hold the same item keys. |
| Lr0.StateEqualsIgnoresId | include/state.hpp:22-31 | The id plays no part in state equality. |
| Lr0.StateEquals | include/state.hpp:22-31 | States with the same items are equal whatever their ids. |
| Lr0.Xor | include/state.hpp:57 | The XOR of two `size_t` values acts on each 32-bit half. |
| Lr0.SignExtend | include/state.hpp:54-59 | Widening an `int` keeps its low half; the high half is all zeros for a non-negative value and all ones for a negative one. |
| Lr0.Step | include/state.hpp:56-58 | One fold step stored in an `int` equals the running value XOR the item hash's low half. |
| Lr0.Accumulate | include/state.hpp:53-59 | The fold equals its initial value XOR the low halves of all item hashes along the order. |
| Lr0.StateHash | include/state.hpp:53-59 | The hash's low half is the fold from 0, and its high half is all zeros or all ones, copying the fold's sign bit. |
| Lr0.XorOfRemove | include/state.hpp:55-58 | Any item can be folded first. |
| Lr0.AccumulateIsXor | include/state.hpp:53-60 | Folding over any enumeration XORs each item's hash exactly once. |
| Lr0.HashIndependentOfOrder | include/state.hpp:43-61 | Every iteration order gives the same hash. |
| Lr0.EqualStatesHashEqually | include/state.hpp:43-61 | Equal states hash equally. |
| Lr0.EmptyStateHash | include/state.hpp:53-59 | The empty state hashes to 0. |
| Lr0.EqualItemsHashEqually | include/lr0_item.hpp:98-116 | Equal items hash equally. |

## Left out

- Reading a grammar file (`Grammar::ReadFromFile`) is left out. It is text I/O with regular expressions.
- The `Debug`, `Teach*` and `PrintTable` output routines and the shell are left out. They only print.
- Closure, goto and the canonical LR(0) collection are left out, because the SLR(1) parser is not part of this model. Only the item and state contracts are modelled.
- The bodies behind `include/lr0_item.hpp` are not shown. So items follow the documented contracts, and the item hash is a parameter of the state hash, a function of the item key.
- The headers `grammar.hpp`, `symbol_table.hpp` and `ll1_parser.hpp` are not part of this model. The symbol table starts empty, the grammar starts with no productions, and EPSILON's spelling is a constant. The proofs only use that EPSILON differs from EOL.
- `SymbolTable::PutSymbol` is overloaded in the source. Here it is split into `PutTerminal` and `PutNonTerminal`.
- The parser keeps a value copy of the grammar (`GrammarView`), because the source copies the `Grammar` into the parser.
- Unordered containers are modelled as `set` and `map`, so their iteration order is left out. Each loop over them picks its elements in an arbitrary order, and the proofs hold for every order.
- LL1.LL1Parser.ComputeFirstSets: `first_sets_[rule[0]]` in `First` can create empty entries for names with no productions. Such an entry can cost one extra pass. The model reads every missing entry as the empty set and keeps exactly one entry per non-terminal.
- Grammars.Grammar.HasEmptyProduction: `at` throws when the antecedent is missing, and `rule[0]` is unchecked on an empty production. Both are preconditions here, not modelled errors.
- Grammars.HasLeftRecursion: `at(0)` throws on an empty consequent. That is a precondition here.
- Grammars.Grammar.Split: the `unsigned` positions of the source are unbounded naturals. Strings longer than 2^32 are not modelled.
- Lr0.Lr0Item.AdvanceDot: the `unsigned int` dot does not wrap around here.
- Lr0.StateEqualsIffSameKeys: this holds for states whose item set has one item per key (`DistinctKeys`). `unordered_set` keyed by item equality guarantees that, and the model states it as a precondition.
- The state hash assumes a 32-bit `int` and a 64-bit `size_t`. `std::accumulate` keeps its running value in an `int`, because its initial value is the literal 0. Converting that `int` to `size_t`, for the lambda's argument and for the final result, is modular by the C++ standard, which is sign extension (`SignExtend`). Storing the `size_t` result of `acc ^ hash` back into the `int` is implementation-defined before C++20 and modular from C++20 on. The model takes the modular reading, which keeps the low 32 bits (`Step`).
- LL1.LL1Parser.CreateLL1Table: the recomputation of FIRST and FOLLOW when either map is empty is not modelled as a separate path. The model's parser always holds the least maps, because its constructor computes them. The source needs that path for a parser whose sets were never computed, such as a default-constructed one. That constructor is in a header that is not part of this model.
