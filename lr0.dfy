/** LR(0) items and the states of the LR(0) automaton, with the state hash. */
module Lr0 {
  import opened Symbols

  /** What identifies an item: its production and the position of the dot.
      The epsilon and end-of-input spellings an item carries do not. */
  datatype ItemKey = ItemKey(antecedent: string, consequent: Production, dot: nat)

  /** An item as a value, the form in which a state holds it. */
  datatype Item = Item(antecedent: string, consequent: Production, epsilon: string, eol: string, dot: nat)
  {
    function Key(): ItemKey
    {
      ItemKey(antecedent, consequent, dot)
    }

    /** The symbol right after the dot, or the empty string at the end. */
    function NextToDot(): (r: string)
      ensures dot < |consequent| ==> r == consequent[dot]
      ensures dot >= |consequent| ==> r == ""
    {
      if dot < |consequent| then consequent[dot] else ""
    }

    /** A complete item has no symbol after its dot. */
    predicate IsComplete()
      ensures IsComplete() ==> NextToDot() == ""
    {
      dot == |consequent|
    }

    /** The same item with the dot one position further on. */
    function Advanced(): (r: Item)
      ensures r.dot == dot + 1
      ensures r.antecedent == antecedent && r.consequent == consequent
      ensures r.epsilon == epsilon && r.eol == eol
    {
      this.(dot := dot + 1)
    }

    /** Item equality: same antecedent, consequent and dot. */
    predicate Equals(other: Item)
      ensures Equals(other) <==> Key() == other.Key()
      ensures Equals(other) ==> NextToDot() == other.NextToDot() && (IsComplete() <==> other.IsComplete())
    {
      antecedent == other.antecedent && consequent == other.consequent && dot == other.dot
    }
  }

  /** An item whose dot lies inside its production, or at its end. */
  ghost predicate InRange(i: Item)
  {
    i.dot <= |i.consequent|
  }

  /** An LR(0) item whose dot moves in place. */
  class Lr0Item {
    var antecedent: string
    var consequent: Production
    var epsilon: string
    var eol: string
    var dot: nat

    /** The item as a value. */
    function Value(): (r: Item)
      reads this
      ensures r.antecedent == antecedent && r.consequent == consequent && r.dot == dot
      ensures r.epsilon == epsilon && r.eol == eol
    {
      Item(antecedent, consequent, epsilon, eol, dot)
    }

    /** The item with the dot before the first symbol. */
    constructor (antecedent: string, consequent: Production, epsilon: string, eol: string)
      ensures Value() == Item(antecedent, consequent, epsilon, eol, 0)
    {
      this.antecedent := antecedent;
      this.consequent := consequent;
      this.epsilon := epsilon;
      this.eol := eol;
      this.dot := 0;
    }

    /** The item with the dot at a given position. */
    constructor WithDot(antecedent: string, consequent: Production, dot: nat, epsilon: string, eol: string)
      ensures Value() == Item(antecedent, consequent, epsilon, eol, dot)
    {
      this.antecedent := antecedent;
      this.consequent := consequent;
      this.epsilon := epsilon;
      this.eol := eol;
      this.dot := dot;
    }

    function NextToDot(): (r: string)
      reads this
      ensures dot < |consequent| ==> r == consequent[dot]
      ensures dot >= |consequent| ==> r == ""
    {
      Value().NextToDot()
    }

    predicate IsComplete()
      reads this
      ensures IsComplete() <==> dot == |consequent|
    {
      Value().IsComplete()
    }

    /** Moves the dot one position on; nothing else changes. */
    method AdvanceDot()
      modifies this
      ensures Value() == old(Value()).Advanced()
    {
      dot := dot + 1;
    }

    /** Item equality: the epsilon and end-of-input spellings are ignored. */
    predicate Equals(other: Lr0Item)
      reads this, other
      ensures Equals(other) <==> Value().Key() == other.Value().Key()
    {
      Value().Equals(other.Value())
    }
  }

  // ---------------------------------------------------------------------------
  // Item lemmas
  // ---------------------------------------------------------------------------

  /** Item equality is exactly equality of keys, so it is an equivalence
      relation and blind to the epsilon and end-of-input spellings. */
  lemma EqualsIsKeyEquality(i: Item, j: Item)
    ensures i.Equals(j) <==> i.Key() == j.Key()
    ensures i.Equals(i)
    ensures i.Equals(j) ==> j.Equals(i)
    ensures forall e, o :: i.Equals(i.(epsilon := e, eol := o))
  {
  }

  /** An incomplete item in range has a next symbol, and advancing the dot
      passes over exactly that symbol and stays in range. */
  lemma AdvancePassesNext(i: Item)
    requires InRange(i) && !i.IsComplete()
    ensures InRange(i.Advanced())
    ensures i.consequent[..i.Advanced().dot] == i.consequent[..i.dot] + [i.NextToDot()]
  {
    assert i.consequent[..i.dot + 1] == i.consequent[..i.dot] + [i.consequent[i.dot]];
  }

  /** Advancing `|consequent| - dot` times from an item in range completes it,
      having passed over the rest of the production. */
  lemma {:induction false} AdvanceToEnd(i: Item, k: nat)
    requires InRange(i) && k == |i.consequent| - i.dot
    ensures AdvanceBy(i, k).IsComplete()
    ensures AdvanceBy(i, k).Key() == ItemKey(i.antecedent, i.consequent, |i.consequent|)
    decreases k
  {
    if k > 0 {
      AdvanceToEnd(i.Advanced(), k - 1);
    }
  }

  /** The item after `k` advances of the dot. */
  function AdvanceBy(i: Item, k: nat): (r: Item)
    ensures r.dot == i.dot + k
    ensures r.antecedent == i.antecedent && r.consequent == i.consequent
    ensures r.epsilon == i.epsilon && r.eol == i.eol
    decreases k
  {
    if k == 0 then i else AdvanceBy(i.Advanced(), k - 1)
  }

  // ---------------------------------------------------------------------------
  // States
  // ---------------------------------------------------------------------------

  datatype State = State(items: set<Item>, id: nat)

  /** A set keyed by item equality holds at most one item per key. */
  ghost predicate DistinctKeys(items: set<Item>)
  {
    forall i, j | i in items && j in items && i.Key() == j.Key() :: i == j
  }

  ghost function Keys(items: set<Item>): set<ItemKey>
  {
    set i | i in items :: i.Key()
  }

  /** State equality: the same number of items, and each item of one has an
      equal item in the other; the id plays no part. */
  ghost predicate StateEquals(s: State, t: State)
    ensures s.items == t.items ==> StateEquals(s, t)
  {
    && |s.items| == |t.items|
    && forall i | i in s.items :: exists j :: j in t.items && i.Equals(j)
  }

  /** Two well-formed states are equal exactly when they hold the same keys. */
  lemma StateEqualsIffSameKeys(s: State, t: State)
    requires DistinctKeys(s.items) && DistinctKeys(t.items)
    ensures StateEquals(s, t) <==> Keys(s.items) == Keys(t.items)
  {
    KeysCardinality(s.items);
    KeysCardinality(t.items);
    if StateEquals(s, t) {
      assert Keys(s.items) <= Keys(t.items) by {
        forall k | k in Keys(s.items) ensures k in Keys(t.items) {
          var i :| i in s.items && i.Key() == k;
          var j :| j in t.items && i.Equals(j);
        }
      }
      SubsetSameSize(Keys(s.items), Keys(t.items));
    }
    if Keys(s.items) == Keys(t.items) {
      forall i | i in s.items ensures exists j :: j in t.items && i.Equals(j) {
        assert i.Key() in Keys(t.items);
        var j :| j in t.items && j.Key() == i.Key();
        assert i.Equals(j);
      }
    }
  }

  /** The id does not take part in state equality. */
  lemma StateEqualsIgnoresId(items: set<Item>, a: nat, b: nat)
    requires DistinctKeys(items)
    ensures StateEquals(State(items, a), State(items, b))
  {
    StateEqualsIffSameKeys(State(items, a), State(items, b));
  }

  /** Keys of distinct items are distinct, so there are as many keys as items. */
  lemma {:induction false} KeysCardinality(items: set<Item>)
    requires DistinctKeys(items)
    ensures |Keys(items)| == |items|
    decreases |items|
  {
    if items != {} {
      var i :| i in items;
      var rest := items - {i};
      KeysCardinality(rest);
      assert Keys(items) == Keys(rest) + {i.Key()};
      assert i.Key() !in Keys(rest);
    }
  }

  lemma SubsetSameSize<T>(a: set<T>, b: set<T>)
    requires a <= b && |a| == |b|
    ensures a == b
  {
    if a != b {
      var x :| x in b && x !in a;
      SubsetSize(a, b - {x});
    }
  }

  lemma {:induction false} SubsetSize<T>(a: set<T>, b: set<T>)
    requires a <= b
    ensures |a| <= |b|
    decreases |b|
  {
    if a != {} {
      var x :| x in a;
      SubsetSize(a - {x}, b - {x});
    }
  }

  // ---------------------------------------------------------------------------
  // The state hash
  // ---------------------------------------------------------------------------

  /** A 64-bit `size_t`, as its high and low 32-bit halves. */
  datatype Word = Word(hi: bv32, lo: bv32)

  /** Bitwise XOR of two `size_t` values acts on each half alone. */
  function Xor(a: Word, b: Word): (r: Word)
    ensures r.lo == a.lo ^ b.lo && r.hi == a.hi ^ b.hi
  {
    Word(a.hi ^ b.hi, a.lo ^ b.lo)
  }

  /** An `int` widened to `size_t`: the sign bit fills the high half. */
  function SignExtend(x: bv32): (r: Word)
    ensures r.lo == x
    ensures r.hi == 0 <==> x < 0x8000_0000
    ensures x >= 0x8000_0000 ==> r.hi == 0xFFFF_FFFF
  {
    Word(if x < 0x8000_0000 then 0 else 0xFFFF_FFFF, x)
  }

  /** One step of the fold: the running `int` is widened, combined with the
      item's hash, and the result stored back in an `int`, which keeps the
      low half. */
  function Step(acc: bv32, v: Word): (r: bv32)
    ensures r == acc ^ v.lo
  {
    Xor(SignExtend(acc), v).lo
  }

  /** The XOR of the low halves of the item hashes along `order`. */
  function XorAlong(order: seq<Item>, hash: ItemKey -> Word): bv32
    decreases |order|
  {
    if order == [] then 0 else hash(order[0].Key()).lo ^ XorAlong(order[1..], hash)
  }

  /** The fold of the item hashes over the items in the order `order`: the
      running value XOR every item's hash, low half only. */
  function Accumulate(order: seq<Item>, hash: ItemKey -> Word, acc: bv32): (r: bv32)
    ensures r == acc ^ XorAlong(order, hash)
    decreases |order|
  {
    if order == [] then acc
    else
      var h := hash(order[0].Key()).lo;
      var rest := Accumulate(order[1..], hash, Step(acc, hash(order[0].Key())));
      XorAssociates(acc, h, XorAlong(order[1..], hash));
      rest
  }

  /** The state hash for one iteration order of its items, starting from 0
      and widened to `size_t` at the end. */
  function StateHash(order: seq<Item>, hash: ItemKey -> Word): (r: Word)
    ensures r.lo == Accumulate(order, hash, 0)
    ensures r.hi == 0 || r.hi == 0xFFFF_FFFF
    ensures r.hi == 0 <==> r.lo < 0x8000_0000
  {
    SignExtend(Accumulate(order, hash, 0))
  }

  /** `order` visits every item of `items` exactly once. */
  ghost predicate Enumerates(order: seq<Item>, items: set<Item>)
  {
    && (forall i :: i in order <==> i in items)
    && forall a, b | 0 <= a < b < |order| :: order[a] != order[b]
  }

  /** Some key of a non-empty set. */
  ghost function Pick(keys: set<ItemKey>): (k: ItemKey)
    requires keys != {}
    ensures k in keys
  {
    var k :| k in keys; k
  }

  /** The XOR of the low halves of the hashes of a set of keys. */
  ghost function XorOf(keys: set<ItemKey>, hash: ItemKey -> Word): bv32
    decreases |keys|
  {
    if keys == {} then 0 else
      var k := Pick(keys);
      hash(k).lo ^ XorOf(keys - {k}, hash)
  }

  lemma XorAssociates(x: bv32, y: bv32, z: bv32)
    ensures (x ^ y) ^ z == x ^ (y ^ z)
  {
  }

  lemma XorSwaps(x: bv32, y: bv32, z: bv32)
    ensures x ^ (y ^ z) == y ^ (x ^ z)
  {
  }

  /** Any key can be taken out first: the XOR does not depend on the order. */
  lemma {:induction false} XorOfRemove(keys: set<ItemKey>, hash: ItemKey -> Word, k: ItemKey)
    requires k in keys
    ensures XorOf(keys, hash) == hash(k).lo ^ XorOf(keys - {k}, hash)
    decreases |keys|
  {
    var c := Pick(keys);
    if c != k {
      var rest := keys - {c} - {k};
      assert keys - {k} - {c} == rest;
      XorOfRemove(keys - {c}, hash, k);
      XorOfRemove(keys - {k}, hash, c);
      XorSwaps(hash(c).lo, hash(k).lo, XorOf(rest, hash));
    }
  }

  /** Past its first item, an enumeration enumerates the other items. */
  lemma EnumeratesTail(order: seq<Item>, items: set<Item>)
    requires Enumerates(order, items) && order != []
    ensures Enumerates(order[1..], items - {order[0]})
  {
    forall x ensures x in order[1..] <==> x in items - {order[0]} {
      if x in order[1..] {
        var b :| 1 <= b < |order| && order[b] == x;
        assert order[0] != order[b];
      }
      if x in items - {order[0]} {
        var b :| 0 <= b < |order| && order[b] == x;
        assert order[1..][b - 1] == x;
      }
    }
  }

  /** Taking a well-formed set's item out takes exactly its key out. */
  lemma KeysRemove(items: set<Item>, i: Item)
    requires DistinctKeys(items) && i in items
    ensures Keys(items - {i}) == Keys(items) - {i.Key()}
  {
  }

  /** Folding over any enumeration of a well-formed item set XORs the hash of
      each key once. */
  lemma {:induction false} AccumulateIsXor(order: seq<Item>, items: set<Item>, hash: ItemKey -> Word, acc: bv32)
    requires Enumerates(order, items) && DistinctKeys(items)
    ensures Accumulate(order, hash, acc) == acc ^ XorOf(Keys(items), hash)
    decreases |order|
  {
    if order == [] {
      assert items == {};
      assert Keys(items) == {};
    } else {
      var i := order[0];
      var rest := items - {i};
      var h := hash(i.Key()).lo;
      EnumeratesTail(order, items);
      AccumulateIsXor(order[1..], rest, hash, Step(acc, hash(i.Key())));
      KeysRemove(items, i);
      XorOfRemove(Keys(items), hash, i.Key());
      XorAssociates(acc, h, XorOf(Keys(rest), hash));
    }
  }

  /** The state hash is the same for every iteration order. */
  lemma HashIndependentOfOrder(order1: seq<Item>, order2: seq<Item>, items: set<Item>, hash: ItemKey -> Word)
    requires Enumerates(order1, items) && Enumerates(order2, items) && DistinctKeys(items)
    ensures StateHash(order1, hash) == StateHash(order2, hash)
  {
    AccumulateIsXor(order1, items, hash, 0);
    AccumulateIsXor(order2, items, hash, 0);
  }

  /** Equal states hash equally, whatever order each is visited in. */
  lemma EqualStatesHashEqually(s: State, order1: seq<Item>, t: State, order2: seq<Item>, hash: ItemKey -> Word)
    requires DistinctKeys(s.items) && DistinctKeys(t.items)
    requires Enumerates(order1, s.items) && Enumerates(order2, t.items)
    requires StateEquals(s, t)
    ensures StateHash(order1, hash) == StateHash(order2, hash)
  {
    StateEqualsIffSameKeys(s, t);
    AccumulateIsXor(order1, s.items, hash, 0);
    AccumulateIsXor(order2, t.items, hash, 0);
  }

  /** The state without items hashes to 0. */
  lemma EmptyStateHash(order: seq<Item>, hash: ItemKey -> Word)
    requires Enumerates(order, {})
    ensures StateHash(order, hash) == Word(0, 0)
  {
    AccumulateIsXor(order, {}, hash, 0);
    assert Keys({}) == {};
  }

  /** Equal items have the same key, so they contribute the same hash. */
  lemma EqualItemsHashEqually(i: Item, j: Item, hash: ItemKey -> Word)
    requires i.Equals(j)
    ensures hash(i.Key()) == hash(j.Key())
  {
  }
}
