/**
 * The mutable automaton of the legacy generation (fst.MutableFSTOld).  Each
 * state keeps its literal arcs in three parallel lists, inSyms, outSyms and
 * toStates, ordered by the input symbol's compareTo, and its identity arcs
 * as a list of targets.  Targets are held by state id; MutableFSTOld keeps
 * its states in id order, so the id names the object.
 */
module LegacyMutable {
  import opened JStrings
  import opened LegacySymbols
  import opened LegacyAlphabet
  import opened LegacyIterations
  import Collections
  import Search
  import SymbolTable
  import LegacySearch

  /** One literal arc: the entries at one index of inSyms, outSyms and toStates. */
  datatype Literal = Literal(in_: Symbol, out: Symbol, to: int)

  function Inputs(arcs: seq<Literal>): (r: seq<Symbol>)
    ensures |r| == |arcs|
    ensures forall j :: 0 <= j < |arcs| ==> r[j] == arcs[j].in_
  {
    seq(|arcs|, j requires 0 <= j < |arcs| => arcs[j].in_)
  }

  /** The arcs the three parallel lists hold. */
  function Zip(ins: seq<Symbol>, outs: seq<Symbol>, tos: seq<int>): (r: seq<Literal>)
    requires |ins| == |outs| == |tos|
    ensures |r| == |ins|
    ensures forall j :: 0 <= j < |r| ==> r[j] == Literal(ins[j], outs[j], tos[j])
    ensures Inputs(r) == ins
  {
    seq(|ins|, j requires 0 <= j < |ins| && |ins| == |outs| == |tos| => Literal(ins[j], outs[j], tos[j]))
  }

  // ---------------------------------------------------------------------
  // addLiteralArc

  /** The index addLiteralArc inserts at: the one binarySearch finds, else the insertion point it encodes. */
  function InsertionIndex(ins: seq<Symbol>, x: Symbol): (p: nat)
    requires Comparable(ins, ASymbol(x))
    ensures p <= |ins|
  {
    var i := BinarySearch(ins, ASymbol(x));
    if i < 0 then -(i + 1) else i
  }

  /** The arcs after addLiteralArc: the new arc inserted at that index in all three lists. */
  function InsertLiteral(arcs: seq<Literal>, a: Literal): (r: seq<Literal>)
    requires Comparable(Inputs(arcs), ASymbol(a.in_))
  {
    var p := InsertionIndex(Inputs(arcs), a.in_);
    arcs[..p] + [a] + arcs[p..]
  }

  /**
   * Insertion adds exactly the new arc, duplicates allowed: one more arc,
   * the old ones kept in their order around it.
   */
  lemma InsertLiteralSpec(arcs: seq<Literal>, a: Literal)
    requires Comparable(Inputs(arcs), ASymbol(a.in_))
    ensures var r := InsertLiteral(arcs, a);
      var p := InsertionIndex(Inputs(arcs), a.in_);
      && |r| == |arcs| + 1 && r[p] == a
      && multiset(r) == multiset(arcs) + multiset{a}
      && (forall j :: 0 <= j < p ==> r[j] == arcs[j])
      && (forall j :: p < j < |r| ==> r[j] == arcs[j - 1])
  {
    var p := InsertionIndex(Inputs(arcs), a.in_);
    assert arcs == arcs[..p] + arcs[p..];
  }

  /** Signs that follow a non-decreasing list of strings are partitioned. */
  lemma SignsPartitionLoose(list: seq<Symbol>, cmps: seq<int>, key: string)
    requires NonDescending(Strings(list)) && SignsFollowStrings(list, cmps, key)
    ensures Collections.Partitioned(cmps)
  {
    forall i, j | 0 <= i < j < |cmps|
      ensures (cmps[j] < 0 ==> cmps[i] < 0) && (cmps[i] > 0 ==> cmps[j] > 0)
    {
      var a, b := list[i].AsString(), list[j].AsString();
      assert LessEq(a, b);
      if cmps[j] < 0 && a != b {
        LessTransitive(a, b, key);
      }
      if cmps[i] > 0 && a != b {
        LessTransitive(key, a, b);
      }
    }
  }

  /**
   * On a non-decreasing list whose signs follow the string order, the
   * index the search reports splits the strings not above the key from
   * those not below it.
   */
  lemma SearchSplits(list: seq<Symbol>, cmps: seq<int>, key: string)
    requires NonDescending(Strings(list)) && SignsFollowStrings(list, cmps, key)
    ensures var r := Collections.Search(cmps, 0, |list| - 1);
      var p := if r < 0 then -(r + 1) else r;
      && 0 <= p <= |list|
      && (r >= 0 ==> list[r].AsString() == key)
      && (r < 0 ==> forall k :: 0 <= k < |list| ==> list[k].AsString() != key)
      && (forall k :: 0 <= k < p ==> LessEq(list[k].AsString(), key))
      && (forall k :: p <= k < |list| ==> LessEq(key, list[k].AsString()))
  {
    SignsPartitionLoose(list, cmps, key);
    Collections.SearchComplete(cmps, 0, |list| - 1);
    var r := Collections.Search(cmps, 0, |list| - 1);
    if r >= 0 {
      assert forall k :: 0 <= k < r ==> LessEq(Strings(list)[k], Strings(list)[r]);
      assert forall k :: r < k < |list| ==> LessEq(Strings(list)[r], Strings(list)[k]);
    }
  }

  /** A string placed where the smaller-or-equal strings end and the larger-or-equal begin keeps the order. */
  lemma InsertNonDescending(strs: seq<string>, p: int, key: string)
    requires NonDescending(strs) && 0 <= p <= |strs|
    requires forall k :: 0 <= k < p ==> LessEq(strs[k], key)
    requires forall k :: p <= k < |strs| ==> LessEq(key, strs[k])
    ensures NonDescending(strs[..p] + [key] + strs[p..])
  {
    var r := strs[..p] + [key] + strs[p..];
    assert forall k :: 0 <= k < p ==> r[k] == strs[k];
    assert forall k :: p < k < |r| ==> r[k] == strs[k - 1];
  }

  /** The strings of the inputs after an insertion at p. */
  lemma InputStringsInsert(arcs: seq<Literal>, a: Literal, p: int)
    requires 0 <= p <= |arcs|
    ensures Strings(Inputs(arcs[..p] + [a] + arcs[p..])) ==
      Strings(Inputs(arcs))[..p] + [a.in_.AsString()] + Strings(Inputs(arcs))[p..]
  {
  }

  /**
   * Where compareTo agrees with the string order on every stored input,
   * insertion keeps inSyms in string order.
   */
  lemma InsertLiteralSorted(arcs: seq<Literal>, a: Literal)
    requires Comparable(Inputs(arcs), ASymbol(a.in_))
    requires NonDescending(Strings(Inputs(arcs)))
    requires forall j :: 0 <= j < |arcs| ==> Agrees(arcs[j].in_, ASymbol(a.in_))
    ensures NonDescending(Strings(Inputs(InsertLiteral(arcs, a))))
  {
    var list := Inputs(arcs);
    var key := ASymbol(a.in_);
    SignsFromAgreement(list, key);
    SearchSplits(list, Compares(list, key), KeyString(key));
    var p := InsertionIndex(list, a.in_);
    InsertNonDescending(Strings(list), p, a.in_.AsString());
    InputStringsInsert(arcs, a, p);
  }

  /** inSyms holding "ab" and then 'a' added: the list leaves the string order. */
  lemma InsertLiteralUnsorts()
    ensures var arcs := [Literal(MulticharSymbol("ab", 1), MulticharSymbol("ab", 1), 0)];
      var r := InsertLiteral(arcs, Literal(CharSymbol('a', 0), CharSymbol('a', 0), 0));
      && NonDescending(Strings(Inputs(arcs)))
      && Strings(Inputs(r)) == ["ab", "a"]
      && !NonDescending(Strings(Inputs(r)))
  {
    var arcs := [Literal(MulticharSymbol("ab", 1), MulticharSymbol("ab", 1), 0)];
    var a := Literal(CharSymbol('a', 0), CharSymbol('a', 0), 0);
    var cmps := Compares(Inputs(arcs), ASymbol(a.in_));
    assert cmps[0] == -1;
    assert Collections.Search(cmps, 0, 0) == Collections.Search(cmps, 1, 0) == -2;
    var r := InsertLiteral(arcs, a);
    assert r == arcs + [a];
    assert Strings(Inputs(r)) == ["ab", "a"];
    assert Less("a", "ab") by {
      assert Less("a"[1..], "ab"[1..]);
    }
    LessAsymmetric("a", "ab");
    assert !LessEq(Strings(Inputs(r))[0], Strings(Inputs(r))[1]);
  }

  /** addLiteralArc as evidently meant: the insertion point of the corrected compareTo. */
  function InsertLiteralCorrected(arcs: seq<Literal>, a: Literal): (r: seq<Literal>)
    requires Comparable(Inputs(arcs), ASymbol(a.in_))
  {
    var i := BinarySearchCorrected(Inputs(arcs), ASymbol(a.in_));
    var p := if i < 0 then -(i + 1) else i;
    arcs[..p] + [a] + arcs[p..]
  }

  /** The corrected search on a non-decreasing list splits it around a non-empty key. */
  lemma CorrectedSplits(list: seq<Symbol>, sym: Symbol)
    requires Comparable(list, ASymbol(sym)) && |sym.AsString()| > 0
    requires NonDescending(Strings(list))
    ensures var i := BinarySearchCorrected(list, ASymbol(sym));
      var p := if i < 0 then -(i + 1) else i;
      && 0 <= p <= |list|
      && (forall k :: 0 <= k < p ==> LessEq(Strings(list)[k], sym.AsString()))
      && (forall k :: p <= k < |list| ==> LessEq(sym.AsString(), Strings(list)[k]))
  {
    var key := ASymbol(sym);
    assert KeyString(key) == sym.AsString();
    SignsFromCorrected(list, key);
    SearchSplits(list, CorrectedCompares(list, key), KeyString(key));
  }

  /** With the corrected compareTo every insertion of a non-empty symbol keeps inSyms in string order. */
  lemma InsertLiteralCorrectedSorted(arcs: seq<Literal>, a: Literal)
    requires Comparable(Inputs(arcs), ASymbol(a.in_)) && |a.in_.AsString()| > 0
    requires NonDescending(Strings(Inputs(arcs)))
    ensures NonDescending(Strings(Inputs(InsertLiteralCorrected(arcs, a))))
  {
    var list := Inputs(arcs);
    CorrectedSplits(list, a.in_);
    var i := BinarySearchCorrected(list, ASymbol(a.in_));
    var p := if i < 0 then -(i + 1) else i;
    InsertNonDescending(Strings(list), p, a.in_.AsString());
    InputStringsInsert(arcs, a, p);
  }

  /** The corrected insertion adds exactly the new arc. */
  lemma InsertLiteralCorrectedAdds(arcs: seq<Literal>, a: Literal)
    requires Comparable(Inputs(arcs), ASymbol(a.in_))
    ensures multiset(InsertLiteralCorrected(arcs, a)) == multiset(arcs) + multiset{a}
  {
    var i := BinarySearchCorrected(Inputs(arcs), ASymbol(a.in_));
    var p := if i < 0 then -(i + 1) else i;
    assert arcs == arcs[..p] + arcs[p..];
  }

  // ---------------------------------------------------------------------
  // invert

  /** Each arc with its input and output exchanged. */
  function Swapped(arcs: seq<Literal>): (r: seq<Literal>)
    ensures |r| == |arcs|
    ensures forall j :: 0 <= j < |arcs| ==> r[j] == Literal(arcs[j].out, arcs[j].in_, arcs[j].to)
  {
    seq(|arcs|, j requires 0 <= j < |arcs| => Literal(arcs[j].out, arcs[j].in_, arcs[j].to))
  }

  lemma SwappedTwice(arcs: seq<Literal>)
    ensures Swapped(Swapped(arcs)) == arcs
  {
  }

  /** A symbol compareTo can read: a char symbol or a non-empty multichar symbol. */
  predicate Whole(x: Symbol)
  {
    x.MulticharSymbol? ==> |x.text| > 0
  }

  /** Every arc's input is whole. */
  predicate SolidInputs(arcs: seq<Literal>)
  {
    forall a :: a in arcs ==> Whole(a.in_)
  }

  /** Inserting an arc with a whole input keeps every input whole. */
  lemma InsertLiteralSolid(arcs: seq<Literal>, a: Literal)
    requires Comparable(Inputs(arcs), ASymbol(a.in_)) && SolidInputs(arcs) && Whole(a.in_)
    ensures SolidInputs(InsertLiteral(arcs, a))
  {
    var p := InsertionIndex(Inputs(arcs), a.in_);
    assert arcs == arcs[..p] + arcs[p..];
  }

  lemma SolidInputsComparable(arcs: seq<Literal>, key: Operand)
    requires SolidInputs(arcs)
    ensures LegacySearch.Solid(Inputs(arcs)) && Comparable(Inputs(arcs), key)
  {
    assert forall j :: 0 <= j < |arcs| ==> arcs[j] in arcs;
  }

  /** addLiteralArc applied to each arc of rest in turn, starting from acc. */
  function Rebuild(acc: seq<Literal>, rest: seq<Literal>): (r: seq<Literal>)
    requires SolidInputs(acc) && SolidInputs(rest)
    decreases |rest|
  {
    if rest == [] then acc
    else
      SolidInputsComparable(acc, ASymbol(rest[0].in_));
      var acc' := InsertLiteral(acc, rest[0]);
      assert rest[0] in rest;
      InsertLiteralSolid(acc, rest[0]);
      Rebuild(acc', rest[1..])
  }

  /** Every arc's output is whole. */
  predicate SolidOutputs(arcs: seq<Literal>)
  {
    forall j :: 0 <= j < |arcs| ==> Whole(arcs[j].out)
  }

  /** invert on the arcs of one state: each arc swapped, added again in the old order. */
  function Inverted(arcs: seq<Literal>): (r: seq<Literal>)
    requires SolidOutputs(arcs)
  {
    var sw := Swapped(arcs);
    assert forall a :: a in sw ==> Whole(a.in_);
    Rebuild([], sw)
  }

  /** invert re-adds exactly the swapped arcs, duplicates included. */
  lemma InvertedSpec(arcs: seq<Literal>)
    requires SolidOutputs(arcs)
    ensures multiset(Inverted(arcs)) == multiset(Swapped(arcs))
  {
    var sw := Swapped(arcs);
    assert forall a :: a in sw ==> Whole(a.in_);
    RebuildSpec([], sw);
  }

  /** Rebuilding keeps every arc, duplicates included, and adds no other. */
  lemma {:induction false} RebuildSpec(acc: seq<Literal>, rest: seq<Literal>)
    requires SolidInputs(acc) && SolidInputs(rest)
    ensures multiset(Rebuild(acc, rest)) == multiset(acc) + multiset(rest)
    ensures |Rebuild(acc, rest)| == |acc| + |rest|
    decreases |rest|
  {
    if rest != [] {
      SolidInputsComparable(acc, ASymbol(rest[0].in_));
      var acc' := InsertLiteral(acc, rest[0]);
      InsertLiteralSpec(acc, rest[0]);
      assert rest[0] in rest;
      InsertLiteralSolid(acc, rest[0]);
      RebuildSpec(acc', rest[1..]);
      assert rest == [rest[0]] + rest[1..];
      assert multiset(rest) == multiset{rest[0]} + multiset(rest[1..]);
      assert |multiset(Rebuild(acc, rest))| == |multiset(acc)| + |multiset(rest)|;
    }
  }

  /** The inputs of all arcs compare as strings do with one another. */
  predicate Agreeing(arcs: seq<Literal>)
  {
    forall i, j :: 0 <= i < |arcs| && 0 <= j < |arcs| ==> Agrees(arcs[i].in_, ASymbol(arcs[j].in_))
  }

  /** When all inputs agree with one another, rebuilding leaves the inputs in string order. */
  lemma {:induction false} RebuildSorted(acc: seq<Literal>, rest: seq<Literal>)
    requires SolidInputs(acc) && SolidInputs(rest)
    requires NonDescending(Strings(Inputs(acc))) && Agreeing(acc + rest)
    ensures NonDescending(Strings(Inputs(Rebuild(acc, rest))))
    decreases |rest|
  {
    if rest != [] {
      var all := acc + rest;
      forall j | 0 <= j < |acc|
        ensures Agrees(acc[j].in_, ASymbol(rest[0].in_))
      {
        assert all[j] == acc[j] && all[|acc|] == rest[0];
      }
      SolidInputsComparable(acc, ASymbol(rest[0].in_));
      InsertLiteralSorted(acc, rest[0]);
      var acc' := InsertLiteral(acc, rest[0]);
      InsertLiteralSpec(acc, rest[0]);
      assert rest[0] in rest;
      InsertLiteralSolid(acc, rest[0]);
      AgreeingAfterInsert(acc, rest, acc');
      RebuildSorted(acc', rest[1..]);
    }
  }

  /** The arcs after inserting the first of rest into acc, followed by the others, still agree with one another. */
  lemma AgreeingAfterInsert(acc: seq<Literal>, rest: seq<Literal>, acc': seq<Literal>)
    requires rest != [] && Agreeing(acc + rest)
    requires multiset(acc') == multiset(acc) + multiset{rest[0]}
    ensures Agreeing(acc' + rest[1..])
  {
    var all := acc + rest;
    var all' := acc' + rest[1..];
    forall x | x in all'
      ensures x in all
    {
      if x in acc' {
        assert x in multiset(acc');
        if x != rest[0] {
          assert x in multiset(acc);
        }
      } else {
        assert x in rest;
      }
    }
    forall i, j | 0 <= i < |all'| && 0 <= j < |all'|
      ensures Agrees(all'[i].in_, ASymbol(all'[j].in_))
    {
      assert all'[i] in all && all'[j] in all;
      var i0 :| 0 <= i0 < |all| && all[i0] == all'[i];
      var j0 :| 0 <= j0 < |all| && all[j0] == all'[j];
    }
  }

  // ---------------------------------------------------------------------
  // firstIndexOf

  /** The test of firstIndexOf's backward walk for each overload: equivalentTo(char), equivalentTo(String), equals(Symbol). */
  predicate Matches(x: Symbol, key: Operand)
  {
    match key
    case AChar(c) => x.EquivalentToChar(c)
    case AString(s) => x.EquivalentTo(s)
    case ASymbol(_) => x.Equals(key)
    case AnotherObject => false
  }

  /** The walk back from j: one past the first index that does not match, or 0. */
  function WalkBack(l: seq<Symbol>, key: Operand, j: int): (r: int)
    requires -1 <= j < |l|
    ensures 0 <= r <= j + 1
    decreases j + 1
  {
    if j < 0 then 0
    else if !Matches(l[j], key) then j + 1
    else WalkBack(l, key, j - 1)
  }

  /** firstIndexOf(l, key): -1 when the binary search misses, else the start of the run of matches ending at the index found. */
  function FirstOf(l: seq<Symbol>, key: Operand): (r: int)
    requires Comparable(l, key)
  {
    var i := BinarySearch(l, key);
    if i < 0 then -1 else WalkBack(l, key, i)
  }

  /** The keys the three overloads take; a symbol key is one createSymbol built, a string key is not empty. */
  predicate Key(key: Operand)
  {
    key.AChar? || (key.AString? && |key.s| > 0) || (key.ASymbol? && Created(key.sym))
  }

  /** For symbols as createSymbol builds them, each overload's test is equality of strings. */
  lemma MatchesSpec(x: Symbol, key: Operand)
    requires Created(x) && Key(key)
    ensures Matches(x, key) <==> x.AsString() == KeyString(key)
  {
    match key
    case AChar(c) =>
      EquivalentToCharSpec(x, c);
    case AString(s) =>
      EquivalentToSpec(x, s);
    case ASymbol(y) =>
      EqualsSpec(x, y);
  }

  /** The walk back from a match stops at the first index of the run of matches. */
  lemma {:induction false} WalkBackSpec(l: seq<Symbol>, key: Operand, j: int)
    requires 0 <= j < |l| && Matches(l[j], key)
    ensures var r := WalkBack(l, key, j);
      && 0 <= r <= j
      && (forall m :: r <= m <= j ==> Matches(l[m], key))
      && (r > 0 ==> !Matches(l[r - 1], key))
    decreases j
  {
    if j > 0 && Matches(l[j - 1], key) {
      WalkBackSpec(l, key, j - 1);
    }
  }

  /** All symbols are built by createSymbol and agree with the key's compareTo. */
  predicate Searchable(l: seq<Symbol>, key: Operand)
  {
    Key(key) && NonDescending(Strings(l)) &&
    forall j :: 0 <= j < |l| ==> Created(l[j]) && Agrees(l[j], key)
  }

  /**
   * On a list in string order whose symbols agree with the key,
   * firstIndexOf is -1 exactly when no symbol has the key's string, and
   * otherwise the first index of one that has it.
   */
  lemma FirstOfSpec(l: seq<Symbol>, key: Operand)
    requires Comparable(l, key) && Searchable(l, key)
    ensures FirstOf(l, key) == -1 <==> KeyString(key) !in Strings(l)
    ensures FirstOf(l, key) >= 0 ==>
      FirstOf(l, key) < |l| && l[FirstOf(l, key)].AsString() == KeyString(key) &&
      forall j :: 0 <= j < FirstOf(l, key) ==> l[j].AsString() != KeyString(key)
  {
    var ks := KeyString(key);
    SignsFromAgreement(l, key);
    SearchSplits(l, Compares(l, key), ks);
    var i := BinarySearch(l, key);
    if i >= 0 {
      WalkBackFirst(l, key, i);
    } else {
      assert forall j :: 0 <= j < |l| ==> Strings(l)[j] != ks;
    }
  }

  /** From an index with the key's string, the walk back ends at the first such index. */
  lemma WalkBackFirst(l: seq<Symbol>, key: Operand, i: int)
    requires Searchable(l, key) && 0 <= i < |l| && l[i].AsString() == KeyString(key)
    ensures var r := WalkBack(l, key, i);
      r <= i && l[r].AsString() == KeyString(key) && forall j :: 0 <= j < r ==> l[j].AsString() != KeyString(key)
  {
    var ks := KeyString(key);
    forall j | 0 <= j < |l|
      ensures Matches(l[j], key) <==> l[j].AsString() == ks
    {
      MatchesSpec(l[j], key);
    }
    WalkBackSpec(l, key, i);
    var r := WalkBack(l, key, i);
    forall j | 0 <= j < r
      ensures l[j].AsString() != ks
    {
      var b := l[r - 1].AsString();
      assert LessEq(Strings(l)[j], Strings(l)[r - 1]) && LessEq(Strings(l)[r - 1], Strings(l)[r]);
      if l[j].AsString() == ks {
        LessAsymmetric(ks, b);
      }
    }
  }

  /** The loop test after firstIndexOf: isEpsilon() for the epsilon run, equals(pref) for a symbol's run. */
  predicate Continues(x: Symbol, key: Operand)
  {
    if key.ASymbol? then x.Equals(key) else x.IsEpsilon()
  }

  /** The indices the forward loop visits from j: while the test holds. */
  function Run(l: seq<Symbol>, key: Operand, j: nat): (r: set<int>)
    ensures forall m :: m in r ==> j <= m < |l| && Continues(l[m], key)
    decreases |l| - j
  {
    if j >= |l| || !Continues(l[j], key) then {} else {j} + Run(l, key, j + 1)
  }

  /** The arcs a lookup follows: the forward run from firstIndexOf, none when it returns -1. */
  function Block(l: seq<Symbol>, key: Operand): (r: set<int>)
    requires Comparable(l, key)
    ensures forall m :: m in r ==> 0 <= m < |l| && Continues(l[m], key)
  {
    var f := FirstOf(l, key);
    if f < 0 then {} else Run(l, key, f)
  }

  /** A run from j covers every later index up to the first that fails the test. */
  lemma {:induction false} RunSpec(l: seq<Symbol>, key: Operand, j: nat, m: int)
    requires j <= m < |l|
    ensures m in Run(l, key, j) <==> forall n :: j <= n <= m ==> Continues(l[n], key)
    decreases |l| - j
  {
    if Continues(l[j], key) && j < m {
      RunSpec(l, key, j + 1, m);
    }
  }

  /** For symbols as createSymbol builds them, the forward test is equality of strings as well. */
  lemma ContinuesSpec(x: Symbol, key: Operand)
    requires Created(x) && (key == AChar(EPSILON_CHAR) || (key.ASymbol? && Created(key.sym)))
    ensures Continues(x, key) <==> x.AsString() == KeyString(key)
  {
    if key.ASymbol? {
      EqualsSpec(x, key.sym);
    }
  }

  /**
   * On a list in string order whose symbols agree with the key, the lookup
   * for the epsilon char or for a symbol follows exactly the indices whose
   * symbol has the key's string.
   */
  lemma BlockSpec(l: seq<Symbol>, key: Operand)
    requires Comparable(l, key) && Searchable(l, key)
    requires key == AChar(EPSILON_CHAR) || key.ASymbol?
    ensures forall m :: m in Block(l, key) <==> 0 <= m < |l| && l[m].AsString() == KeyString(key)
  {
    var ks := KeyString(key);
    FirstOfSpec(l, key);
    var f := FirstOf(l, key);
    forall j | 0 <= j < |l|
      ensures Continues(l[j], key) <==> l[j].AsString() == ks
    {
      ContinuesSpec(l[j], key);
    }
    if f >= 0 {
      forall m | f <= m < |l| && l[m].AsString() == ks
        ensures m in Run(l, key, f)
      {
        forall n | f <= n <= m
          ensures l[n].AsString() == ks
        {
          assert LessEq(Strings(l)[f], Strings(l)[n]) && LessEq(Strings(l)[n], Strings(l)[m]);
          if l[n].AsString() != ks {
            LessAsymmetric(ks, l[n].AsString());
          }
        }
        RunSpec(l, key, f, m);
      }
    } else {
      assert forall m :: 0 <= m < |l| ==> Strings(l)[m] != ks;
    }
  }

  // ---------------------------------------------------------------------
  // apply and prefixSearch of MutableState

  /**
   * The automaton as the recursive search sees it: the start state's id,
   * and for each state id its flag, its literal arcs in stored order and
   * its identity targets, with the alphabet's symbols in string order.
   */
  datatype Net = Net(start: int, accepting: seq<bool>, literals: seq<seq<Literal>>, idTo: seq<seq<int>>, symbols: seq<Symbol>)

  /** Every state has a flag and lists, every arc leads to a state, no symbol is an empty multichar symbol. */
  predicate NetValid(n: Net)
  {
    |n.accepting| == |n.literals| == |n.idTo| &&
    (forall k, a :: 0 <= k < |n.literals| && a in n.literals[k] ==> 0 <= a.to < |n.literals| && Whole(a.in_)) &&
    (forall k, t :: 0 <= k < |n.idTo| && t in n.idTo[k] ==> 0 <= t < |n.literals|) &&
    LegacySearch.Solid(n.symbols)
  }

  /** rank decreases along every epsilon arc: the epsilon arcs form no cycle. */
  predicate EpsRanked(n: Net, rank: seq<nat>)
  {
    |rank| == |n.literals| &&
    forall k, a :: 0 <= k < |n.literals| && a in n.literals[k] && a.in_.IsEpsilon() && 0 <= a.to < |n.literals|
      ==> rank[a.to] < rank[k]
  }

  function Rank(rank: seq<nat>, k: int): nat
  {
    if 0 <= k < |rank| then rank[k] else 0
  }

  /** The inputs of a state's arcs can be compared with any key. */
  lemma StateComparable(n: Net, k: int)
    requires NetValid(n) && 0 <= k < |n.literals|
    ensures LegacySearch.Solid(Inputs(n.literals[k]))
    ensures forall key :: Comparable(Inputs(n.literals[k]), key)
  {
    assert forall j :: 0 <= j < |n.literals[k]| ==> n.literals[k][j] in n.literals[k];
  }

  /** Equal symbols have the same length. */
  lemma EqualsLength(x: Symbol, y: Symbol)
    requires x.Equals(ASymbol(y))
    ensures x.Length() == y.Length() && x.ToString() == y.ToString()
  {
  }

  /**
   * MutableState.apply(s, i, null): "" at an accepting state once s is
   * consumed; the epsilon arcs, with no bound on how many follow one
   * another (hence the rank witness); while input is left, the arcs of
   * every symbol occurring at i, consuming the length of the arc's input;
   * and, when the alphabet does not contain s[i], every identity arc,
   * writing s[i].
   */
  function Apply(n: Net, s: string, i: nat, k: int, rank: seq<nat>): (r: set<string>)
    requires NetValid(n) && LegacySearch.Plain(s) && EpsRanked(n, rank) && 0 <= k < |n.literals|
    decreases Search.Left(s, i), Rank(rank, k), 1
  {
    var eps := ApplyEpsilons(n, s, i, k, rank);
    if i >= |s| then (if n.accepting[k] then {""} else {}) + eps
    else
      var found := eps + ApplyLiterals(n, s, i, k, rank);
      if LegacySearch.Contains(n.symbols, s[i]) then found else found + ApplyIdentities(n, s, i, k, rank)
  }

  /** The run of epsilon arcs firstIndexOf(inSyms, EPSILON_CHAR) finds: the output's toString before the rest. */
  function ApplyEpsilons(n: Net, s: string, i: nat, k: int, rank: seq<nat>): (r: set<string>)
    requires NetValid(n) && LegacySearch.Plain(s) && EpsRanked(n, rank) && 0 <= k < |n.literals|
    decreases Search.Left(s, i), Rank(rank, k), 0
  {
    StateComparable(n, k);
    var l := n.literals[k];
    set j, w | j in Block(Inputs(l), AChar(EPSILON_CHAR)) && w in Apply(n, s, i, l[j].to, rank) :: l[j].out.ToString() + w
  }

  /** For each symbol getPrefixes finds at i, the run of arcs firstIndexOf(inSyms, pref) finds. */
  function ApplyLiterals(n: Net, s: string, i: nat, k: int, rank: seq<nat>): (r: set<string>)
    requires NetValid(n) && LegacySearch.Plain(s) && EpsRanked(n, rank) && 0 <= k < |n.literals| && i < |s|
    decreases Search.Left(s, i), Rank(rank, k), 0
  {
    StateComparable(n, k);
    var l := n.literals[k];
    set x, j, w | x in LegacySearch.Prefixes(n.symbols, s, i) && j in Block(Inputs(l), ASymbol(x)) &&
                  w in Apply(n, s, i + l[j].in_.Length(), l[j].to, rank) :: l[j].out.ToString() + w
  }

  /** Every identity arc: s[i] before the rest. */
  function ApplyIdentities(n: Net, s: string, i: nat, k: int, rank: seq<nat>): (r: set<string>)
    requires NetValid(n) && LegacySearch.Plain(s) && EpsRanked(n, rank) && 0 <= k < |n.literals| && i < |s|
    decreases Search.Left(s, i), Rank(rank, k), 0
  {
    set t, w | t in n.idTo[k] && w in Apply(n, s, i + 1, t, rank) :: [s[i]] + w
  }

  /** MutableFSTOld.apply(in): the start state's search from position 0. */
  function ApplyTo(n: Net, input: string, rank: seq<nat>): (r: set<string>)
    requires NetValid(n) && LegacySearch.Plain(input) && EpsRanked(n, rank) && 0 <= n.start < |n.literals|
    ensures input == [] && n.accepting[n.start] ==> "" in r
  {
    Apply(n, input, 0, n.start, rank)
  }

  /**
   * MutableState.prefixSearch(prefix, i, null, maxSuffix).  While the
   * prefix is not consumed it follows the epsilon run, adding nothing, the
   * run of every symbol occurring at i, prepending the symbol, and, when
   * the alphabet does not contain prefix[i], every identity arc,
   * prepending prefix[i].  Once it is consumed every call spends one of
   * maxSuffix and, while that stays at least 0, follows every literal arc
   * (identity arcs are not followed), prepending the toString of its input.
   */
  function PrefixSearch(n: Net, s: string, i: nat, k: int, maxSuffix: int, rank: seq<nat>): (r: set<string>)
    requires NetValid(n) && LegacySearch.Plain(s) && EpsRanked(n, rank) && 0 <= k < |n.literals|
    decreases Search.Left(s, i), Search.EpsRank(s, i, k, rank), Search.Steps(maxSuffix), 1
  {
    if i < |s| then
      var found := SearchEpsilons(n, s, i, k, maxSuffix, rank) + SearchLiterals(n, s, i, k, maxSuffix, rank);
      if LegacySearch.Contains(n.symbols, s[i]) then found else found + SearchIdentities(n, s, i, k, maxSuffix, rank)
    else
      var accept: set<string> := if n.accepting[k] then {""} else {};
      if maxSuffix - 1 >= 0 then accept + SearchSuffixes(n, s, i, k, maxSuffix, rank) else accept
  }

  function SearchEpsilons(n: Net, s: string, i: nat, k: int, maxSuffix: int, rank: seq<nat>): (r: set<string>)
    requires NetValid(n) && LegacySearch.Plain(s) && EpsRanked(n, rank) && 0 <= k < |n.literals| && i < |s|
    decreases Search.Left(s, i), Search.EpsRank(s, i, k, rank), Search.Steps(maxSuffix), 0
  {
    StateComparable(n, k);
    var l := n.literals[k];
    set j, w | j in Block(Inputs(l), AChar(EPSILON_CHAR)) && w in PrefixSearch(n, s, i, l[j].to, maxSuffix, rank) :: w
  }

  function SearchLiterals(n: Net, s: string, i: nat, k: int, maxSuffix: int, rank: seq<nat>): (r: set<string>)
    requires NetValid(n) && LegacySearch.Plain(s) && EpsRanked(n, rank) && 0 <= k < |n.literals| && i < |s|
    decreases Search.Left(s, i), Search.EpsRank(s, i, k, rank), Search.Steps(maxSuffix), 0
  {
    StateComparable(n, k);
    var l := n.literals[k];
    set x, j, w | x in LegacySearch.Prefixes(n.symbols, s, i) && j in Block(Inputs(l), ASymbol(x)) &&
                  w in PrefixSearch(n, s, i + l[j].in_.Length(), l[j].to, maxSuffix, rank) :: x.ToString() + w
  }

  function SearchIdentities(n: Net, s: string, i: nat, k: int, maxSuffix: int, rank: seq<nat>): (r: set<string>)
    requires NetValid(n) && LegacySearch.Plain(s) && EpsRanked(n, rank) && 0 <= k < |n.literals| && i < |s|
    decreases Search.Left(s, i), Search.EpsRank(s, i, k, rank), Search.Steps(maxSuffix), 0
  {
    set t, w | t in n.idTo[k] && w in PrefixSearch(n, s, i + 1, t, maxSuffix, rank) :: [s[i]] + w
  }

  function SearchSuffixes(n: Net, s: string, i: nat, k: int, maxSuffix: int, rank: seq<nat>): (r: set<string>)
    requires NetValid(n) && LegacySearch.Plain(s) && EpsRanked(n, rank) && 0 <= k < |n.literals| && i >= |s| && maxSuffix >= 1
    decreases Search.Left(s, i), Search.EpsRank(s, i, k, rank), Search.Steps(maxSuffix), 0
  {
    var l := n.literals[k];
    set j, w | 0 <= j < |l| && w in PrefixSearch(n, s, i + l[j].in_.Length(), l[j].to, maxSuffix - 1, rank) :: l[j].in_.ToString() + w
  }

  /**
   * MutableFSTOld.prefixSearch(prefix, maxSuffix): the start state's
   * search.  Every result extends the prefix, and an accepting start state
   * yields the prefix itself.
   */
  function PrefixSearchFrom(n: Net, prefix: string, maxSuffix: int, rank: seq<nat>): (r: set<string>)
    requires NetValid(n) && LegacySearch.Plain(prefix) && EpsRanked(n, rank) && 0 <= n.start < |n.literals|
    ensures forall w :: w in r ==> IsPrefix(prefix, w)
    ensures prefix == [] && n.accepting[n.start] ==> "" in r
  {
    PrefixSearchExtends(n, prefix, 0, n.start, maxSuffix, rank);
    PrefixSearch(n, prefix, 0, n.start, maxSuffix, rank)
  }

  // ---------------------------------------------------------------------
  // Properties of the search

  /** Every string prefixSearch finds from position i extends the input left at i. */
  lemma {:induction false} PrefixSearchExtends(n: Net, s: string, i: nat, k: int, maxSuffix: int, rank: seq<nat>)
    requires NetValid(n) && LegacySearch.Plain(s) && EpsRanked(n, rank) && 0 <= k < |n.literals| && i <= |s|
    ensures forall w :: w in PrefixSearch(n, s, i, k, maxSuffix, rank) ==> IsPrefix(s[i..], w)
    decreases Search.Left(s, i), Search.EpsRank(s, i, k, rank), Search.Steps(maxSuffix), 2
  {
    if i < |s| {
      EpsilonsExtend(n, s, i, k, maxSuffix, rank);
      LiteralsExtend(n, s, i, k, maxSuffix, rank);
      IdentitiesExtend(n, s, i, k, maxSuffix, rank);
    }
  }

  lemma {:induction false} EpsilonsExtend(n: Net, s: string, i: nat, k: int, maxSuffix: int, rank: seq<nat>)
    requires NetValid(n) && LegacySearch.Plain(s) && EpsRanked(n, rank) && 0 <= k < |n.literals| && i < |s|
    ensures forall w :: w in SearchEpsilons(n, s, i, k, maxSuffix, rank) ==> IsPrefix(s[i..], w)
    decreases Search.Left(s, i), Search.EpsRank(s, i, k, rank), Search.Steps(maxSuffix), 1
  {
    StateComparable(n, k);
    var l := n.literals[k];
    forall j | j in Block(Inputs(l), AChar(EPSILON_CHAR)) {
      PrefixSearchExtends(n, s, i, l[j].to, maxSuffix, rank);
    }
  }

  lemma {:induction false} LiteralsExtend(n: Net, s: string, i: nat, k: int, maxSuffix: int, rank: seq<nat>)
    requires NetValid(n) && LegacySearch.Plain(s) && EpsRanked(n, rank) && 0 <= k < |n.literals| && i < |s|
    ensures forall w :: w in SearchLiterals(n, s, i, k, maxSuffix, rank) ==> IsPrefix(s[i..], w)
    decreases Search.Left(s, i), Search.EpsRank(s, i, k, rank), Search.Steps(maxSuffix), 1
  {
    StateComparable(n, k);
    forall x, j | x in LegacySearch.Prefixes(n.symbols, s, i) && j in Block(Inputs(n.literals[k]), ASymbol(x))
      ensures forall w :: w in PrefixSearch(n, s, i + n.literals[k][j].in_.Length(), n.literals[k][j].to, maxSuffix, rank) ==>
        IsPrefix(s[i..], x.ToString() + w)
    {
      assert n.literals[k][j] in n.literals[k];
      EqualsLength(n.literals[k][j].in_, x);
      ArcStepExtends(n, s, i, k, maxSuffix, rank, x, j);
    }
  }

  /** A literal arc reading a symbol that occurs at i, followed by a string found after it, extends s[i..]. */
  lemma {:induction false} ArcStepExtends(n: Net, s: string, i: nat, k: int, maxSuffix: int, rank: seq<nat>, x: Symbol, j: int)
    requires NetValid(n) && LegacySearch.Plain(s) && EpsRanked(n, rank) && 0 <= k < |n.literals| && i < |s|
    requires 0 < x.Length() <= |s| - i && x.ToString() == x.AsString() && StartsWithAt(s, x.AsString(), i)
    requires 0 <= j < |n.literals[k]| && 0 <= n.literals[k][j].to < |n.literals|
    requires n.literals[k][j].in_.Length() == x.Length()
    ensures forall w :: w in PrefixSearch(n, s, i + n.literals[k][j].in_.Length(), n.literals[k][j].to, maxSuffix, rank) ==>
      IsPrefix(s[i..], x.ToString() + w)
    decreases Search.Left(s, i), Search.EpsRank(s, i, k, rank), Search.Steps(maxSuffix), 0
  {
    var len, to := x.Length(), n.literals[k][j].to;
    PrefixSearchExtends(n, s, i + len, to, maxSuffix, rank);
    forall w | w in PrefixSearch(n, s, i + len, to, maxSuffix, rank)
      ensures IsPrefix(s[i..], x.ToString() + w)
    {
      LegacySearch.PrependSymbol(s, i, x, w);
    }
  }

  lemma {:induction false} IdentitiesExtend(n: Net, s: string, i: nat, k: int, maxSuffix: int, rank: seq<nat>)
    requires NetValid(n) && LegacySearch.Plain(s) && EpsRanked(n, rank) && 0 <= k < |n.literals| && i < |s|
    ensures forall w :: w in SearchIdentities(n, s, i, k, maxSuffix, rank) ==> IsPrefix(s[i..], w)
    decreases Search.Left(s, i), Search.EpsRank(s, i, k, rank), Search.Steps(maxSuffix), 1
  {
    forall t, w | t in n.idTo[k] && w in PrefixSearch(n, s, i + 1, t, maxSuffix, rank)
      ensures IsPrefix(s[i..], [s[i]] + w)
    {
      PrefixSearchExtends(n, s, i + 1, t, maxSuffix, rank);
      Search.PrependMatched(s, i, [s[i]], w);
    }
  }

  /** The inputs of state k are in string order, built by createSymbol and agree with the key's compareTo. */
  predicate Ordered(n: Net, k: int, key: Operand)
    requires 0 <= k < |n.literals|
  {
    Searchable(Inputs(n.literals[k]), key)
  }

  /**
   * Where a state's inputs are in string order and agree with the symbol's
   * compareTo, apply follows every arc whose input has the string of a
   * symbol occurring at i: the lookup through firstIndexOf misses none.
   */
  lemma ApplyFollowsLiteral(n: Net, s: string, i: nat, k: int, rank: seq<nat>, x: Symbol, j: int, w: string)
    requires NetValid(n) && LegacySearch.Plain(s) && EpsRanked(n, rank) && 0 <= k < |n.literals| && i < |s|
    requires x in LegacySearch.Prefixes(n.symbols, s, i) && Created(x) && Ordered(n, k, ASymbol(x))
    requires 0 <= j < |n.literals[k]| && n.literals[k][j].in_.AsString() == x.AsString()
    requires w in Apply(n, s, i + n.literals[k][j].in_.Length(), n.literals[k][j].to, rank)
    ensures n.literals[k][j].out.ToString() + w in Apply(n, s, i, k, rank)
  {
    StateComparable(n, k);
    var l := n.literals[k];
    BlockSpec(Inputs(l), ASymbol(x));
    assert j in Block(Inputs(l), ASymbol(x));
    InApplyLiterals(n, s, i, k, rank, x, j, w);
  }

  /** One arc of the run found for x, followed by a word of its target, gives a word of the state. */
  lemma InApplyLiterals(n: Net, s: string, i: nat, k: int, rank: seq<nat>, x: Symbol, j: int, w: string)
    requires NetValid(n) && LegacySearch.Plain(s) && EpsRanked(n, rank) && 0 <= k < |n.literals| && i < |s|
    requires x in LegacySearch.Prefixes(n.symbols, s, i) && 0 <= j < |n.literals[k]|
    requires Comparable(Inputs(n.literals[k]), ASymbol(x)) && j in Block(Inputs(n.literals[k]), ASymbol(x))
    requires w in Apply(n, s, i + n.literals[k][j].in_.Length(), n.literals[k][j].to, rank)
    ensures n.literals[k][j].out.ToString() + w in Apply(n, s, i, k, rank)
  {
    assert n.literals[k][j].out.ToString() + w in ApplyLiterals(n, s, i, k, rank);
  }

  /**
   * Where a state's inputs are in string order and agree with the epsilon
   * char's compareTo, apply follows every epsilon arc.
   */
  lemma ApplyFollowsEpsilon(n: Net, s: string, i: nat, k: int, rank: seq<nat>, j: int, w: string)
    requires NetValid(n) && LegacySearch.Plain(s) && EpsRanked(n, rank) && 0 <= k < |n.literals|
    requires Ordered(n, k, AChar(EPSILON_CHAR))
    requires 0 <= j < |n.literals[k]| && n.literals[k][j].in_.IsEpsilon()
    requires w in Apply(n, s, i, n.literals[k][j].to, rank)
    ensures n.literals[k][j].out.ToString() + w in Apply(n, s, i, k, rank)
  {
    StateComparable(n, k);
    var l := n.literals[k];
    BlockSpec(Inputs(l), AChar(EPSILON_CHAR));
    assert j in Block(Inputs(l), AChar(EPSILON_CHAR));
    assert l[j].out.ToString() + w in ApplyEpsilons(n, s, i, k, rank);
  }

  /**
   * An arc from the start state whose input spells a symbol of the
   * alphabet, the whole input, into an accepting state: apply yields the
   * toString of its output.
   */
  lemma ApplyOneArc(n: Net, input: string, rank: seq<nat>, x: Symbol, j: int)
    requires NetValid(n) && LegacySearch.Plain(input) && EpsRanked(n, rank) && 0 <= n.start < |n.literals|
    requires Ascending(Strings(n.symbols)) && x in n.symbols && Created(x) && x.AsString() == input && input != []
    requires Ordered(n, n.start, ASymbol(x))
    requires 0 <= j < |n.literals[n.start]| && n.literals[n.start][j].in_.AsString() == input
    requires n.accepting[n.literals[n.start][j].to]
    ensures n.literals[n.start][j].out.ToString() in ApplyTo(n, input, rank)
  {
    var a := n.literals[n.start][j];
    assert a in n.literals[n.start];
    LegacySearch.WholeInputPrefix(n.symbols, input, x);
    AcceptsAtEnd(n, input, a.in_.Length(), a.to, rank);
    ApplyFollowsLiteral(n, input, 0, n.start, rank, x, j, "");
    assert a.out.ToString() + "" == a.out.ToString();
  }

  /** Once the input is consumed, an accepting state yields the empty string. */
  lemma AcceptsAtEnd(n: Net, s: string, i: nat, k: int, rank: seq<nat>)
    requires NetValid(n) && LegacySearch.Plain(s) && EpsRanked(n, rank) && 0 <= k < |n.literals|
    requires i >= |s| && n.accepting[k]
    ensures "" in Apply(n, s, i, k, rank)
  {
  }
}
