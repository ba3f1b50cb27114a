/**
 * The string search of the legacy generation: apply and prefixSearch of
 * ApplicableFST, which CompactFST repeats over its own arrays.
 *
 * As for the live search, an automaton is seen as a value: arcs[k] holds
 * state k's transitions as CompactFST's iterator for one input string
 * spells them: the asString of the input, the toString of the output, and
 * the input string again for an identity output, that is
 * Search.SpelledArcs of the state's words over the asString and toString
 * of the alphabet's symbols.  The iterator for one input string yields the
 * transitions whose input is that string, which by Search.WithSpelledArcs
 * is what TransitionIterator(s, k) drains.  The iterator over all
 * transitions spells an identity output as "" and an input through
 * toString; the suffix walk of prefixSearch, its one user, reads only the
 * targets and the inputs, which it shows through toString (Shown).  getPrefixes and contains(char) read the alphabet's list
 * of symbols in string order.  Only the overloads without ignored input
 * symbols are modelled.
 */
module LegacySearch {
  import opened JStrings
  import opened LegacySymbols
  import opened LegacyAlphabet
  import opened Iterations
  import Search

  const MAX_SUFFIX := 100
  const MAX_INSERTIONS := 15

  /** The start state, the flags, each state's transitions and the alphabet's symbols in string order. */
  datatype Fst = Fst(start: int, accepting: seq<bool>, arcs: seq<seq<Transition>>, symbols: seq<Symbol>)

  /**
   * Every state has a flag, every transition leads to a state, and no
   * multichar symbol is empty (compareTo against a char reads its first
   * char).
   */
  predicate Valid(m: Fst)
  {
    |m.accepting| == |m.arcs| &&
    (forall k, t :: 0 <= k < |m.arcs| && t in m.arcs[k] ==> 0 <= t.toState < |m.arcs|) &&
    Solid(m.symbols)
  }

  /** No multichar symbol of the list is empty. */
  predicate Solid(list: seq<Symbol>)
  {
    forall j :: 0 <= j < |list| && list[j].MulticharSymbol? ==> |list[j].text| > 0
  }

  /**
   * The input holds no epsilon char.  At an epsilon char getPrefixes would
   * offer the epsilon symbol, whose length is 0, and the search would
   * follow epsilon transitions with the insertion count reset, without end
   * on an epsilon cycle.
   */
  predicate Plain(s: string)
  {
    forall j :: 0 <= j < |s| ==> s[j] != EPSILON_CHAR
  }

  /** alphabet.contains(c): the binary search with the char as key. */
  predicate Contains(symbols: seq<Symbol>, c: char)
    requires Solid(symbols)
  {
    BinarySearch(symbols, AChar(c)) >= 0
  }

  /** getPrefixes(s, i): each symbol found consumes part of what is left, and prints as it reads. */
  function Prefixes(symbols: seq<Symbol>, s: string, i: int): (r: seq<Symbol>)
    requires Solid(symbols) && Plain(s) && 0 <= i < |s|
    ensures forall x :: x in r ==> 0 < x.Length() <= |s| - i && x.ToString() == x.AsString() && StartsWithAt(s, x.AsString(), i)
  {
    ScanPrefixesSpec(symbols, s, i);
    ScanPrefixes(symbols, s, i)
  }

  /** Each string of ws with c before it. */
  function Copied(c: char, ws: set<string>): (r: set<string>)
  {
    set w | w in ws :: [c] + w
  }

  /** The toString of the input the all-transitions iterator reports: the epsilon symbol prints as the empty string. */
  function Shown(in_: string): (r: string)
  {
    if in_ == EPSILON_STRING then [] else in_
  }

  // ---------------------------------------------------------------------
  // apply

  /**
   * The private apply(s, strIdx, statIdx, ins, maxIns, null): "" at an
   * accepting state once s is consumed; epsilon transitions while fewer
   * than maxIns were taken in a row; while input is left, the transitions
   * of every symbol occurring at i, consuming its length; and, when the
   * alphabet does not contain s[i], the identity transitions one after the
   * other until one of them yields something.
   */
  function Apply(m: Fst, s: string, i: nat, k: int, ins: int, maxIns: int): (r: set<string>)
    requires Valid(m) && Plain(s) && 0 <= k < |m.arcs|
    decreases Search.Left(s, i), Search.Budget(ins, maxIns), 1, 0
  {
    var accept: set<string> := if i >= |s| && m.accepting[k] then {""} else {};
    var eps := if ins < maxIns then ApplyEpsilons(m, s, i, k, ins, maxIns) else {};
    if i >= |s| then accept + eps
    else if Contains(m.symbols, s[i]) then eps + ApplyLiterals(m, s, i, k, ins, maxIns)
    else eps + ApplyLiterals(m, s, i, k, ins, maxIns) + FirstIdentity(m, s, i, Search.With(m.arcs[k], IDENTITY_STRING), maxIns)
  }

  /** The epsilon transitions of k: the output (unless it is epsilon) before the rest, one more insertion counted. */
  function ApplyEpsilons(m: Fst, s: string, i: nat, k: int, ins: int, maxIns: int): (r: set<string>)
    requires Valid(m) && Plain(s) && 0 <= k < |m.arcs| && ins < maxIns
    decreases Search.Left(s, i), Search.Budget(ins, maxIns), 0, 0
  {
    set t, w | t in Search.With(m.arcs[k], EPSILON_STRING) && w in Apply(m, s, i, t.toState, ins + 1, maxIns) :: Search.Emit(t.outSym) + w
  }

  /** The transitions of every symbol occurring at i, looked up by its asString: the output before the rest. */
  function ApplyLiterals(m: Fst, s: string, i: nat, k: int, ins: int, maxIns: int): (r: set<string>)
    requires Valid(m) && Plain(s) && 0 <= k < |m.arcs| && i < |s|
    decreases Search.Left(s, i), Search.Budget(ins, maxIns), 0, 0
  {
    set x, t, w | x in Prefixes(m.symbols, s, i) && t in Search.With(m.arcs[k], x.AsString()) && w in Apply(m, s, i + x.Length(), t.toState, 0, maxIns) :: Search.Emit(t.outSym) + w
  }

  /**
   * The identity loop of apply over the identity transitions ts: s[i]
   * before each string found after one, and no further transition once one
   * has yielded a string.
   */
  function FirstIdentity(m: Fst, s: string, i: nat, ts: seq<Transition>, maxIns: int): (r: set<string>)
    requires Valid(m) && Plain(s) && i < |s|
    requires forall t :: t in ts ==> 0 <= t.toState < |m.arcs|
    decreases Search.Left(s, i), 0, 0, |ts|
  {
    if ts == [] then {}
    else
      var prev := Apply(m, s, i + 1, ts[0].toState, 0, maxIns);
      if prev != {} then Copied(s[i], prev)
      else FirstIdentity(m, s, i, ts[1..], maxIns)
  }

  /** apply(in, maxInsertions): the search from the start state with nothing consumed. */
  function ApplyTo(m: Fst, input: string, maxIns: int): (r: set<string>)
    requires Valid(m) && Plain(input) && 0 <= m.start < |m.arcs|
    ensures input == [] && m.accepting[m.start] ==> "" in r
  {
    Apply(m, input, 0, m.start, 0, maxIns)
  }

  // ---------------------------------------------------------------------
  // prefixSearch

  /** rank decreases along every epsilon transition: the epsilon transitions form no cycle. */
  predicate EpsRanked(m: Fst, rank: seq<nat>)
  {
    |rank| == |m.arcs| &&
    forall k, t :: 0 <= k < |m.arcs| && t in m.arcs[k] && t.inSym == EPSILON_STRING && 0 <= t.toState < |m.arcs|
      ==> rank[t.toState] < rank[k]
  }

  /**
   * The private prefixSearch(s, strIdx, statIdx, maxSuffix, null).  While
   * s is not consumed it follows epsilon transitions (with no bound, hence
   * the rank witness), the transitions of every symbol occurring at i,
   * prepending the symbol, and, when the alphabet does not contain s[i],
   * every identity transition, prepending s[i].  Once s is consumed every
   * call spends one of maxSuffix and, while that stays at least 0, follows
   * every transition, prepending the toString of its input.
   */
  function PrefixSearch(m: Fst, s: string, i: nat, k: int, maxSuffix: int, rank: seq<nat>): (r: set<string>)
    requires Valid(m) && Plain(s) && EpsRanked(m, rank) && 0 <= k < |m.arcs|
    decreases Search.Left(s, i), Search.EpsRank(s, i, k, rank), Search.Steps(maxSuffix), 1
  {
    if i < |s| then
      var found := SearchEpsilons(m, s, i, k, maxSuffix, rank) + SearchLiterals(m, s, i, k, maxSuffix, rank);
      if Contains(m.symbols, s[i]) then found else found + SearchIdentities(m, s, i, k, maxSuffix, rank)
    else
      var accept: set<string> := if m.accepting[k] then {""} else {};
      if maxSuffix - 1 >= 0 then accept + SearchSuffixes(m, s, i, k, maxSuffix, rank) else accept
  }

  /** The epsilon transitions of k, before s is consumed: nothing is prepended. */
  function SearchEpsilons(m: Fst, s: string, i: nat, k: int, maxSuffix: int, rank: seq<nat>): (r: set<string>)
    requires Valid(m) && Plain(s) && EpsRanked(m, rank) && 0 <= k < |m.arcs| && i < |s|
    decreases Search.Left(s, i), Search.EpsRank(s, i, k, rank), Search.Steps(maxSuffix), 0
  {
    set t, w | t in Search.With(m.arcs[k], EPSILON_STRING) && w in PrefixSearch(m, s, i, t.toState, maxSuffix, rank) :: w
  }

  /** The transitions of every symbol occurring at i: the symbol is prepended. */
  function SearchLiterals(m: Fst, s: string, i: nat, k: int, maxSuffix: int, rank: seq<nat>): (r: set<string>)
    requires Valid(m) && Plain(s) && EpsRanked(m, rank) && 0 <= k < |m.arcs| && i < |s|
    decreases Search.Left(s, i), Search.EpsRank(s, i, k, rank), Search.Steps(maxSuffix), 0
  {
    set x, t, w | x in Prefixes(m.symbols, s, i) && t in Search.With(m.arcs[k], x.AsString()) && w in PrefixSearch(m, s, i + x.Length(), t.toState, maxSuffix, rank) :: x.ToString() + w
  }

  /** Every identity transition of k: s[i] is prepended. */
  function SearchIdentities(m: Fst, s: string, i: nat, k: int, maxSuffix: int, rank: seq<nat>): (r: set<string>)
    requires Valid(m) && Plain(s) && EpsRanked(m, rank) && 0 <= k < |m.arcs| && i < |s|
    decreases Search.Left(s, i), Search.EpsRank(s, i, k, rank), Search.Steps(maxSuffix), 0
  {
    set t, w | t in Search.With(m.arcs[k], IDENTITY_STRING) && w in PrefixSearch(m, s, i + 1, t.toState, maxSuffix, rank) :: [s[i]] + w
  }

  /** Once s is consumed, every transition of k with one suffix step spent: the toString of its input is prepended. */
  function SearchSuffixes(m: Fst, s: string, i: nat, k: int, maxSuffix: int, rank: seq<nat>): (r: set<string>)
    requires Valid(m) && Plain(s) && EpsRanked(m, rank) && 0 <= k < |m.arcs| && i >= |s| && maxSuffix >= 1
    decreases Search.Left(s, i), Search.EpsRank(s, i, k, rank), Search.Steps(maxSuffix), 0
  {
    set t, w | t in m.arcs[k] && w in PrefixSearch(m, s, i + |Shown(t.inSym)|, t.toState, maxSuffix - 1, rank) :: Shown(t.inSym) + w
  }

  /** prefixSearch(prefix, maxSuffix) as written: the search begins at state 0, whatever the start state. */
  function PrefixSearchFromZero(m: Fst, prefix: string, maxSuffix: int, rank: seq<nat>): (r: set<string>)
    requires Valid(m) && Plain(prefix) && EpsRanked(m, rank) && 0 < |m.arcs|
    ensures forall w :: w in r ==> IsPrefix(prefix, w)
  {
    PrefixSearchExtends(m, prefix, 0, 0, maxSuffix, rank);
    PrefixSearch(m, prefix, 0, 0, maxSuffix, rank)
  }

  /**
   * prefixSearch(prefix, maxSuffix) begun at the start state, as apply
   * begins: every result extends the prefix, and an accepting start state
   * yields the prefix itself.
   */
  function PrefixSearchFromStart(m: Fst, prefix: string, maxSuffix: int, rank: seq<nat>): (r: set<string>)
    requires Valid(m) && Plain(prefix) && EpsRanked(m, rank) && 0 <= m.start < |m.arcs|
    ensures forall w :: w in r ==> IsPrefix(prefix, w)
    ensures prefix == [] && m.accepting[m.start] ==> "" in r
  {
    PrefixSearchExtends(m, prefix, 0, m.start, maxSuffix, rank);
    PrefixSearch(m, prefix, 0, m.start, maxSuffix, rank)
  }

  // ---------------------------------------------------------------------
  // Properties of apply

  /** A transition of k whose input spells a symbol getPrefixes finds at i, followed by a string of its target, gives a string of k. */
  lemma ApplyFollowsLiteral(m: Fst, s: string, i: nat, k: int, ins: int, maxIns: int, x: Symbol, t: Transition, w: string)
    requires Valid(m) && Plain(s) && 0 <= k < |m.arcs| && i < |s|
    requires x in Prefixes(m.symbols, s, i) && t in m.arcs[k] && t.inSym == x.AsString()
    requires w in Apply(m, s, i + x.Length(), t.toState, 0, maxIns)
    ensures Search.Emit(t.outSym) + w in Apply(m, s, i, k, ins, maxIns)
  {
    assert Search.Emit(t.outSym) + w in ApplyLiterals(m, s, i, k, ins, maxIns);
  }

  /** An epsilon transition of k, taken while fewer than maxIns were taken in a row, followed by a string of its target, gives a string of k. */
  lemma ApplyFollowsEpsilon(m: Fst, s: string, i: nat, k: int, ins: int, maxIns: int, t: Transition, w: string)
    requires Valid(m) && Plain(s) && 0 <= k < |m.arcs| && ins < maxIns
    requires t in m.arcs[k] && t.inSym == EPSILON_STRING
    requires w in Apply(m, s, i, t.toState, ins + 1, maxIns)
    ensures Search.Emit(t.outSym) + w in Apply(m, s, i, k, ins, maxIns)
  {
    assert Search.Emit(t.outSym) + w in ApplyEpsilons(m, s, i, k, ins, maxIns);
  }

  /**
   * A transition from the start state whose input is the asString of a
   * symbol of the alphabet, the whole input, into an accepting state:
   * apply yields its output.
   */
  lemma ApplyOneArc(m: Fst, input: string, maxIns: int, x: Symbol, t: Transition)
    requires Valid(m) && Plain(input) && 0 <= m.start < |m.arcs| && Ascending(Strings(m.symbols))
    requires x in m.symbols && x.AsString() == input && input != []
    requires t in m.arcs[m.start] && t.inSym == input && m.accepting[t.toState]
    ensures Search.Emit(t.outSym) in ApplyTo(m, input, maxIns)
  {
    WholeInputPrefix(m.symbols, input, x);
    assert "" in Apply(m, input, x.Length(), t.toState, 0, maxIns);
    ApplyFollowsLiteral(m, input, 0, m.start, 0, maxIns, x, t, "");
    assert Search.Emit(t.outSym) + "" == Search.Emit(t.outSym);
  }

  /** A symbol of the alphabet that spells the whole input is among the prefixes getPrefixes finds at 0, and consumes all of it. */
  lemma WholeInputPrefix(symbols: seq<Symbol>, input: string, x: Symbol)
    requires Solid(symbols) && Plain(input) && Ascending(Strings(symbols))
    requires x in symbols && x.AsString() == input && input != []
    ensures x in Prefixes(symbols, input, 0) && x.Length() == |input|
  {
    ScanPrefixesSpec(symbols, input, 0);
    assert StartsWithAt(input, input, 0) by { assert input[0..|input|] == input; }
  }

  /**
   * The identity loop yields nothing exactly when no identity transition
   * leads to a string; otherwise it yields s[i] before the strings of the
   * first transition that leads to some, and of no other.
   */
  lemma {:induction false} FirstIdentitySpec(m: Fst, s: string, i: nat, ts: seq<Transition>, maxIns: int)
    requires Valid(m) && Plain(s) && i < |s|
    requires forall t :: t in ts ==> 0 <= t.toState < |m.arcs|
    ensures FirstIdentity(m, s, i, ts, maxIns) == {} <==>
      forall j :: 0 <= j < |ts| ==> Apply(m, s, i + 1, ts[j].toState, 0, maxIns) == {}
    ensures FirstIdentity(m, s, i, ts, maxIns) != {} ==>
      exists j :: 0 <= j < |ts| &&
        FirstIdentity(m, s, i, ts, maxIns) == Copied(s[i], Apply(m, s, i + 1, ts[j].toState, 0, maxIns)) &&
        forall j' :: 0 <= j' < j ==> Apply(m, s, i + 1, ts[j'].toState, 0, maxIns) == {}
    decreases |ts|
  {
    if ts != [] {
      var prev := Apply(m, s, i + 1, ts[0].toState, 0, maxIns);
      if prev != {} {
        var w :| w in prev;
        assert [s[i]] + w in FirstIdentity(m, s, i, ts, maxIns);
      } else {
        FirstIdentitySpec(m, s, i, ts[1..], maxIns);
        assert forall j :: 1 <= j < |ts| ==> ts[j] == ts[1..][j - 1];
        if FirstIdentity(m, s, i, ts, maxIns) != {} {
          var j :| 0 <= j < |ts[1..]| &&
            FirstIdentity(m, s, i, ts[1..], maxIns) == Copied(s[i], Apply(m, s, i + 1, ts[1..][j].toState, 0, maxIns)) &&
            forall j' :: 0 <= j' < j ==> Apply(m, s, i + 1, ts[1..][j'].toState, 0, maxIns) == {};
          assert forall j' :: 0 <= j' < j + 1 ==> Apply(m, s, i + 1, ts[j'].toState, 0, maxIns) == {};
        }
      }
    }
  }

  /**
   * Two identity transitions from the start: to state 1, which accepts only
   * after an epsilon transition writing "y", and to the accepting state 2.
   */
  const Detour := Fst(0, [false, false, true, true],
    [[Transition(1, IDENTITY_STRING, IDENTITY_STRING), Transition(2, IDENTITY_STRING, IDENTITY_STRING)],
     [Transition(3, EPSILON_STRING, "y")], [], []], [])

  /**
   * Since the identity loop stops at the first transition that yields
   * something, allowing one insertion more loses a result: "x" is found
   * through state 2 only while state 1 yields nothing.
   */
  lemma ApplyNotMonotone()
    ensures ApplyTo(Detour, "x", 0) == {"x"}
    ensures ApplyTo(Detour, "x", 1) == {"xy"}
  {
    DetourWithoutInsertions();
    DetourWithOneInsertion();
  }

  /** What the search sees of Detour with input "x": no symbols, no epsilon from the start, both identity transitions. */
  lemma DetourShape()
    ensures Valid(Detour) && Plain("x") && !Contains(Detour.symbols, 'x') && Prefixes(Detour.symbols, "x", 0) == []
    ensures Search.With(Detour.arcs[0], EPSILON_STRING) == []
    ensures Search.With(Detour.arcs[0], IDENTITY_STRING) == Detour.arcs[0]
    ensures Search.With(Detour.arcs[1], EPSILON_STRING) == Detour.arcs[1]
  {
    var m := Detour;
    assert m.arcs[0][1..][1..] == [] && m.arcs[1][1..] == [];
    assert IDENTITY_STRING != EPSILON_STRING by {
      assert IDENTITY_STRING[0] != EPSILON_STRING[0];
    }
    assert Search.With(m.arcs[0][1..], EPSILON_STRING) == [];
    assert Search.With(m.arcs[0][1..], IDENTITY_STRING) == m.arcs[0][1..];
  }

  /** Without insertions state 1 yields nothing, so the loop goes on to state 2. */
  lemma DetourWithoutInsertions()
    ensures ApplyTo(Detour, "x", 0) == {"x"}
  {
    var m := Detour;
    DetourShape();
    var ids := Search.With(m.arcs[0], IDENTITY_STRING);
    assert ApplyLiterals(m, "x", 0, 0, 0, 0) == {};
    assert Apply(m, "x", 1, 1, 0, 0) == {};
    assert Apply(m, "x", 1, 2, 0, 0) == {""};
    assert FirstIdentity(m, "x", 0, ids[1..], 0) == Copied('x', {""});
    assert ['x'] + "" == "x";
  }

  /** With one insertion state 1 yields "y", and the loop stops there. */
  lemma DetourWithOneInsertion()
    ensures ApplyTo(Detour, "x", 1) == {"xy"}
  {
    var m := Detour;
    DetourShape();
    var ids := Search.With(m.arcs[0], IDENTITY_STRING);
    assert ApplyLiterals(m, "x", 0, 0, 0, 1) == {};
    assert ApplyEpsilons(m, "x", 0, 0, 0, 1) == {};
    assert Apply(m, "x", 1, 3, 1, 1) == {""};
    assert Search.Emit("y") + "" == "y";
    assert ApplyEpsilons(m, "x", 1, 1, 0, 1) == {"y"};
    assert Apply(m, "x", 1, 1, 0, 1) == {"y"};
    assert FirstIdentity(m, "x", 0, ids, 1) == Copied('x', {"y"});
    assert ['x'] + "y" == "xy";
  }

  // ---------------------------------------------------------------------
  // Properties of prefixSearch

  /** Every string prefixSearch finds from position i extends the input left at i. */
  lemma {:induction false} PrefixSearchExtends(m: Fst, s: string, i: nat, k: int, maxSuffix: int, rank: seq<nat>)
    requires Valid(m) && Plain(s) && EpsRanked(m, rank) && 0 <= k < |m.arcs| && i <= |s|
    ensures forall w :: w in PrefixSearch(m, s, i, k, maxSuffix, rank) ==> IsPrefix(s[i..], w)
    decreases Search.Left(s, i), Search.EpsRank(s, i, k, rank), Search.Steps(maxSuffix), 2
  {
    if i < |s| {
      EpsilonsExtend(m, s, i, k, maxSuffix, rank);
      LiteralsExtend(m, s, i, k, maxSuffix, rank);
      IdentitiesExtend(m, s, i, k, maxSuffix, rank);
    }
  }

  lemma {:induction false} EpsilonsExtend(m: Fst, s: string, i: nat, k: int, maxSuffix: int, rank: seq<nat>)
    requires Valid(m) && Plain(s) && EpsRanked(m, rank) && 0 <= k < |m.arcs| && i < |s|
    ensures forall w :: w in SearchEpsilons(m, s, i, k, maxSuffix, rank) ==> IsPrefix(s[i..], w)
    decreases Search.Left(s, i), Search.EpsRank(s, i, k, rank), Search.Steps(maxSuffix), 1
  {
    forall t | t in Search.With(m.arcs[k], EPSILON_STRING) {
      PrefixSearchExtends(m, s, i, t.toState, maxSuffix, rank);
    }
  }

  lemma {:induction false} LiteralsExtend(m: Fst, s: string, i: nat, k: int, maxSuffix: int, rank: seq<nat>)
    requires Valid(m) && Plain(s) && EpsRanked(m, rank) && 0 <= k < |m.arcs| && i < |s|
    ensures forall w :: w in SearchLiterals(m, s, i, k, maxSuffix, rank) ==> IsPrefix(s[i..], w)
    decreases Search.Left(s, i), Search.EpsRank(s, i, k, rank), Search.Steps(maxSuffix), 1
  {
    forall x, t, w | x in Prefixes(m.symbols, s, i) && t in Search.With(m.arcs[k], x.AsString()) && w in PrefixSearch(m, s, i + x.Length(), t.toState, maxSuffix, rank)
      ensures IsPrefix(s[i..], x.ToString() + w)
    {
      LiteralStepExtends(m, s, i, k, maxSuffix, rank, x, t, w);
    }
  }

  /** A symbol occurring at i, followed by a string found after it, extends s[i..]. */
  lemma {:induction false} LiteralStepExtends(m: Fst, s: string, i: nat, k: int, maxSuffix: int, rank: seq<nat>, x: Symbol, t: Transition, w: string)
    requires Valid(m) && Plain(s) && EpsRanked(m, rank) && 0 <= k < |m.arcs| && i < |s|
    requires 0 < x.Length() <= |s| - i && x.ToString() == x.AsString() && StartsWithAt(s, x.AsString(), i)
    requires 0 <= t.toState < |m.arcs| && w in PrefixSearch(m, s, i + x.Length(), t.toState, maxSuffix, rank)
    ensures IsPrefix(s[i..], x.ToString() + w)
    decreases Search.Left(s, i), Search.EpsRank(s, i, k, rank), Search.Steps(maxSuffix), 0
  {
    PrefixSearchExtends(m, s, i + x.Length(), t.toState, maxSuffix, rank);
    PrependSymbol(s, i, x, w);
  }

  /** A symbol occurring at i, followed by an extension of what follows it, extends s[i..]. */
  lemma PrependSymbol(s: string, i: nat, x: Symbol, w: string)
    requires 0 < x.Length() <= |s| - i && x.ToString() == x.AsString() && StartsWithAt(s, x.AsString(), i)
    requires IsPrefix(s[i + x.Length()..], w)
    ensures IsPrefix(s[i..], x.ToString() + w)
  {
    Search.PrependMatched(s, i, x.AsString(), w);
  }

  lemma {:induction false} IdentitiesExtend(m: Fst, s: string, i: nat, k: int, maxSuffix: int, rank: seq<nat>)
    requires Valid(m) && Plain(s) && EpsRanked(m, rank) && 0 <= k < |m.arcs| && i < |s|
    ensures forall w :: w in SearchIdentities(m, s, i, k, maxSuffix, rank) ==> IsPrefix(s[i..], w)
    decreases Search.Left(s, i), Search.EpsRank(s, i, k, rank), Search.Steps(maxSuffix), 1
  {
    forall t, w | t in Search.With(m.arcs[k], IDENTITY_STRING) && w in PrefixSearch(m, s, i + 1, t.toState, maxSuffix, rank)
      ensures IsPrefix(s[i..], [s[i]] + w)
    {
      PrefixSearchExtends(m, s, i + 1, t.toState, maxSuffix, rank);
      Search.PrependMatched(s, i, [s[i]], w);
    }
  }

  /** A machine whose start state 1 accepts while state 0 does not, with no transitions. */
  const StartIsOne := Fst(1, [false, true], [[], []], [])

  /** With the empty prefix, the search from state 0 misses what the search from the start state finds. */
  lemma PrefixSearchMissesStart()
    ensures "" !in PrefixSearchFromZero(StartIsOne, "", MAX_SUFFIX, [0, 0])
    ensures "" in PrefixSearchFromStart(StartIsOne, "", MAX_SUFFIX, [0, 0])
  {
    assert SearchSuffixes(StartIsOne, "", 0, 0, MAX_SUFFIX, [0, 0]) == {};
  }
}
