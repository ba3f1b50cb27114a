/**
 * The string search of the live generation (ApplicableTransducer): apply
 * and prefixSearch walk the automaton recursively and collect result
 * strings in a set.
 *
 * The search sees an automaton only through its abstract methods: the
 * start state, the accepting flags, the alphabet's getPrefixes and the
 * transition iterators.  A Machine is that view as a value: arcs[k] holds
 * state k's transitions as the iterators for single input strings spell
 * them, so an identity output reads as the input string (SpelledArcs), and
 * the iterator for one input string yields the arcs whose input is that
 * string (With; WithSpelledArcs shows this is what the automata's own
 * getTransitionIterator(s, k) drains).  The iterator over all transitions
 * spells an identity output as "" instead; the one search step that uses
 * it, the suffix walk of prefixSearch, reads only inputs and targets,
 * which the two spellings share.  Only the overloads without ignored input
 * symbols are modelled.
 */
module Search {
  import opened JStrings
  import opened SymbolTable
  import opened Iterations
  import opened JavaWords
  import opened Packing

  const MAX_SUFFIX := 100
  const MAX_INSERTIONS := 15

  /** The start state, the flags, each state's transitions and the id-ordered symbol table. */
  datatype Machine = Machine(start: int, accepting: seq<bool>, arcs: seq<seq<Transition>>, table: seq<string>)

  /** Every state has a flag and every transition leads to a state. */
  predicate Valid(m: Machine)
  {
    |m.accepting| == |m.arcs| &&
    forall k, t :: 0 <= k < |m.arcs| && t in m.arcs[k] ==> 0 <= t.toState < |m.arcs|
  }

  /** getTransitionIterator(sym, k): the transitions of a list whose input is sym, in order. */
  function With(ts: seq<Transition>, sym: string): (r: seq<Transition>)
    ensures forall t :: t in r <==> t in ts && t.inSym == sym
  {
    if ts == [] then []
    else (if ts[0].inSym == sym then [ts[0]] else []) + With(ts[1..], sym)
  }

  /** Selecting from a concatenation selects from each part. */
  lemma {:induction false} WithAppend(a: seq<Transition>, b: seq<Transition>, sym: string)
    ensures With(a + b, sym) == With(a, sym) + With(b, sym)
  {
    if a == [] {
      assert a + b == b;
    } else {
      assert (a + b)[0] == a[0] && (a + b)[1..] == a[1..] + b;
      WithAppend(a[1..], b, sym);
    }
  }

  /**
   * A stored list of words as the iterators for single input strings
   * report it: each word with the name of its input field as input, and
   * that name again as the output of an identity word.
   */
  function SpelledArcs(xs: seq<Long>, names: seq<string>, table: seq<string>, identity: int): (r: seq<Transition>)
    requires Spelled(xs, table, false) && forall w :: w in xs ==> InField(w) < |names|
    ensures |r| == |xs|
  {
    if xs == [] then []
    else
      var w := xs[|xs| - 1];
      SpelledArcs(xs[..|xs| - 1], names, table, identity) + [Report(w, names[InField(w)], false, table, identity)]
  }

  /**
   * What a Machine asks of arcs[k] is what the automaton's own iterator
   * answers: when arcs[k] spells state k's words, the transitions With
   * selects for a symbol's name are the reports, with that name as input
   * and as identity output, of the words whose input field is the symbol's
   * id, in stored order, exactly as getTransitionIterator(s, k) drains.
   */
  lemma {:induction false} WithSpelledArcs(xs: seq<Long>, names: seq<string>, table: seq<string>, identity: int, id: nat)
    requires Spelled(xs, table, false) && forall w :: w in xs ==> InField(w) < |names|
    requires Distinct(names) && id < |names| <= TWO16
    ensures Spelled(WordsWithInput(xs, SignedIn(id)), table, false)
    ensures With(SpelledArcs(xs, names, table, identity), names[id])
         == Reports(WordsWithInput(xs, SignedIn(id)), names[id], false, table, identity)
  {
    WordsWithInputMembers(xs, SignedIn(id));
    if xs != [] {
      var n := |xs| - 1;
      var w, ys := xs[n], xs[..n];
      assert forall v :: v in ys ==> v in xs;
      WithSpelledArcs(ys, names, table, identity, id);
      SpelledArcsLast(xs, names, table, identity, id);
      FieldReadsAs(w, id);
      if InField(w) == id {
        ReportsSnoc(WordsWithInput(ys, SignedIn(id)), w, names[id], false, table, identity);
      }
    }
  }

  /** The last word adds its report to the selection for id exactly when its input field is id. */
  lemma SpelledArcsLast(xs: seq<Long>, names: seq<string>, table: seq<string>, identity: int, id: nat)
    requires Spelled(xs, table, false) && forall w :: w in xs ==> InField(w) < |names|
    requires Distinct(names) && id < |names| && xs != []
    ensures var w, ys := xs[|xs| - 1], xs[..|xs| - 1];
      Spelled(ys, table, false) && (forall v :: v in ys ==> InField(v) < |names|) &&
      With(SpelledArcs(xs, names, table, identity), names[id]) ==
        With(SpelledArcs(ys, names, table, identity), names[id]) + (if InField(w) == id then [Report(w, names[id], false, table, identity)] else [])
  {
    var n := |xs| - 1;
    var w, ys := xs[n], xs[..n];
    assert forall v :: v in ys ==> v in xs;
    var arc := Report(w, names[InField(w)], false, table, identity);
    WithAppend(SpelledArcs(ys, names, table, identity), [arc], names[id]);
    if InField(w) != id {
      assert names[InField(w)] != names[id];
    }
  }

  /** A word's input field is id exactly when its input id reads back as SignedIn(id). */
  lemma FieldReadsAs(w: Long, id: nat)
    requires id < TWO16
    ensures InField(w) == id <==> InId(w) == SignedIn(id)
  {
    Decode(w);
    PatBits(w);
  }

  /** isEpsilon: the output an output symbol contributes. */
  function Emit(out: string): (r: string)
    ensures out == EPSILON_STRING <==> r == [] && out != []
  {
    if out == EPSILON_STRING then [] else out
  }

  /** getAlphabet().getPrefixes(s, i): the symbols occurring in s at i, in key order; each consumes part of what is left. */
  function Prefixes(m: Machine, s: string, i: int): (r: seq<string>)
    requires 0 <= i < |s|
    ensures forall p :: p in r ==> 0 < |p| <= |s| - i
  {
    PrefixesAtSpec(Sort(m.table), s, i);
    PrefixesAt(Sort(m.table), s, i)
  }

  /** The symbols getPrefixes returns are exactly the non-empty table entries occurring at i. */
  lemma PrefixesSpec(m: Machine, s: string, i: int)
    requires 0 <= i < |s|
    ensures forall p :: p in Prefixes(m, s, i) <==> p in m.table && |p| > 0 && StartsWithAt(s, p, i)
  {
    var keys := Sort(m.table);
    PrefixesAtSpec(keys, s, i);
    forall p ensures p in keys <==> p in m.table {
      assert p in keys <==> p in multiset(keys);
    }
  }

  /** Characters of s left from i. */
  function Left(s: string, i: int): nat
  {
    if i < |s| then |s| - i else 0
  }

  /** Epsilon steps still allowed with ins of maxIns taken. */
  function Budget(ins: int, maxIns: int): nat
  {
    if ins < maxIns then maxIns - ins else 0
  }

  // ---------------------------------------------------------------------
  // apply

  /**
   * The private apply(s, strIdx, statIdx, ins, maxIns, null): "" at an
   * accepting state once s is consumed; epsilon transitions while fewer
   * than maxIns were taken in a row; the transitions of every symbol
   * occurring at i, consuming its length; and, only when no symbol occurs
   * there, the unknown-identity and unknown transitions, which consume one
   * character.  Each kind of step is a function of its own below.  The
   * measure is the input left, then the epsilons left, so the recursion
   * ends.
   */
  function Apply(m: Machine, s: string, i: nat, k: int, ins: int, maxIns: int): (r: set<string>)
    requires Valid(m) && 0 <= k < |m.arcs|
    decreases Left(s, i), Budget(ins, maxIns), 1
  {
    var accept: set<string> := if i >= |s| && m.accepting[k] then {""} else {};
    var eps := if ins < maxIns then ApplyEpsilons(m, s, i, k, ins, maxIns) else {};
    if i >= |s| then accept + eps
    else if Prefixes(m, s, i) == [] then eps + ApplyUnknowns(m, s, i, k, ins, maxIns)
    else eps + ApplyLiterals(m, s, i, k, ins, maxIns)
  }

  /** The epsilon transitions of k: the output (unless it is epsilon) before the rest, one more insertion counted. */
  function ApplyEpsilons(m: Machine, s: string, i: nat, k: int, ins: int, maxIns: int): (r: set<string>)
    requires Valid(m) && 0 <= k < |m.arcs| && ins < maxIns
    decreases Left(s, i), Budget(ins, maxIns), 0
  {
    set t, w | t in With(m.arcs[k], EPSILON_STRING) && w in Apply(m, s, i, t.toState, ins + 1, maxIns) :: Emit(t.outSym) + w
  }

  /** The transitions of every symbol occurring at i: its output before the rest of the input's outputs. */
  function ApplyLiterals(m: Machine, s: string, i: nat, k: int, ins: int, maxIns: int): (r: set<string>)
    requires Valid(m) && 0 <= k < |m.arcs| && i < |s|
    decreases Left(s, i), Budget(ins, maxIns), 0
  {
    set p, t, w | p in Prefixes(m, s, i) && t in With(m.arcs[k], p) && w in Apply(m, s, i + |p|, t.toState, 0, maxIns) :: Emit(t.outSym) + w
  }

  /** The unknown-identity transitions copy s[i]; the unknown transitions write their output as it is. */
  function ApplyUnknowns(m: Machine, s: string, i: nat, k: int, ins: int, maxIns: int): (r: set<string>)
    requires Valid(m) && 0 <= k < |m.arcs| && i < |s|
    decreases Left(s, i), Budget(ins, maxIns), 0
  {
    (set t, w | t in With(m.arcs[k], UNKNOWN_IDENTITY_STRING) && w in Apply(m, s, i + 1, t.toState, 0, maxIns) :: [s[i]] + w) +
    (set t, w | t in With(m.arcs[k], UNKNOWN_STRING) && w in Apply(m, s, i + 1, t.toState, 0, maxIns) :: t.outSym + w)
  }

  /** apply(in, maxInsertions): the search from the start state with nothing consumed. */
  function ApplyTo(m: Machine, input: string, maxIns: int): (r: set<string>)
    requires Valid(m) && 0 <= m.start < |m.arcs|
    ensures input == [] && m.accepting[m.start] ==> "" in r
  {
    Apply(m, input, 0, m.start, 0, maxIns)
  }

  /** apply(in): at most MAX_INSERTIONS epsilons in a row. */
  function ApplyDefault(m: Machine, input: string): (r: set<string>)
    requires Valid(m) && 0 <= m.start < |m.arcs|
    ensures forall w :: w in ApplyTo(m, input, 0) ==> w in r
  {
    ApplyMonotone(m, input, 0, m.start, 0, 0, MAX_INSERTIONS);
    ApplyTo(m, input, MAX_INSERTIONS)
  }

  // ---------------------------------------------------------------------
  // prefixSearch

  /** rank decreases along every epsilon transition: the epsilon transitions form no cycle. */
  predicate EpsRanked(m: Machine, rank: seq<nat>)
  {
    |rank| == |m.arcs| &&
    forall k, t :: 0 <= k < |m.arcs| && t in m.arcs[k] && t.inSym == EPSILON_STRING && 0 <= t.toState < |m.arcs|
      ==> rank[t.toState] < rank[k]
  }

  /** Where the input is not consumed, the rank of the state; it bounds the epsilon steps still possible there. */
  function EpsRank(s: string, i: int, k: int, rank: seq<nat>): nat
  {
    if i < |s| && 0 <= k < |rank| then rank[k] else 0
  }

  /** Suffix steps still allowed. */
  function Steps(maxSuffix: int): nat
  {
    if maxSuffix >= 0 then maxSuffix else 0
  }

  /**
   * The private prefixSearch(s, strIdx, statIdx, maxSuffix, null).  While
   * s is not consumed it follows epsilon transitions (with no bound, hence
   * the rank witness), the transitions of every symbol occurring at i, and
   * without such a symbol the unknown-identity and unknown ones, each
   * copying s[i]; the consumed input is what is prepended.  Once s is
   * consumed every call spends one of maxSuffix and, while that stays at
   * least 0, follows every transition, prepending its input string.
   */
  function PrefixSearch(m: Machine, s: string, i: nat, k: int, maxSuffix: int, rank: seq<nat>): (r: set<string>)
    requires Valid(m) && EpsRanked(m, rank) && 0 <= k < |m.arcs|
    decreases Left(s, i), EpsRank(s, i, k, rank), Steps(maxSuffix), 1
  {
    if i < |s| then
      var eps := SearchEpsilons(m, s, i, k, maxSuffix, rank);
      if Prefixes(m, s, i) == [] then eps + SearchUnknowns(m, s, i, k, maxSuffix, rank)
      else eps + SearchLiterals(m, s, i, k, maxSuffix, rank)
    else
      var accept: set<string> := if m.accepting[k] then {""} else {};
      if maxSuffix - 1 >= 0 then accept + SearchSuffixes(m, s, i, k, maxSuffix, rank) else accept
  }

  /** The epsilon transitions of k, before s is consumed: nothing is prepended. */
  function SearchEpsilons(m: Machine, s: string, i: nat, k: int, maxSuffix: int, rank: seq<nat>): (r: set<string>)
    requires Valid(m) && EpsRanked(m, rank) && 0 <= k < |m.arcs| && i < |s|
    decreases Left(s, i), EpsRank(s, i, k, rank), Steps(maxSuffix), 0
  {
    set t, w | t in With(m.arcs[k], EPSILON_STRING) && w in PrefixSearch(m, s, i, t.toState, maxSuffix, rank) :: w
  }

  /** The transitions of every symbol occurring at i: the symbol is prepended. */
  function SearchLiterals(m: Machine, s: string, i: nat, k: int, maxSuffix: int, rank: seq<nat>): (r: set<string>)
    requires Valid(m) && EpsRanked(m, rank) && 0 <= k < |m.arcs| && i < |s|
    decreases Left(s, i), EpsRank(s, i, k, rank), Steps(maxSuffix), 0
  {
    set p, t, w | p in Prefixes(m, s, i) && t in With(m.arcs[k], p) && w in PrefixSearch(m, s, i + |p|, t.toState, maxSuffix, rank) :: p + w
  }

  /** The unknown-identity and unknown transitions of k: both prepend s[i]. */
  function SearchUnknowns(m: Machine, s: string, i: nat, k: int, maxSuffix: int, rank: seq<nat>): (r: set<string>)
    requires Valid(m) && EpsRanked(m, rank) && 0 <= k < |m.arcs| && i < |s|
    decreases Left(s, i), EpsRank(s, i, k, rank), Steps(maxSuffix), 0
  {
    (set t, w | t in With(m.arcs[k], UNKNOWN_IDENTITY_STRING) && w in PrefixSearch(m, s, i + 1, t.toState, maxSuffix, rank) :: [s[i]] + w) +
    (set t, w | t in With(m.arcs[k], UNKNOWN_STRING) && w in PrefixSearch(m, s, i + 1, t.toState, maxSuffix, rank) :: [s[i]] + w)
  }

  /** Once s is consumed, every transition of k with one suffix step spent: its input string is prepended. */
  function SearchSuffixes(m: Machine, s: string, i: nat, k: int, maxSuffix: int, rank: seq<nat>): (r: set<string>)
    requires Valid(m) && EpsRanked(m, rank) && 0 <= k < |m.arcs| && i >= |s| && maxSuffix >= 1
    decreases Left(s, i), EpsRank(s, i, k, rank), Steps(maxSuffix), 0
  {
    set t, w | t in m.arcs[k] && w in PrefixSearch(m, s, i + |t.inSym|, t.toState, maxSuffix - 1, rank) :: t.inSym + w
  }

  /** prefixSearch(prefix, maxSuffix) as written: the search begins at state 0, whatever the start state. */
  function PrefixSearchFromZero(m: Machine, prefix: string, maxSuffix: int, rank: seq<nat>): (r: set<string>)
    requires Valid(m) && EpsRanked(m, rank) && 0 < |m.arcs|
    ensures forall w :: w in r ==> IsPrefix(prefix, w)
  {
    PrefixSearchExtends(m, prefix, 0, 0, maxSuffix, rank);
    PrefixSearch(m, prefix, 0, 0, maxSuffix, rank)
  }

  /**
   * prefixSearch(prefix, maxSuffix) begun at the start state, as apply
   * begins: every result extends the prefix, and an accepting start state
   * yields the prefix itself.
   */
  function PrefixSearchFromStart(m: Machine, prefix: string, maxSuffix: int, rank: seq<nat>): (r: set<string>)
    requires Valid(m) && EpsRanked(m, rank) && 0 <= m.start < |m.arcs|
    ensures forall w :: w in r ==> IsPrefix(prefix, w)
    ensures prefix == [] && m.accepting[m.start] ==> "" in r
  {
    PrefixSearchExtends(m, prefix, 0, m.start, maxSuffix, rank);
    PrefixSearch(m, prefix, 0, m.start, maxSuffix, rank)
  }

  // ---------------------------------------------------------------------
  // Properties

  /** A larger insertion bound finds at least the same strings. */
  lemma {:induction false} ApplyMonotone(m: Machine, s: string, i: nat, k: int, ins: int, maxIns: int, maxIns': int)
    requires Valid(m) && 0 <= k < |m.arcs| && maxIns <= maxIns'
    ensures Apply(m, s, i, k, ins, maxIns) <= Apply(m, s, i, k, ins, maxIns')
    decreases Left(s, i), Budget(ins, maxIns), 2
  {
    if ins < maxIns {
      EpsilonsMonotone(m, s, i, k, ins, maxIns, maxIns');
    }
    if i < |s| {
      if Prefixes(m, s, i) == [] {
        UnknownsMonotone(m, s, i, k, ins, maxIns, maxIns');
      } else {
        LiteralsMonotone(m, s, i, k, ins, maxIns, maxIns');
      }
    }
  }

  lemma {:induction false} EpsilonsMonotone(m: Machine, s: string, i: nat, k: int, ins: int, maxIns: int, maxIns': int)
    requires Valid(m) && 0 <= k < |m.arcs| && ins < maxIns <= maxIns'
    ensures ApplyEpsilons(m, s, i, k, ins, maxIns) <= ApplyEpsilons(m, s, i, k, ins, maxIns')
    decreases Left(s, i), Budget(ins, maxIns), 1
  {
    forall t, w | t in With(m.arcs[k], EPSILON_STRING) && w in Apply(m, s, i, t.toState, ins + 1, maxIns)
      ensures Emit(t.outSym) + w in ApplyEpsilons(m, s, i, k, ins, maxIns')
    {
      EpsilonStepMonotone(m, s, i, k, ins, maxIns, maxIns', t, w);
    }
  }

  /** One epsilon step, followed by a string found with the smaller bound, is taken with the larger one. */
  lemma {:induction false} EpsilonStepMonotone(m: Machine, s: string, i: nat, k: int, ins: int, maxIns: int, maxIns': int, t: Transition, w: string)
    requires Valid(m) && 0 <= k < |m.arcs| && ins < maxIns <= maxIns'
    requires t in With(m.arcs[k], EPSILON_STRING) && w in Apply(m, s, i, t.toState, ins + 1, maxIns)
    ensures Emit(t.outSym) + w in ApplyEpsilons(m, s, i, k, ins, maxIns')
    decreases Left(s, i), Budget(ins, maxIns), 0
  {
    ApplyMonotone(m, s, i, t.toState, ins + 1, maxIns, maxIns');
  }

  lemma {:induction false} LiteralsMonotone(m: Machine, s: string, i: nat, k: int, ins: int, maxIns: int, maxIns': int)
    requires Valid(m) && 0 <= k < |m.arcs| && i < |s| && maxIns <= maxIns'
    ensures ApplyLiterals(m, s, i, k, ins, maxIns) <= ApplyLiterals(m, s, i, k, ins, maxIns')
    decreases Left(s, i), Budget(ins, maxIns), 1
  {
    forall x | x in ApplyLiterals(m, s, i, k, ins, maxIns)
      ensures x in ApplyLiterals(m, s, i, k, ins, maxIns')
    {
      var p, t, w :| p in Prefixes(m, s, i) && t in With(m.arcs[k], p) && w in Apply(m, s, i + |p|, t.toState, 0, maxIns) && x == Emit(t.outSym) + w;
      LiteralStepMonotone(m, s, i, k, ins, maxIns, maxIns', p, t, w);
    }
  }

  /** One literal step, followed by a string found with the smaller bound, is taken with the larger one. */
  lemma {:induction false} LiteralStepMonotone(m: Machine, s: string, i: nat, k: int, ins: int, maxIns: int, maxIns': int, p: string, t: Transition, w: string)
    requires Valid(m) && 0 <= k < |m.arcs| && i < |s| && maxIns <= maxIns'
    requires p in Prefixes(m, s, i) && t in With(m.arcs[k], p) && w in Apply(m, s, i + |p|, t.toState, 0, maxIns)
    ensures Emit(t.outSym) + w in ApplyLiterals(m, s, i, k, ins, maxIns')
    decreases Left(s, i), Budget(ins, maxIns), 0
  {
    ApplyMonotone(m, s, i + |p|, t.toState, 0, maxIns, maxIns');
  }

  lemma {:induction false} UnknownsMonotone(m: Machine, s: string, i: nat, k: int, ins: int, maxIns: int, maxIns': int)
    requires Valid(m) && 0 <= k < |m.arcs| && i < |s| && maxIns <= maxIns'
    ensures ApplyUnknowns(m, s, i, k, ins, maxIns) <= ApplyUnknowns(m, s, i, k, ins, maxIns')
    decreases Left(s, i), Budget(ins, maxIns), 1
  {
    forall t | t in m.arcs[k] {
      ApplyMonotone(m, s, i + 1, t.toState, 0, maxIns, maxIns');
    }
  }

  /** A transition of k whose input is a table symbol occurring at i, followed by a string of its target, gives a string of k. */
  lemma ApplyFollowsLiteral(m: Machine, s: string, i: nat, k: int, ins: int, maxIns: int, t: Transition, w: string)
    requires Valid(m) && 0 <= k < |m.arcs| && i < |s|
    requires t in m.arcs[k] && t.inSym in m.table && |t.inSym| > 0 && StartsWithAt(s, t.inSym, i)
    requires w in Apply(m, s, i + |t.inSym|, t.toState, 0, maxIns)
    ensures Emit(t.outSym) + w in Apply(m, s, i, k, ins, maxIns)
  {
    FoundAt(m, s, i, t.inSym);
    LiteralStep(m, s, i, k, ins, maxIns, t.inSym, t, w);
  }

  /** A non-empty table entry occurring at i is among the symbols getPrefixes finds there. */
  lemma FoundAt(m: Machine, s: string, i: nat, p: string)
    requires i < |s| && p in m.table && |p| > 0 && StartsWithAt(s, p, i)
    ensures p in Prefixes(m, s, i)
  {
    PrefixesSpec(m, s, i);
  }

  /** One transition of the symbol p found at i, followed by a string of its target, gives a string of k. */
  lemma LiteralStep(m: Machine, s: string, i: nat, k: int, ins: int, maxIns: int, p: string, t: Transition, w: string)
    requires Valid(m) && 0 <= k < |m.arcs| && i < |s|
    requires p in Prefixes(m, s, i) && t in m.arcs[k] && t.inSym == p
    requires w in Apply(m, s, i + |p|, t.toState, 0, maxIns)
    ensures Emit(t.outSym) + w in Apply(m, s, i, k, ins, maxIns)
  {
    assert t in With(m.arcs[k], p);
    assert Emit(t.outSym) + w in ApplyLiterals(m, s, i, k, ins, maxIns);
  }

  /** An epsilon transition of k, taken while fewer than maxIns were taken in a row, followed by a string of its target, gives a string of k. */
  lemma ApplyFollowsEpsilon(m: Machine, s: string, i: nat, k: int, ins: int, maxIns: int, t: Transition, w: string)
    requires Valid(m) && 0 <= k < |m.arcs| && ins < maxIns
    requires t in m.arcs[k] && t.inSym == EPSILON_STRING
    requires w in Apply(m, s, i, t.toState, ins + 1, maxIns)
    ensures Emit(t.outSym) + w in Apply(m, s, i, k, ins, maxIns)
  {
    assert Emit(t.outSym) + w in ApplyEpsilons(m, s, i, k, ins, maxIns);
  }

  /** Where getPrefixes finds no symbol at i, an unknown-identity transition of k copies s[i] before a string of its target. */
  lemma ApplyFollowsUnknownIdentity(m: Machine, s: string, i: nat, k: int, ins: int, maxIns: int, t: Transition, w: string)
    requires Valid(m) && 0 <= k < |m.arcs| && i < |s|
    requires Prefixes(m, s, i) == []
    requires t in m.arcs[k] && t.inSym == UNKNOWN_IDENTITY_STRING
    requires w in Apply(m, s, i + 1, t.toState, 0, maxIns)
    ensures [s[i]] + w in Apply(m, s, i, k, ins, maxIns)
  {
    assert [s[i]] + w in ApplyUnknowns(m, s, i, k, ins, maxIns);
  }

  /** A transition from the start state reading the whole input, a table symbol, into an accepting state: apply yields its output. */
  lemma ApplyOneArc(m: Machine, input: string, maxIns: int, t: Transition)
    requires Valid(m) && 0 <= m.start < |m.arcs|
    requires t in m.arcs[m.start] && t.inSym == input && input in m.table && input != []
    requires m.accepting[t.toState]
    ensures Emit(t.outSym) in ApplyTo(m, input, maxIns)
  {
    assert "" in Apply(m, input, |input|, t.toState, 0, maxIns);
    assert StartsWithAt(input, input, 0) by { assert input[0..|input|] == input; }
    ApplyFollowsLiteral(m, input, 0, m.start, 0, maxIns, t, "");
    assert Emit(t.outSym) + "" == Emit(t.outSym);
  }

  /** A string p occurring at i, followed by an extension of what follows it, extends s[i..]. */
  lemma PrependMatched(s: string, i: nat, p: string, w: string)
    requires StartsWithAt(s, p, i) && IsPrefix(s[i + |p|..], w)
    ensures IsPrefix(s[i..], p + w)
  {
    assert s[i..] == p + s[i + |p|..];
  }

  /** Every string prefixSearch finds from position i extends the input left at i. */
  lemma {:induction false} PrefixSearchExtends(m: Machine, s: string, i: nat, k: int, maxSuffix: int, rank: seq<nat>)
    requires Valid(m) && EpsRanked(m, rank) && 0 <= k < |m.arcs| && i <= |s|
    ensures forall w :: w in PrefixSearch(m, s, i, k, maxSuffix, rank) ==> IsPrefix(s[i..], w)
    decreases Left(s, i), EpsRank(s, i, k, rank), Steps(maxSuffix), 2
  {
    if i < |s| {
      EpsilonsExtend(m, s, i, k, maxSuffix, rank);
      if Prefixes(m, s, i) == [] {
        UnknownsExtend(m, s, i, k, maxSuffix, rank);
      } else {
        LiteralsExtend(m, s, i, k, maxSuffix, rank);
      }
    }
  }

  lemma {:induction false} EpsilonsExtend(m: Machine, s: string, i: nat, k: int, maxSuffix: int, rank: seq<nat>)
    requires Valid(m) && EpsRanked(m, rank) && 0 <= k < |m.arcs| && i < |s|
    ensures forall w :: w in SearchEpsilons(m, s, i, k, maxSuffix, rank) ==> IsPrefix(s[i..], w)
    decreases Left(s, i), EpsRank(s, i, k, rank), Steps(maxSuffix), 1
  {
    forall t | t in With(m.arcs[k], EPSILON_STRING) {
      PrefixSearchExtends(m, s, i, t.toState, maxSuffix, rank);
    }
  }

  lemma {:induction false} LiteralsExtend(m: Machine, s: string, i: nat, k: int, maxSuffix: int, rank: seq<nat>)
    requires Valid(m) && EpsRanked(m, rank) && 0 <= k < |m.arcs| && i < |s|
    ensures forall w :: w in SearchLiterals(m, s, i, k, maxSuffix, rank) ==> IsPrefix(s[i..], w)
    decreases Left(s, i), EpsRank(s, i, k, rank), Steps(maxSuffix), 1
  {
    forall p, t, w | p in Prefixes(m, s, i) && t in With(m.arcs[k], p) && w in PrefixSearch(m, s, i + |p|, t.toState, maxSuffix, rank)
      ensures IsPrefix(s[i..], p + w)
    {
      LiteralStepExtends(m, s, i, k, maxSuffix, rank, p, t, w);
    }
  }

  /** A symbol occurring at i, followed by a string found after it, extends s[i..]. */
  lemma {:induction false} LiteralStepExtends(m: Machine, s: string, i: nat, k: int, maxSuffix: int, rank: seq<nat>, p: string, t: Transition, w: string)
    requires Valid(m) && EpsRanked(m, rank) && 0 <= k < |m.arcs| && i < |s|
    requires p in Prefixes(m, s, i) && t in With(m.arcs[k], p) && w in PrefixSearch(m, s, i + |p|, t.toState, maxSuffix, rank)
    ensures IsPrefix(s[i..], p + w)
    decreases Left(s, i), EpsRank(s, i, k, rank), Steps(maxSuffix), 0
  {
    PrefixSearchExtends(m, s, i + |p|, t.toState, maxSuffix, rank);
    PrefixesSpec(m, s, i);
    PrependMatched(s, i, p, w);
  }

  lemma {:induction false} UnknownsExtend(m: Machine, s: string, i: nat, k: int, maxSuffix: int, rank: seq<nat>)
    requires Valid(m) && EpsRanked(m, rank) && 0 <= k < |m.arcs| && i < |s|
    ensures forall w :: w in SearchUnknowns(m, s, i, k, maxSuffix, rank) ==> IsPrefix(s[i..], w)
    decreases Left(s, i), EpsRank(s, i, k, rank), Steps(maxSuffix), 1
  {
    forall t, w | t in m.arcs[k] && w in PrefixSearch(m, s, i + 1, t.toState, maxSuffix, rank)
      ensures IsPrefix(s[i..], [s[i]] + w)
    {
      PrefixSearchExtends(m, s, i + 1, t.toState, maxSuffix, rank);
      PrependMatched(s, i, [s[i]], w);
    }
  }

  /** A machine whose start state 1 accepts while state 0 does not, with no transitions. */
  const StartIsOne := Machine(1, [false, true], [[], []], [])

  /** With the empty prefix, the search from state 0 misses what the search from the start state finds. */
  lemma PrefixSearchMissesStart()
    ensures "" !in PrefixSearchFromZero(StartIsOne, "", MAX_SUFFIX, [0, 0])
    ensures "" in PrefixSearchFromStart(StartIsOne, "", MAX_SUFFIX, [0, 0])
  {
    assert SearchSuffixes(StartIsOne, "", 0, 0, MAX_SUFFIX, [0, 0]) == {};
  }
}
