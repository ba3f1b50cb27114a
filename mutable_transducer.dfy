/**
 * MutableCompactTransducer: the editable automaton of the live generation.
 * Each state owns a list of packed transition words kept in ascending
 * order, and an accepting flag; states are numbered densely from 0.
 */
module MutableCompact {
  import opened JavaWords
  import opened Packing
  import opened Collections
  import opened Options
  import opened SymbolTable
  import opened Iterations
  import opened EpsilonRemoval
  import opened Determinization

  /** The total number of words in a list of lists, as the stream of sizes sums it. */
  function SumSizes(T: seq<seq<Long>>): nat
  {
    if |T| == 0 then 0 else SumSizes(T[..|T| - 1]) + |T[|T| - 1]|
  }

  /** All words of all states, state after state. */
  function Flatten(T: seq<seq<Long>>): seq<Long>
  {
    if |T| == 0 then [] else Flatten(T[..|T| - 1]) + T[|T| - 1]
  }

  lemma {:induction false} SumSizesFlatten(T: seq<seq<Long>>)
    ensures SumSizes(T) == |Flatten(T)|
  {
    if |T| > 0 {
      SumSizesFlatten(T[..|T| - 1]);
    }
  }

  /** The state walk of a transducer: start, then per state its flag and the reported ids of its words. */
  function WalkOf(start: Int, T: seq<seq<Long>>, A: seq<bool>): (r: StateIteration)
    requires |A| == |T|
    ensures r.start == start && |r.states| == |T|
    ensures forall k :: 0 <= k < |T| ==> r.states[k] == IteratedState(A[k], ArcsOf(T[k]))
  {
    StateIteration(start, seq(|T|, k requires 0 <= k < |T| => IteratedState(A[k], ArcsOf(T[k]))))
  }

  /** The lists the iterator constructor builds: per reported state its packed arcs, sorted. */
  function StateLists(states: seq<IteratedState>): (r: seq<seq<Long>>)
    ensures |r| == |states|
  {
    if |states| == 0 then [] else StateLists(states[..|states| - 1]) + [Sort(PackArcs(states[|states| - 1].arcs))]
  }

  /** The flags the iterator constructor builds: per reported state its accepting(). */
  function StateFlags(states: seq<IteratedState>): (r: seq<bool>)
    ensures |r| == |states|
  {
    if |states| == 0 then [] else StateFlags(states[..|states| - 1]) + [states[|states| - 1].accepting]
  }

  /** State k's list holds the packed words of state k's reported arcs, duplicates kept, in ascending order; its flag is state k's. */
  lemma {:induction false} StateListsIndex(states: seq<IteratedState>, k: int)
    requires 0 <= k < |states|
    ensures StateLists(states)[k] == Sort(PackArcs(states[k].arcs)) && StateFlags(states)[k] == states[k].accepting
    ensures Sorted(StateLists(states)[k]) && multiset(StateLists(states)[k]) == multiset(PackArcs(states[k].arcs))
  {
    if k < |states| - 1 {
      StateListsIndex(states[..|states| - 1], k);
    } else {
      SortSpec(PackArcs(states[k].arcs));
    }
  }

  /** Every list the iterator constructor builds is sorted. */
  lemma StateListsSorted(states: seq<IteratedState>)
    ensures forall k :: 0 <= k < |states| ==> Sorted(StateLists(states)[k])
  {
    forall k | 0 <= k < |states|
      ensures Sorted(StateLists(states)[k])
    {
      StateListsIndex(states, k);
    }
  }

  /**
   * Why RemoveEpsilons asks for strictly ascending lists: in a sorted list
   * holding the epsilon:epsilon word (0, 0, 0) three times, binarySearch
   * lands on the middle copy, and the walk that deletes epsilon:epsilon
   * words only moves forward from there, so the first copy survives.
   */
  lemma DuplicateEpsilonEscapesScan()
    ensures var xs: seq<Long> := [Key(0), Key(0), Key(0)];
      Sorted(xs) && !Increasing(xs) && IsEpsilonTransition(xs[0], 0) && BinarySearch(xs, Key(0)) == 1
  {
    KeyValue(0);
    var k := Key(0);
    var xs: seq<Long> := [k, k, k];
    var cmps := LongCompares(xs, k);
    assert cmps[1] == 0;
    assert Search(cmps, 0, 2) == 1;
    assert !(xs[0] < xs[1]);
  }

  class MutableCompactTransducer {
    var alphabet: Alphabet
    var transitions: seq<seq<Long>>
    var accepting: seq<bool>
    var start: int
    /** The id addState hands out next. */
    var s: int

    /** One flag per state, and every state's words in ascending order. */
    predicate Valid()
      reads this
    {
      |accepting| == |transitions| && forall k :: 0 <= k < |transitions| ==> Sorted(transitions[k])
    }

    /** The counter names the next state: true after the no-argument constructor and after determinize. */
    predicate Counted()
      reads this
    {
      s == |transitions|
    }

    /** A fresh transducer: the reserved alphabet and one non-accepting start state 0 without transitions. */
    constructor ()
      ensures fresh(alphabet) && alphabet.Valid() && alphabet.id2sym == RESERVED
      ensures transitions == [[]] && accepting == [false] && start == 0
      ensures Valid() && Counted()
    {
      alphabet := new Alphabet();
      transitions := [];
      accepting := [];
      s := 0;
      new;
      start := AddState(false);
    }

    /**
     * MutableCompactTransducer(StateIterator): copies the start state, takes
     * the iterator's alphabet object and, state by state, packs the
     * reported arcs and sorts them, keeping duplicates.  The counter s keeps
     * its initial 0.
     */
    constructor FromIterator(iter: StateIteration, alph: Alphabet)
      ensures alphabet == alph && start == iter.start && s == 0
      ensures transitions == StateLists(iter.states) && accepting == StateFlags(iter.states)
      ensures Valid()
    {
      start := iter.start;
      alphabet := alph;
      s := 0;
      var trans, acc := ReadStates(iter.states);
      transitions := trans;
      accepting := acc;
      new;
      StateListsSorted(iter.states);
    }

    /** The loop of the iterator constructor: per reported state its flag and its sorted packed arcs. */
    static method ReadStates(states: seq<IteratedState>) returns (trans: seq<seq<Long>>, acc: seq<bool>)
      ensures trans == StateLists(states) && acc == StateFlags(states)
    {
      trans := [];
      acc := [];
      var k := 0;
      while k < |states|
        invariant 0 <= k <= |states|
        invariant trans == StateLists(states[..k]) && acc == StateFlags(states[..k])
      {
        assert states[..k + 1][..k] == states[..k];
        acc := acc + [states[k].accepting];
        var stateTrans := PackState(states[k].arcs);
        stateTrans := SortWords(stateTrans);
        trans := trans + [stateTrans];
        k := k + 1;
      }
      assert states[..k] == states;
    }

    /** The inner loop of the iterator constructor: one word per reported arc, in reporting order. */
    static method PackState(arcs: seq<Arc>) returns (stateTrans: seq<Long>)
      ensures stateTrans == PackArcs(arcs)
    {
      stateTrans := [];
      var t := 0;
      while t < |arcs|
        invariant 0 <= t <= |arcs| && |stateTrans| == t
        invariant forall j :: 0 <= j < t ==> stateTrans[j] == MakeTransition(arcs[j].inId, arcs[j].outId, arcs[j].toId)
      {
        stateTrans := stateTrans + [MakeTransition(arcs[t].inId, arcs[t].outId, arcs[t].toId)];
        t := t + 1;
      }
    }

    /** Collections.sort on one state's list. */
    static method SortWords(xs: seq<Long>) returns (r: seq<Long>)
      ensures r == Sort(xs) && Sorted(r)
    {
      SortSpec(xs);
      r := Sort(xs);
    }

    /** addState: append an empty state with the given flag and hand out the counter. */
    method AddState(acc: bool) returns (id: int)
      modifies this
      ensures transitions == old(transitions) + [[]] && accepting == old(accepting) + [acc]
      ensures id == old(s) && s == old(s) + 1
      ensures alphabet == old(alphabet) && start == old(start)
      ensures old(Valid()) ==> Valid()
      ensures old(Counted()) ==> Counted() && id == |transitions| - 1
    {
      transitions := transitions + [[]];
      accepting := accepting + [acc];
      id := s;
      s := s + 1;
    }

    method SetAccepting(stateId: int, acc: bool)
      modifies this
      requires 0 <= stateId < |accepting|
      ensures accepting == old(accepting)[stateId := acc]
      ensures transitions == old(transitions) && alphabet == old(alphabet) && start == old(start) && s == old(s)
      ensures old(Valid()) ==> Valid()
    {
      accepting := accepting[stateId := acc];
    }

    /**
     * addTransition(int, CompactTransition): insert the word at its
     * binary-search position unless it is already there.
     */
    method AddTransitionWord(from: int, transition: Long)
      modifies this
      requires 0 <= from < |transitions|
      ensures transitions == old(transitions)[from := AddIfAbsent(old(transitions)[from], transition)]
      ensures accepting == old(accepting) && alphabet == old(alphabet) && start == old(start) && s == old(s)
      ensures old(Valid()) ==> Valid()
    {
      var trans := transitions[from];
      var i := BinarySearch(trans, transition);
      if i < 0 {
        i := -(i + 1);
        transitions := transitions[from := InsertAt(trans, i, transition)];
      }
      if old(Valid()) {
        AddIfAbsentSorted(old(transitions)[from], transition);
      }
    }

    /**
     * addTransition(int, String, String, int): intern both strings, then
     * add the packed word.
     */
    method AddTransition(from: int, inSym: string, outSym: string, to: Int)
      modifies this, alphabet
      requires alphabet.Inverse() && 0 <= from < |transitions| && |alphabet.id2sym| + 2 <= TWO31
      ensures alphabet == old(alphabet) && alphabet.Inverse() && (old(alphabet.Valid()) ==> alphabet.Valid())
      ensures var (t1, i1) := Intern(old(alphabet.id2sym), inSym);
        var (t2, i2) := Intern(t1, outSym);
        alphabet.id2sym == t2 && 0 <= i1 < TWO31 && 0 <= i2 < TWO31 &&
        transitions == old(transitions)[from := AddIfAbsent(old(transitions)[from], MakeTransition(i1, i2, to))]
      ensures accepting == old(accepting) && start == old(start) && s == old(s)
      ensures old(Valid()) ==> Valid()
    {
      alphabet.DistinctTable();
      InternSpec(alphabet.id2sym, inSym);
      var i1 := alphabet.GetIdOrCreate(inSym);
      alphabet.DistinctTable();
      InternSpec(alphabet.id2sym, outSym);
      var i2 := alphabet.GetIdOrCreate(outSym);
      AddTransitionWord(from, MakeTransition(i1, i2, to));
    }

    /** addTransitions: add each word in turn. */
    method AddTransitions(from: int, words: seq<Long>)
      modifies this
      requires 0 <= from < |transitions|
      ensures transitions == old(transitions)[from := AddAll(old(transitions)[from], words)]
      ensures accepting == old(accepting) && alphabet == old(alphabet) && start == old(start) && s == old(s)
      ensures old(Valid()) ==> Valid()
    {
      var k := 0;
      while k < |words|
        invariant 0 <= k <= |words| && |transitions| == |old(transitions)|
        invariant transitions == old(transitions)[from := AddAll(old(transitions)[from], words[..k])]
        invariant accepting == old(accepting) && alphabet == old(alphabet) && start == old(start) && s == old(s)
        invariant old(Valid()) ==> Valid()
      {
        assert words[..k + 1][..k] == words[..k];
        AddTransitionWord(from, words[k]);
        k := k + 1;
      }
      assert words[..k] == words;
    }

    function GetStartState(): int
      reads this
    {
      start
    }

    function IsAccepting(stateId: int): bool
      reads this
      requires 0 <= stateId < |accepting|
    {
      accepting[stateId]
    }

    function NOfStates(): int
      reads this
    {
      |transitions|
    }

    /** nOfTransitions: the sizes of the state lists summed, which is the number of stored words. */
    function NOfTransitions(): (n: int)
      reads this
      ensures n == |Flatten(transitions)|
    {
      SumSizesFlatten(transitions);
      SumSizes(transitions)
    }

    /**
     * The walk of MutableCompactTransducerStateIterator: the start state,
     * then every state in id order with its flag and the ids of its words
     * in stored order.  Its alphabet is a copy of this one's table.
     */
    function Walk(): (r: StateIteration)
      reads this
      requires |accepting| == |transitions| && -TWO31 <= start < TWO31
      ensures r == WalkOf(start, transitions, accepting)
    {
      WalkOf(start, transitions, accepting)
    }

    // -------------------------------------------------------------------
    // TransitionIterator

    /**
     * getTransitionIterator(s, statIdx), drained: the words of the state
     * whose input field is the id of the symbol s, in stored order, each
     * reported with s as input and with s again for an identity output.  An
     * id from 2^15 up reads back negative from the word, hence SignedIn.  A
     * symbol the alphabet does not know has no transitions.
     */
    method TransitionsFor(sym: string, statIdx: int) returns (r: seq<Transition>)
      requires alphabet.Inverse() && |alphabet.id2sym| <= TWO16
      requires 0 <= statIdx < |transitions| && Sorted(transitions[statIdx])
      requires sym in alphabet.sym2id ==>
        Spelled(WordsWithInput(transitions[statIdx], SignedIn(alphabet.sym2id[sym])), alphabet.id2sym, false)
      ensures sym in alphabet.sym2id ==>
        r == Reports(WordsWithInput(transitions[statIdx], SignedIn(alphabet.sym2id[sym])), sym, false, alphabet.id2sym, alphabet.idIdx)
      ensures sym !in alphabet.sym2id ==> r == []
    {
      r := [];
      if alphabet.Contains(sym) {
        var ci := alphabet.sym2id[sym];
        r := ReportRun(transitions[statIdx], ci, sym, alphabet.id2sym, alphabet.idIdx);
      }
    }

    /**
     * The iterator for one symbol of id `ci` over a sorted list: from the
     * first word not below (long) ci << 48 on, while the masked input field equals
     * that key, one report per word.
     */
    static method ReportRun(stateTrans: seq<Long>, ci: Int, inC: string, table: seq<string>, identity: int) returns (r: seq<Transition>)
      requires Sorted(stateTrans) && 0 <= ci < TWO16 && Spelled(WordsWithInput(stateTrans, SignedIn(ci)), table, false)
      ensures r == Reports(WordsWithInput(stateTrans, SignedIn(ci)), inC, false, table, identity)
    {
      var inSym := Key(ci);
      var lo := FirstAtLeast(stateTrans, inSym);
      var hi := RunEnd(stateTrans, lo, inSym);
      SortedRun(stateTrans, ci, lo, hi);
      r := ReportWords(stateTrans[lo..hi], inC, false, table, identity);
    }

    /**
     * Where the iterator for one symbol starts: binarySearch for the key,
     * then back over equal words, so every earlier word is smaller and
     * every later one at least the key.
     */
    static method FirstAtLeast(xs: seq<Long>, key: Long) returns (i: int)
      requires Sorted(xs)
      ensures 0 <= i <= |xs|
      ensures forall k :: 0 <= k < i ==> xs[k] < key
      ensures forall k :: i <= k < |xs| ==> xs[k] >= key
    {
      BinarySearchSpec(xs, key);
      i := BinarySearch(xs, key);
      if i < 0 {
        i := -(i + 1);
      } else {
        while i > 0 && xs[i - 1] == key
          invariant 0 <= i < |xs| && xs[i] == key
        {
          i := i - 1;
        }
        assert i > 0 ==> xs[i - 1] < key;
      }
    }

    /** hasNext() of the iterator for one symbol: the run of words from lo on whose masked input field is the key. */
    static method RunEnd(xs: seq<Long>, lo: int, key: Long) returns (hi: int)
      requires 0 <= lo <= |xs|
      ensures lo <= hi <= |xs|
      ensures forall k :: lo <= k < hi ==> ReadsAt(xs, k, key)
      ensures hi < |xs| ==> !ReadsAt(xs, hi, key)
    {
      hi := lo;
      while hi < |xs| && And(xs[hi], GET_IN_SYM) == key
        invariant lo <= hi <= |xs|
        invariant forall k :: lo <= k < hi ==> ReadsAt(xs, k, key)
      {
        hi := hi + 1;
      }
    }

    /** next() over the words an iterator walks, one Transition per word, in order. */
    static method ReportWords(ws: seq<Long>, inC: string, all: bool, table: seq<string>, identity: int) returns (r: seq<Transition>)
      requires Spelled(ws, table, all)
      ensures r == Reports(ws, inC, all, table, identity)
    {
      r := [];
      var i := 0;
      while i < |ws|
        invariant 0 <= i <= |ws|
        invariant Spelled(ws[..i], table, all)
        invariant r == Reports(ws[..i], inC, all, table, identity)
      {
        ReportsStep(ws, i, inC, all, table, identity);
        r := r + [Report(ws[i], inC, all, table, identity)];
        i := i + 1;
      }
      assert ws[..i] == ws;
    }

    /**
     * getTransitionIterator(statIdx), drained: every word of the state in
     * stored order, with the input spelled from its id and an identity
     * output reported as the empty string.
     */
    method AllTransitions(statIdx: int) returns (r: seq<Transition>)
      requires 0 <= statIdx < |transitions| && Spelled(transitions[statIdx], alphabet.id2sym, true)
      ensures r == Reports(transitions[statIdx], "", true, alphabet.id2sym, alphabet.idIdx)
    {
      r := ReportWords(transitions[statIdx], "", true, alphabet.id2sym, alphabet.idIdx);
    }

    // -------------------------------------------------------------------
    // removeEpsilons

    /**
     * removeEpsilons(): run removeEpsilons(int) on every state not yet
     * done, in id order, marking it and the states it found as done.  After
     * it no epsilon:epsilon word is left; each state holds its own other
     * words and those of every state it reached by epsilon:epsilon words,
     * and accepts iff it or one of those states accepted.  rank witnesses
     * that the epsilon:epsilon graph is acyclic.
     */
    method RemoveEpsilons(ghost rank: seq<nat>)
      modifies this
      requires alphabet.epsIdx == 0 && |accepting| == |transitions|
      requires WellFormed(transitions) && Ranked(transitions, rank)
      ensures |transitions| == |old(transitions)| && |accepting| == |old(accepting)| && WellFormed(transitions)
      ensures EpsilonsRemoved(transitions, accepting, old(transitions), old(accepting), rank)
      ensures alphabet == old(alphabet) && start == old(start) && s == old(s)
    {
      ghost var T0, A0 := transitions, accepting;
      InvInit(T0, A0, rank);
      var done: set<int> := {};
      ghost var P: set<int> := {};
      var state := 0;
      while state < |transitions|
        invariant 0 <= state <= |transitions| && Inv(transitions, accepting, T0, A0, rank, P)
        invariant done <= P && forall u :: 0 <= u < state ==> u in P
        invariant forall u :: 0 <= u < |transitions| && u !in P ==> transitions[u] == T0[u]
        invariant alphabet == old(alphabet) && start == old(start) && s == old(s)
      {
        if state !in done {
          done := done + {state};
          UntouchedIntact(transitions, T0, rank, P, state);
          var reachables;
          reachables, P := RemoveEpsilonsFrom(state, T0, A0, rank, P);
          done := done + reachables;
        }
        state := state + 1;
      }
      RemovalComplete(transitions, accepting, T0, A0, rank, P);
    }

    /**
     * removeEpsilons(int): delete the state's epsilon:epsilon words, each
     * after recursing into its target, then copy the flags and words of all
     * states found.  T0, A0 are the lists and flags before the removal
     * began, P the states already processed, and rank witnesses that the
     * original epsilon:epsilon graph is acyclic, as the recursion, which has
     * no visited guard, needs.
     */
    method RemoveEpsilonsFrom(state: int, ghost T0: seq<seq<Long>>, ghost A0: seq<bool>, ghost rank: seq<nat>, ghost P: set<int>)
      returns (reachables: set<int>, ghost P': set<int>)
      modifies this
      requires alphabet.epsIdx == 0
      requires Inv(transitions, accepting, T0, A0, rank, P) && 0 <= state < |transitions|
      requires forall u :: 0 <= u < |transitions| && u !in P && rank[u] <= rank[state] ==> EpsIntact(transitions, T0, u)
      ensures Inv(transitions, accepting, T0, A0, rank, P')
      ensures P <= P' && state in P'
      ensures forall u :: u in P' ==> u in P || rank[u] <= rank[state]
      ensures forall u :: 0 <= u < |transitions| && u !in P' ==> transitions[u] == old(transitions)[u] && accepting[u] == old(accepting)[u]
      ensures reachables <= P' && forall x :: x in reachables ==> x in Reach(T0, rank, state)
      ensures alphabet == old(alphabet) && start == old(start) && s == old(s)
      decreases rank[state], 3
    {
      reachables, P' := DeleteEpsilonWords(state, T0, A0, rank, P);
      forall x | x in reachables
        ensures x != state
      {
        ReachBelow(T0, rank, state, x);
      }
      CopyReachables(state, reachables, T0, A0, rank, P');
      FinishStep(transitions, accepting, T0, A0, rank, P', state);
      P' := P' + {state};
    }

    /**
     * The first half of removeEpsilons(int): find the first epsilon-input
     * word by binary search and walk the epsilon-input block, deleting each
     * epsilon:epsilon word after recursing into its target.
     */
    method DeleteEpsilonWords(state: int, ghost T0: seq<seq<Long>>, ghost A0: seq<bool>, ghost rank: seq<nat>, ghost P: set<int>)
      returns (reachables: set<int>, ghost P': set<int>)
      modifies this
      requires alphabet.epsIdx == 0
      requires Inv(transitions, accepting, T0, A0, rank, P) && 0 <= state < |transitions|
      requires forall u :: 0 <= u < |transitions| && u !in P && rank[u] <= rank[state] ==> EpsIntact(transitions, T0, u)
      ensures Inv(transitions, accepting, T0, A0, rank, P') && EpsFree(transitions[state])
      ensures P <= P' && forall u :: u in P' ==> u in P || rank[u] < rank[state]
      ensures forall u :: 0 <= u < |transitions| && u != state && u !in P' ==> transitions[u] == old(transitions)[u] && accepting[u] == old(accepting)[u]
      ensures accepting[state] == old(accepting)[state]
      ensures state in P ==> transitions[state] == old(transitions)[state] && reachables == {}
      ensures reachables <= P' && forall x :: x in reachables ==> x in Reach(T0, rank, state)
      ensures state !in P ==> forall w :: w in T0[state] && EpsEps(w) ==> ToId(w) in reachables
      ensures alphabet == old(alphabet) && start == old(start) && s == old(s)
      decreases rank[state], 2
    {
      ghost var Te, Ae := transitions, accepting;
      reachables := {};
      P' := P;
      KeyValue(alphabet.epsIdx);
      var i := BinarySearch(transitions[state], Key(alphabet.epsIdx));
      if i < 0 {
        i := -(i + 1);
      }
      ScanStart(transitions, accepting, T0, A0, rank, P, state);
      while i < |transitions[state]|
        invariant Scanning(transitions, accepting, T0, A0, rank, P, P', Te, Ae, state, i, reachables)
        invariant alphabet == old(alphabet) && start == old(start) && s == old(s)
        decreases |transitions[state]| - i
      {
        var stop;
        i, reachables, P', stop := ScanWord(state, i, T0, A0, rank, P, P', Te, Ae, reachables);
        if stop {
          break;
        }
      }
      ScanEnd(transitions, accepting, T0, A0, rank, P, P', Te, Ae, state, i, reachables);
    }

    /**
     * One round of the walk over the epsilon-input block: an
     * epsilon:epsilon word is dropped (its target processed first), another
     * epsilon-input word is stepped over, and a word past the block stops
     * the walk.
     */
    method ScanWord(state: int, i: int, ghost T0: seq<seq<Long>>, ghost A0: seq<bool>, ghost rank: seq<nat>, ghost P: set<int>,
                    ghost P': set<int>, ghost Te: seq<seq<Long>>, ghost Ae: seq<bool>, reachables: set<int>)
      returns (i': int, reachables': set<int>, ghost P'': set<int>, stop: bool)
      modifies this
      requires alphabet.epsIdx == 0
      requires Scanning(transitions, accepting, T0, A0, rank, P, P', Te, Ae, state, i, reachables) && i < |transitions[state]|
      ensures Scanning(transitions, accepting, T0, A0, rank, P, P'', Te, Ae, state, i', reachables')
      ensures stop ==> forall k :: i' <= k < |transitions[state]| ==> !EpsEps(transitions[state][k])
      ensures !stop ==> |transitions[state]| - i' < |old(transitions)[state]| - i
      ensures alphabet == old(alphabet) && start == old(start) && s == old(s)
      decreases rank[state], 1
    {
      i', reachables', P'', stop := i, reachables, P', false;
      var trans := transitions[state][i];
      if InId(trans) == alphabet.epsIdx {
        if OutId(trans) == alphabet.epsIdx {
          ScanIntact(transitions, accepting, T0, A0, rank, P, P', Te, Ae, state, i, reachables);
          ghost var Tb, Ab := transitions, accepting;
          var found;
          found, P'' := DropEpsilonWord(state, i, T0, A0, rank, P');
          ScanDrop(Tb, Ab, T0, A0, rank, P, P', Te, Ae, state, i, reachables, transitions, accepting, P'', found);
          reachables' := reachables + found;
        } else {
          ScanSkip(transitions, accepting, T0, A0, rank, P, P', Te, Ae, state, i, reachables);
          i' := i + 1;
        }
      } else {
        PastEpsilonBlock(transitions[state], i);
        stop := true;
      }
    }

    /**
     * One deletion of removeEpsilons(int): recurse into the target of the
     * epsilon:epsilon word at index i, then delete the word.  found holds the
     * target and every state the recursion found.
     */
    method DropEpsilonWord(state: int, i: int, ghost T0: seq<seq<Long>>, ghost A0: seq<bool>, ghost rank: seq<nat>, ghost P: set<int>)
      returns (found: set<int>, ghost P': set<int>)
      modifies this
      requires alphabet.epsIdx == 0
      requires Inv(transitions, accepting, T0, A0, rank, P) && 0 <= state < |transitions|
      requires 0 <= i < |transitions[state]| && EpsEps(transitions[state][i])
      requires forall u :: 0 <= u < |transitions| && u !in P && rank[u] < rank[state] ==> EpsIntact(transitions, T0, u)
      ensures Dropped(old(transitions), old(accepting), T0, A0, rank, P, state, i, transitions, accepting, P', found)
      ensures |transitions[state]| == |old(transitions)[state]| - 1
      ensures alphabet == old(alphabet) && start == old(start) && s == old(s)
      decreases rank[state], 0
    {
      var to := ToId(transitions[state][i]);
      EpsTarget(transitions, accepting, T0, A0, rank, P, state, transitions[state][i]);
      ghost var Tb, Ab := transitions, accepting;
      var more;
      more, P' := RemoveEpsilonsFrom(to, T0, A0, rank, P);
      DropDone(Tb, Ab, T0, A0, rank, P, state, i, transitions, accepting, P', more);
      RemoveStep(transitions, accepting, T0, A0, rank, P', state, i);
      found := {to} + more;
      transitions := transitions[state := RemoveAt(transitions[state], i)];
    }

    /**
     * The second half of removeEpsilons(int): for each state found, make
     * the state accepting if that one is and add that one's words.
     */
    method CopyReachables(state: int, reachables: set<int>, ghost T0: seq<seq<Long>>, ghost A0: seq<bool>, ghost rank: seq<nat>, ghost P: set<int>)
      modifies this
      requires Inv(transitions, accepting, T0, A0, rank, P) && 0 <= state < |transitions| && EpsFree(transitions[state])
      requires reachables <= P && state !in reachables && (state in P ==> reachables == {})
      requires forall x :: x in reachables ==> x in Reach(T0, rank, state)
      ensures Inv(transitions, accepting, T0, A0, rank, P) && EpsFree(transitions[state])
      ensures CopiedInto(transitions, accepting, state, reachables)
      ensures forall u :: 0 <= u < |transitions| && u != state ==> transitions[u] == old(transitions)[u] && accepting[u] == old(accepting)[u]
      ensures reachables == {} ==> transitions == old(transitions) && accepting == old(accepting)
      ensures alphabet == old(alphabet) && start == old(start) && s == old(s)
    {
      var rest := reachables;
      ghost var copied: set<int> := {};
      while rest != {}
        invariant rest <= reachables && reachables == copied + rest
        invariant Inv(transitions, accepting, T0, A0, rank, P)
        invariant EpsFree(transitions[state])
        invariant forall u :: 0 <= u < |transitions| && u != state ==> transitions[u] == old(transitions)[u] && accepting[u] == old(accepting)[u]
        invariant CopiedInto(transitions, accepting, state, copied)
        invariant reachables == {} ==> transitions == old(transitions) && accepting == old(accepting)
        invariant alphabet == old(alphabet) && start == old(start) && s == old(s)
        decreases rest
      {
        if forall x :: x !in rest {
          assert false;
        }
        var r :| r in rest;
        ghost var T1, A1 := transitions, accepting;
        CopyFrom(state, r, T0, A0, rank, P);
        CopyOne(T1, A1, transitions, accepting, state, r, copied);
        copied := copied + {r};
        rest := rest - {r};
      }
    }

    /** One round of the union loop: state takes r's flag and r's words. */
    method CopyFrom(state: int, r: int, ghost T0: seq<seq<Long>>, ghost A0: seq<bool>, ghost rank: seq<nat>, ghost P: set<int>)
      modifies this
      requires Inv(transitions, accepting, T0, A0, rank, P) && 0 <= state < |transitions| && EpsFree(transitions[state])
      requires state !in P && r in P && r in Reach(T0, rank, state)
      ensures Inv(transitions, accepting, T0, A0, rank, P) && EpsFree(transitions[state])
      ensures |transitions| == |old(transitions)| && |accepting| == |old(accepting)|
      ensures forall u :: 0 <= u < |transitions| && u != state ==> transitions[u] == old(transitions)[u] && accepting[u] == old(accepting)[u]
      ensures Includes(transitions[state], old(transitions)[state]) && Includes(transitions[state], old(transitions)[r])
      ensures (old(accepting)[state] ==> accepting[state]) && (old(accepting)[r] ==> accepting[state])
      ensures alphabet == old(alphabet) && start == old(start) && s == old(s)
    {
      UnionStep(transitions, accepting, T0, A0, rank, P, state, r);
      AddAllSpec(transitions[state], transitions[r]);
      ghost var A1 := accepting;
      if accepting[r] {
        SetAccepting(state, true);
      }
      assert accepting == A1[state := A1[state] || A1[r]];
      AddTransitions(state, transitions[r]);
    }

    // -------------------------------------------------------------------
    // determinize

    /**
     * determinize(): remove the epsilon:epsilon words, then rebuild the
     * automaton from sets of old states, starting from {start}.  Sets are
     * taken first in, first out; a set's state accepts iff one of its old
     * states does, and for each input and output pair its old states read
     * (in ascending order of the pair) it gets one word to the state of the
     * set they reach, made on first sight.  T1 and A1 are the automaton
     * after the epsilon removal; sets[k] is the set of old states behind new
     * state k.  complete is false only where the lists would outgrow Java's
     * int ids.
     */
    method Determinize(ghost rank: seq<nat>) returns (complete: bool, ghost T1: seq<seq<Long>>, ghost A1: seq<bool>, ghost sets: seq<set<int>>)
      modifies this
      requires alphabet.epsIdx == 0 && |accepting| == |transitions| && 0 <= start < |transitions|
      requires WellFormed(transitions) && Ranked(transitions, rank)
      ensures |T1| == |A1| == |old(transitions)| && WellFormed(T1)
      ensures EpsilonsRemoved(T1, A1, old(transitions), old(accepting), rank)
      ensures complete ==> Determinized(T1, A1, old(start), sets, transitions, accepting)
      ensures !complete ==> |transitions| >= MAX_STATES
      ensures start == 0 && Counted() && Valid() && alphabet == old(alphabet)
    {
      RemoveEpsilons(rank);
      var oldTrans, oldAcc := transitions, accepting;
      T1, A1 := oldTrans, oldAcc;
      complete, sets := Rebuild(oldTrans, oldAcc);
    }

    /**
     * The subset construction proper, over the automaton left by the epsilon
     * removal: the lists are reset, the start set {start} becomes state 0,
     * and the queued sets are processed first in, first out.
     */
    method Rebuild(oldTrans: seq<seq<Long>>, oldAcc: seq<bool>) returns (complete: bool, ghost sets: seq<set<int>>)
      modifies this
      requires |oldAcc| == |oldTrans| && 0 <= start < |oldTrans| && WellFormed(oldTrans)
      ensures complete ==> Determinized(oldTrans, oldAcc, old(start), sets, transitions, accepting)
      ensures !complete ==> |transitions| >= MAX_STATES
      ensures start == 0 && Counted() && Valid() && alphabet == old(alphabet)
    {
      ghost var start0 := start;
      var startSet := {start};
      s := 0;
      transitions := [];
      accepting := [];
      start := AddState(false);
      var stateSets := map[startSet := start];
      var queue := [startSet];
      sets := [startSet];
      ghost var p := 0;
      BuildStart(oldTrans, oldAcc, start0);
      complete := true;
      while queue != []
        invariant Building(oldTrans, oldAcc, start0, sets, p, transitions, accepting) && Indexed(stateSets, sets)
        invariant queue == sets[p..] && start == 0 && Counted() && Valid() && alphabet == old(alphabet)
        decreases MAX_STATES - p
      {
        var full;
        queue, stateSets, full, sets := ProcessSet(oldTrans, oldAcc, queue, stateSets, sets, p, start0);
        if full {
          complete := false;
          break;
        }
        p := p + 1;
      }
    }

    /**
     * One round of the outer loop: the head of the queue is taken off, its
     * state is made accepting or not, and its words are emitted, new sets
     * being queued; full when a new state would not fit.
     */
    method ProcessSet(oldTrans: seq<seq<Long>>, oldAcc: seq<bool>, queue: seq<set<int>>, stateSets: map<set<int>, int>,
                      ghost sets: seq<set<int>>, ghost p: int, ghost start0: int)
      returns (queue': seq<set<int>>, stateSets': map<set<int>, int>, full: bool, ghost sets': seq<set<int>>)
      modifies this
      requires |oldAcc| == |oldTrans| && WellFormed(oldTrans) && queue != []
      requires Building(oldTrans, oldAcc, start0, sets, p, transitions, accepting) && Indexed(stateSets, sets)
      requires queue == sets[p..] && Counted() && Valid()
      ensures !full ==> Building(oldTrans, oldAcc, start0, sets', p + 1, transitions, accepting) && Indexed(stateSets', sets')
      ensures !full ==> queue' == sets'[p + 1..]
      ensures full ==> |transitions| >= MAX_STATES
      ensures Counted() && Valid() && start == old(start) && alphabet == old(alphabet)
    {
      var currentStateSet := queue[0];
      queue' := queue[1..];
      var currentStateId := stateSets[currentStateSet];
      assert currentStateSet == sets[p] && currentStateId == p;
      var acc, setTrans := CollectSet(oldTrans, oldAcc, currentStateSet);
      ghost var Tb, Ab := transitions, accepting;
      SetAccepting(currentStateId, acc);
      GroupedCleared(setTrans, WordsAt(oldTrans, currentStateSet));
      ghost var queueb := queue';
      stateSets', queue', full, sets' := EmitSet(currentStateId, setTrans, stateSets, queue', sets);
      if !full {
        BuildStep(oldTrans, oldAcc, start0, sets, p, Tb, Ab, acc, setTrans, queueb, sets', stateSets', queue', transitions, accepting);
      }
    }

    /**
     * The first loop of determinize() for one set: whether a member
     * accepts, and the map from each input and output pair the members'
     * words name to the to-states of those words.  The members are visited
     * in the unspecified order of a hash set.
     */
    static method CollectSet(oldTrans: seq<seq<Long>>, oldAcc: seq<bool>, currentStateSet: set<int>) returns (acc: bool, setTrans: map<Long, set<int>>)
      requires |oldAcc| == |oldTrans| && InRange(currentStateSet, |oldTrans|)
      ensures acc <==> AnyAccepting(oldAcc, currentStateSet)
      ensures Grouped(setTrans, WordsAt(oldTrans, currentStateSet))
    {
      acc := false;
      setTrans := map[];
      var rest := currentStateSet;
      ghost var visited: set<int> := {};
      while rest != {}
        invariant rest + visited == currentStateSet && rest !! visited
        invariant acc <==> AnyAccepting(oldAcc, visited)
        invariant Grouped(setTrans, WordsAt(oldTrans, visited))
        decreases |rest|
      {
        if forall x :: x !in rest {
          assert false;
        }
        var from :| from in rest;
        AnyAcceptingAdd(oldAcc, visited, from);
        acc := acc || oldAcc[from];
        setTrans := CollectWords(setTrans, oldTrans[from], WordsAt(oldTrans, visited));
        WordsAtAdd(oldTrans, visited, from);
        rest := rest - {from};
        visited := visited + {from};
      }
    }

    /** The inner loop: each word's to-state added under its pair, computeIfAbsent-style. */
    static method CollectWords(setTrans: map<Long, set<int>>, ws: seq<Long>, ghost W: set<Long>) returns (r: map<Long, set<int>>)
      requires Grouped(setTrans, W)
      ensures Grouped(r, W + Elems(ws))
    {
      r := setTrans;
      var j := 0;
      while j < |ws|
        invariant 0 <= j <= |ws|
        invariant Grouped(r, W + Elems(ws[..j]))
      {
        PutGrouped(r, W + Elems(ws[..j]), ws[j]);
        ElemsSnoc(W, ws, j);
        r := Put(r, ws[j]);
        j := j + 1;
      }
      assert ws[..j] == ws;
    }

    /**
     * The second loop of determinize() for one set: the pairs in ascending
     * order, each to the state of its set of to-states, a new state (queued)
     * when the set is new.  full reports that a new state was needed while
     * the lists already hold MAX_STATES states.
     */
    method EmitSet(currentStateId: int, setTrans: map<Long, set<int>>, stateSets: map<set<int>, int>, queue: seq<set<int>>, ghost sets: seq<set<int>>)
      returns (stateSets': map<set<int>, int>, queue': seq<set<int>>, full: bool, ghost sets': seq<set<int>>)
      modifies this
      requires Counted() && Valid() && |transitions| == |sets| <= MAX_STATES
      requires 0 <= currentStateId < |sets| && transitions[currentStateId] == []
      requires Indexed(stateSets, sets)
      requires forall key :: key in setTrans ==> Cleared(key)
      ensures !full ==> Emitting(setTrans, setTrans.Keys, currentStateId, sets, queue, old(transitions), old(accepting),
                                 sets', stateSets', queue', transitions, accepting)
      ensures full ==> |transitions| >= MAX_STATES
      ensures Counted() && Valid() && alphabet == old(alphabet) && start == old(start)
    {
      stateSets', queue', sets' := stateSets, queue, sets;
      full := false;
      ghost var T0, A0 := transitions, accepting;
      EmitInit(setTrans, currentStateId, sets, stateSets, queue, T0, A0);
      var rest := setTrans.Keys;
      ghost var done: set<Long> := {};
      while rest != {}
        invariant rest <= setTrans.Keys && done == setTrans.Keys - rest && !full
        invariant Emitting(setTrans, done, currentStateId, sets, queue, T0, A0, sets', stateSets', queue', transitions, accepting)
        invariant Counted() && Valid() && alphabet == old(alphabet) && start == old(start)
        decreases |rest|
      {
        var key := PickLeast(rest);
        stateSets', queue', full, sets' := EmitKey(currentStateId, setTrans, key, stateSets', queue', sets', done, sets, queue, T0, A0);
        if full {
          break;
        }
        TakeMember(setTrans.Keys, rest, key);
        rest := rest - {key};
        done := done + {key};
      }
      if !full {
        EmitDone(setTrans, done, rest, currentStateId, sets, queue, T0, A0, sets', stateSets', queue', transitions, accepting);
      }
    }

    /**
     * One round of the emit loop: the transition on `key` goes to the state of its target set, which is
     * added (and queued) when it is new; `full` when a new state would exceed the list's capacity.
     */
    method EmitKey(currentStateId: int, setTrans: map<Long, set<int>>, key: Long, stateSets: map<set<int>, int>,
                   queue: seq<set<int>>, ghost sets: seq<set<int>>, ghost E: set<Long>, ghost sets0: seq<set<int>>,
                   ghost queue0: seq<set<int>>, ghost T0: seq<seq<Long>>, ghost A0: seq<bool>)
      returns (stateSets': map<set<int>, int>, queue': seq<set<int>>, full: bool, ghost sets': seq<set<int>>)
      modifies this
      requires Counted() && Valid() && key in setTrans && key !in E && Cleared(key)
      requires Emitting(setTrans, E, currentStateId, sets0, queue0, T0, A0, sets, stateSets, queue, transitions, accepting)
      ensures !full ==> Emitting(setTrans, E + {key}, currentStateId, sets0, queue0, T0, A0, sets', stateSets', queue', transitions, accepting)
      ensures full ==> |transitions| >= MAX_STATES
      ensures Counted() && Valid() && alphabet == old(alphabet) && start == old(start)
    {
      stateSets', queue', sets' := stateSets, queue, sets;
      full := false;
      var target := setTrans[key];
      var i := if target in stateSets then stateSets[target] else -1;
      if i == -1 {
        if |transitions| >= MAX_STATES {
          full := true;
          return;
        }
        EmitFresh(setTrans, E, currentStateId, sets0, queue0, T0, A0, sets, stateSets, queue, transitions, accepting, key);
        i := AddState(false);
        stateSets' := stateSets[target := i];
        queue' := queue + [target];
        sets' := sets + [target];
      } else {
        EmitKnown(setTrans, E, currentStateId, sets0, queue0, T0, A0, sets, stateSets, queue, transitions, accepting, key);
      }
      AddTransitionWord(currentStateId, Or(key, i));
    }
  }

  /**
   * A copy made by the iterator constructor, then addState(): the id handed
   * out is 0 while the state appended is the last one.  addState is private
   * and determinize resets the counter before its first call, so no public
   * operation hands out this stale id.
   */
  method AddAfterCopy(iter: StateIteration, alph: Alphabet) returns (id: int, last: int)
    requires |iter.states| > 0
    ensures id == 0 && last == |iter.states| && id != last
  {
    var m := new MutableCompactTransducer.FromIterator(iter, alph);
    id := m.AddState(false);
    last := |m.transitions| - 1;
  }
}
