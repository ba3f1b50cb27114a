/**
 * fst.CompactFST and fst.CompactFST2: the frozen automata of the legacy
 * generation.  Both keep the layout of the live CompactTransducer (one
 * sorted span of packed words per state in a flat array) and share its
 * constructor loop and its lookup by binary search word for word; they
 * are written here as one class over the live definitions.  What sets
 * them apart is the state iterator: CompactFST's starts each state at its
 * offset and so never reports the state's first word, and hides the
 * target of an identity transition; CompactFST2's starts one word earlier
 * and reports every target.
 */
module LegacyCompact {
  import opened JavaWords
  import opened Packing
  import opened Iterations
  import opened LegacySymbols
  import opened LegacyAlphabet
  import opened LegacyIterations
  import Collections
  import MutableCompact
  import Compact
  import SymbolTable
  import LegacyMutableFst

  // ---------------------------------------------------------------------
  // From reported states to packed words

  /** Every id a reported walk carries fits a Java int, and so does the identity id. */
  predicate Fits(walk: LegacyIteration)
  {
    -TWO31 <= walk.idIdx < TWO31 &&
    forall k, a :: 0 <= k < |walk.states| && a in walk.states[k].arcs ==>
      -TWO31 <= a.inId < TWO31 && -TWO31 <= a.outId < TWO31 && -TWO31 <= a.toId < TWO31
  }

  /** The ids the constructor packs for one arc: an identity arc as (idIdx, idIdx, to). */
  function PackedArc(a: LegacyArc, idIdx: Int): (r: Arc)
    requires -TWO31 <= a.inId < TWO31 && -TWO31 <= a.outId < TWO31 && -TWO31 <= a.toId < TWO31
    ensures r.toId == a.toId
    ensures a.identity ==> r.inId == idIdx && r.outId == idIdx
    ensures !a.identity ==> r.inId == a.inId && r.outId == a.outId
  {
    if a.identity then Arc(idIdx, idIdx, a.toId) else Arc(a.inId, a.outId, a.toId)
  }

  /** The states of a walk with their arcs as the constructor packs them. */
  function PackedStates(walk: LegacyIteration): (r: seq<IteratedState>)
    requires Fits(walk)
    ensures |r| == |walk.states|
  {
    var ss := walk.states;
    seq(|ss|, k requires 0 <= k < |ss| && Fits(walk) =>
      IteratedState(ss[k].accepting,
        seq(|ss[k].arcs|, j requires 0 <= j < |ss[k].arcs| && Fits(walk) =>
          assert ss[k].arcs[j] in ss[k].arcs;
          PackedArc(ss[k].arcs[j], walk.idIdx))))
  }

  /** State k of the packed walk: its flag, and each arc packed at its own position. */
  lemma PackedState(walk: LegacyIteration, k: int)
    requires Fits(walk) && 0 <= k < |walk.states|
    ensures var r := PackedStates(walk)[k];
      && r.accepting == walk.states[k].accepting && |r.arcs| == |walk.states[k].arcs|
      && forall j :: 0 <= j < |r.arcs| ==> walk.states[k].arcs[j] in walk.states[k].arcs && r.arcs[j] == PackedArc(walk.states[k].arcs[j], walk.idIdx)
  {
  }

  /** The table the transition iterators spell ids with: each symbol's toString, the epsilon symbol as "". */
  function Spellings(id2sym: seq<Symbol>): (r: seq<string>)
    ensures |r| == |id2sym|
  {
    seq(|id2sym|, i requires 0 <= i < |id2sym| => id2sym[i].ToString())
  }

  // ---------------------------------------------------------------------
  // What the two state iterators report

  /**
   * The arc the state iterators report for one word: an identity word
   * (input id idIdx) with -1 for its ids, and for its target too unless
   * the iterator keeps it.
   */
  function WordReport(w: Long, idIdx: int, keepTarget: bool): (r: LegacyArc)
    ensures r.identity <==> InId(w) == idIdx
    ensures !r.identity ==> r == LegacyArc(false, InId(w), OutId(w), ToId(w))
    ensures r.identity ==> r.inId == -1 && r.outId == -1 && r.toId == (if keepTarget then ToId(w) else -1)
  {
    if InId(w) == idIdx then LegacyArc(true, -1, -1, if keepTarget then ToId(w) else -1)
    else LegacyArc(false, InId(w), OutId(w), ToId(w))
  }

  /** The arcs reported for a list of words, in list order. */
  function WordReports(ws: seq<Long>, idIdx: int, keepTarget: bool): (r: seq<LegacyArc>)
    ensures |r| == |ws| && forall j :: 0 <= j < |ws| ==> r[j] == WordReport(ws[j], idIdx, keepTarget)
  {
    seq(|ws|, j requires 0 <= j < |ws| => WordReport(ws[j], idIdx, keepTarget))
  }

  /** The words of a span CompactFST's iterator walks over: all but the first. */
  function Walked(span: seq<Long>): (r: seq<Long>)
    ensures |span| > 0 ==> r == span[1..]
    ensures |span| == 0 ==> r == []
  {
    if |span| == 0 then [] else span[1..]
  }

  /** What CompactFST's state iterator reports: each state's span past its first word, identity targets hidden. */
  function SkippingReports(offs: seq<int>, xs: seq<Long>, acc: seq<bool>, idIdx: int): (r: seq<LegacyState>)
    requires Compact.Laid(offs, |xs|) && |acc| == |offs|
    ensures |r| == |offs|
    ensures forall k :: 0 <= k < |offs| ==>
      r[k] == LegacyState(acc[k], WordReports(Walked(Compact.Span(offs, xs, k)), idIdx, false))
  {
    seq(|offs|, k requires 0 <= k < |offs| && Compact.Laid(offs, |xs|) && |acc| == |offs| =>
      LegacyState(acc[k], WordReports(Walked(Compact.Span(offs, xs, k)), idIdx, false)))
  }

  /** What CompactFST2's state iterator reports: each state's whole span, every target kept. */
  function FullReports(offs: seq<int>, xs: seq<Long>, acc: seq<bool>, idIdx: int): (r: seq<LegacyState>)
    requires Compact.Laid(offs, |xs|) && |acc| == |offs|
    ensures |r| == |offs|
    ensures forall k :: 0 <= k < |offs| ==>
      r[k] == LegacyState(acc[k], WordReports(Compact.Span(offs, xs, k), idIdx, true))
  {
    seq(|offs|, k requires 0 <= k < |offs| && Compact.Laid(offs, |xs|) && |acc| == |offs| =>
      LegacyState(acc[k], WordReports(Compact.Span(offs, xs, k), idIdx, true)))
  }

  /**
   * What draining TransitionIterator(s, k) gives when s has the id ci and
   * state k's words span[from..end] of xs: the words of the span whose
   * input field is ci (input id SignedIn(ci) once read back), preceded by
   * the copies of their key the walk-back picks up from the end of the
   * spans before it (none when the word before the span is not that key),
   * each reported with s as input; and whatever else it holds, exactly
   * those words of the span are reported.
   */
  ghost predicate LookedUp(r: seq<Transition>, xs: seq<Long>, from: int, end: int, span: seq<Long>, ci: Int, inC: string, table: seq<string>, identity: int)
    requires 0 <= from <= end <= |xs| && 0 <= ci < TWO16 && Spelled(span, table, false)
  {
    var ws := xs[from - Compact.Spill(xs, from, end, Key(ci))..from] + WordsWithInput(span, SignedIn(ci));
    && Spelled(ws, table, false) && r == Reports(ws, inC, false, table, identity)
    && ((from == 0 || xs[from - 1] != Key(ci)) ==> ws == WordsWithInput(span, SignedIn(ci)))
    && forall t :: t in r <==> exists w :: w in span && InId(w) == SignedIn(ci) && t == Report(w, inC, false, table, identity)
  }

  /** An identity word carries the identity id on both sides, as the constructor packs it. */
  predicate IdentityShaped(xs: seq<Long>, idIdx: int)
  {
    forall w :: w in xs ==> (InId(w) == idIdx ==> OutId(w) == idIdx)
  }

  // ---------------------------------------------------------------------
  // The automaton

  /**
   * CompactFST (and CompactFST2, whose fields, constructor and
   * TransitionIterator are the same): the alphabet object, the identity
   * id, the start state and the three arrays.
   */
  class CompactFst {
    var alphabet: Alphabet
    const idIdx: Int
    var start: int
    var stateOffsets: array<int>
    var accepting: array<bool>
    var transitions: array<Long>

    /** One flag per state, offsets that cut the array into spans, and every span sorted. */
    predicate Valid()
      reads this, stateOffsets, transitions
    {
      accepting.Length == stateOffsets.Length &&
      Compact.Laid(stateOffsets[..], transitions.Length) &&
      forall k :: 0 <= k < stateOffsets.Length ==> Collections.Sorted(Compact.Span(stateOffsets[..], transitions[..], k))
    }

    /** State k's words. */
    function SpanOf(k: int): seq<Long>
      reads this, stateOffsets, transitions
      requires Valid() && 0 <= k < stateOffsets.Length
    {
      Compact.Span(stateOffsets[..], transitions[..], k)
    }

    /**
     * CompactFST(FSTStateIterator): the start state, the iterator's
     * alphabet object with the identity string added when the identity id
     * is its size, then state by state the offset, the flag and the packed
     * arcs, each state's span sorted.  The declared counts must be the
     * reported ones.
     */
    constructor (walk: LegacyIteration, alph: Alphabet, nOfStates: int, nOfTransitions: int)
      modifies alph
      requires Fits(walk) && nOfStates == |walk.states|
      requires nOfTransitions == Compact.TotalArcs(PackedStates(walk))
      ensures start == walk.start && idIdx == walk.idIdx && alphabet == alph
      ensures old(alph.Size()) == walk.idIdx ==>
        Added(old(alph.alphabet), old(alph.id2sym), alph.alphabet, alph.id2sym, IDENTITY_STRING)
      ensures old(alph.Size()) != walk.idIdx ==> alph.alphabet == old(alph.alphabet) && alph.id2sym == old(alph.id2sym)
      ensures stateOffsets.Length == nOfStates && transitions.Length == nOfTransitions
      ensures stateOffsets[..] == Compact.Offsets(MutableCompact.StateLists(PackedStates(walk)))
      ensures accepting[..] == MutableCompact.StateFlags(PackedStates(walk))
      ensures transitions[..] == MutableCompact.Flatten(MutableCompact.StateLists(PackedStates(walk)))
      ensures Valid()
    {
      var offs, acc, trans := Layout(PackedStates(walk), nOfStates, nOfTransitions);
      start := walk.start;
      alphabet := alph;
      idIdx := walk.idIdx;
      stateOffsets := offs;
      accepting := acc;
      transitions := trans;
      new;
      AddIdentity(alph, walk.idIdx);
    }

    /** The identity string added to the alphabet when the identity id is its size. */
    static method AddIdentity(alph: Alphabet, idIdx: int)
      modifies alph
      ensures old(alph.Size()) == idIdx ==>
        Added(old(alph.alphabet), old(alph.id2sym), alph.alphabet, alph.id2sym, IDENTITY_STRING)
      ensures old(alph.Size()) != idIdx ==> alph.alphabet == old(alph.alphabet) && alph.id2sym == old(alph.id2sym)
    {
      if idIdx == alph.Size() {
        alph.AddSymbol(IDENTITY_STRING);
      }
    }

    /** The arrays of the constructor: sized by the declared counts, filled state by state. */
    static method Layout(packed: seq<IteratedState>, nOfStates: int, nOfTransitions: int)
        returns (offs: array<int>, acc: array<bool>, trans: array<Long>)
      requires nOfStates == |packed| && nOfTransitions == Compact.TotalArcs(packed)
      ensures fresh(offs) && fresh(acc) && fresh(trans)
      ensures offs.Length == nOfStates && trans.Length == nOfTransitions
      ensures offs[..] == Compact.Offsets(MutableCompact.StateLists(packed))
      ensures acc[..] == MutableCompact.StateFlags(packed)
      ensures trans[..] == MutableCompact.Flatten(MutableCompact.StateLists(packed))
      ensures acc.Length == offs.Length && Compact.Laid(offs[..], trans.Length)
      ensures forall k :: 0 <= k < offs.Length ==> Collections.Sorted(Compact.Span(offs[..], trans[..], k))
    {
      Compact.TotalArcsCount(packed);
      offs := new int[nOfStates];
      acc := new bool[nOfStates];
      trans := new Long[nOfTransitions];
      Compact.CompactTransducer.Fill(packed, offs, acc, trans);
      Compact.LayoutSpans(MutableCompact.StateLists(packed));
      StateListsSorted(packed);
    }

    function NOfStates(): (n: int)
      reads this
      ensures n == stateOffsets.Length
    {
      stateOffsets.Length
    }

    function NOfTransitions(): (n: int)
      reads this
      ensures n == transitions.Length
    {
      transitions.Length
    }

    /**
     * TransitionIterator(s, statIdx), drained.  A string the alphabet
     * holds is looked up by its id exactly as in the live automaton: the
     * state's words with that input id, reported with s as input and an
     * identity output spelled as s, preceded by the copies of the key the
     * walk-back collects from the end of the earlier spans.  A string the
     * alphabet does not hold has no transitions.
     */
    method TransitionsFor(sym: string, statIdx: int) returns (r: seq<Transition>)
      requires Valid() && alphabet.Valid() && |alphabet.id2sym| <= TWO16 && |sym| > 0
      requires 0 <= statIdx < stateOffsets.Length && Spelled(transitions[..], Spellings(alphabet.id2sym), false)
      ensures sym !in Strings(alphabet.id2sym) ==> r == []
      ensures sym in Strings(alphabet.id2sym) ==>
        var ci := alphabet.IdOf(sym);
        && 0 <= ci < |alphabet.id2sym| && alphabet.id2sym[ci].AsString() == sym
        && Spelled(SpanOf(statIdx), Spellings(alphabet.id2sym), false)
        && LookedUp(r, transitions[..], stateOffsets[statIdx], Compact.SpanEnd(stateOffsets[..], transitions.Length, statIdx),
             SpanOf(statIdx), ci, sym, Spellings(alphabet.id2sym), idIdx)
    {
      r := [];
      if alphabet.ContainsString(sym) {
        var ci := alphabet.IdOf(sym);
        var from := stateOffsets[statIdx];
        var end := if statIdx == stateOffsets.Length - 1 then transitions.Length else stateOffsets[statIdx + 1];
        assert end == Compact.SpanEnd(stateOffsets[..], transitions.Length, statIdx);
        assert SpanOf(statIdx) == transitions[from..end];
        r := KeyLookup(transitions, from, end, SpanOf(statIdx), ci, sym, Spellings(alphabet.id2sym), idIdx);
      }
    }

    /** The live lookup over a[from..end], its outcome stated as LookedUp. */
    static method KeyLookup(a: array<Long>, from: int, end: int, ghost span: seq<Long>, ci: Int, inC: string, table: seq<string>, identity: int)
        returns (r: seq<Transition>)
      requires 0 <= from <= end <= a.Length && span == a[from..end] && Collections.Sorted(span) && 0 <= ci < TWO16 && Spelled(a[..], table, false)
      ensures Spelled(span, table, false) && LookedUp(r, a[..], from, end, span, ci, inC, table, identity)
    {
      r := Compact.CompactTransducer.Lookup(a, from, end, span, ci, inC, table, identity);
    }

    /**
     * TransitionIterator(statIdx), drained: the whole span in stored
     * order, the input spelled from its id, an identity output as "".
     */
    method AllTransitions(statIdx: int) returns (r: seq<Transition>)
      requires Valid() && 0 <= statIdx < stateOffsets.Length && Spelled(SpanOf(statIdx), Spellings(alphabet.id2sym), true)
      ensures |r| == |SpanOf(statIdx)|
      ensures forall k :: 0 <= k < |r| ==> r[k] == Report(SpanOf(statIdx)[k], "", true, Spellings(alphabet.id2sym), idIdx)
    {
      var from := stateOffsets[statIdx];
      var end := if statIdx == stateOffsets.Length - 1 then transitions.Length else stateOffsets[statIdx + 1];
      r := MutableCompact.MutableCompactTransducer.ReportWords(transitions[from..end], "", true, Spellings(alphabet.id2sym), idIdx);
      forall k | 0 <= k < |r|
        ensures r[k] == Report(SpanOf(statIdx)[k], "", true, Spellings(alphabet.id2sym), idIdx)
      {
        ReportsIndex(SpanOf(statIdx), "", true, Spellings(alphabet.id2sym), idIdx, k);
      }
    }
  }

  /** Every list the constructor lays out is sorted. */
  lemma StateListsSorted(states: seq<IteratedState>)
    ensures forall k :: 0 <= k < |states| ==> Collections.Sorted(MutableCompact.StateLists(states)[k])
  {
    forall k | 0 <= k < |states|
      ensures Collections.Sorted(MutableCompact.StateLists(states)[k])
    {
      MutableCompact.StateListsIndex(states, k);
    }
  }

  /** new Alphabet(getSymbols()) for the iterators: a copy of the table's strings. */
  method CopyAlphabet(a: Alphabet) returns (copy: Alphabet)
    ensures fresh(copy)
    ensures a.Valid() && (forall j :: 0 <= j < |a.id2sym| ==> a.id2sym[j].AsString() != []) ==>
      copy.Valid() && Strings(copy.id2sym) == Strings(a.id2sym)
  {
    var names := a.GetSymbols();
    if a.Valid() && (forall j :: 0 <= j < |a.id2sym| ==> a.id2sym[j].AsString() != []) {
      LegacyMutableFst.ValidDistinct(a.alphabet, a.id2sym);
      LegacyMutableFst.CopyLegacyTable(names);
    }
    copy := new Alphabet.FromArray(SymbolTable.Somes(names));
  }

  // ---------------------------------------------------------------------
  // CompactFST's state iterator, as written

  /**
   * CompactFST.CompactFSTStateIterator: s names the current state, t the
   * current word and tend where the state's span ends; all start at -1.
   * nextState puts t on the state's offset, and hasNextTransition asks
   * for t + 1, so the first word of every span is passed over.
   */
  class CompactFstStateIterator {
    const fst: CompactFst
    const alphabet: Alphabet
    var s: int
    var t: int
    var tend: int

    constructor (fst: CompactFst)
      ensures this.fst == fst && fresh(alphabet) && s == -1 && t == -1 && tend == -1
      ensures fst.alphabet.Valid() && (forall j :: 0 <= j < |fst.alphabet.id2sym| ==> fst.alphabet.id2sym[j].AsString() != []) ==>
        alphabet.Valid() && Strings(alphabet.id2sym) == Strings(fst.alphabet.id2sym)
    {
      this.fst := fst;
      var copy := CopyAlphabet(fst.alphabet);
      alphabet := copy;
      s := -1;
      t := -1;
      tend := -1;
    }

    predicate HasNextState()
      reads this, fst
    {
      s + 1 < fst.stateOffsets.Length
    }

    /** nextState(): the next state, t on its offset, tend at its span's end. */
    method NextState()
      modifies this
      requires fst.Valid() && HasNextState() && -1 <= s
      ensures s == old(s) + 1 && t == fst.stateOffsets[s]
      ensures tend == Compact.SpanEnd(fst.stateOffsets[..], fst.transitions.Length, s)
    {
      s := s + 1;
      t := fst.stateOffsets[s];
      tend := if s == fst.stateOffsets.Length - 1 then fst.transitions.Length else fst.stateOffsets[s + 1];
    }

    function Accepting(): bool
      reads this, fst, fst.accepting
      requires 0 <= s < fst.accepting.Length
    {
      fst.accepting[s]
    }

    predicate HasNextTransition()
      reads this
    {
      t + 1 < tend
    }

    method NextTransition()
      modifies this
      ensures t == old(t) + 1 && s == old(s) && tend == old(tend)
    {
      t := t + 1;
    }

    predicate Identity()
      reads this, fst, fst.transitions
      requires 0 <= t < fst.transitions.Length
    {
      InId(fst.transitions[t]) == fst.idIdx
    }

    function InIdReported(): int
      reads this, fst, fst.transitions
      requires 0 <= t < fst.transitions.Length
    {
      if Identity() then -1 else InId(fst.transitions[t])
    }

    function OutIdReported(): int
      reads this, fst, fst.transitions
      requires 0 <= t < fst.transitions.Length
    {
      if Identity() then -1 else OutId(fst.transitions[t])
    }

    /** toId(): -1 for an identity word as well. */
    function ToIdReported(): int
      reads this, fst, fst.transitions
      requires 0 <= t < fst.transitions.Length
    {
      if Identity() then -1 else ToId(fst.transitions[t])
    }

    /** Reading the iterator to the end: each state with its span past the first word. */
    method ReadAll() returns (walk: LegacyIteration)
      modifies this
      requires fst.Valid() && s == -1
      ensures walk == LegacyIteration(fst.start, fst.idIdx,
        SkippingReports(fst.stateOffsets[..], fst.transitions[..], fst.accepting[..], fst.idIdx))
    {
      ghost var R := SkippingReports(fst.stateOffsets[..], fst.transitions[..], fst.accepting[..], fst.idIdx);
      var states: seq<LegacyState> := [];
      while HasNextState()
        invariant -1 <= s < fst.stateOffsets.Length && |states| == s + 1
        invariant forall k :: 0 <= k < |states| ==> states[k] == R[k]
        decreases fst.stateOffsets.Length - s
      {
        NextState();
        var acc := Accepting();
        var arcs := ReadArcs();
        states := states + [LegacyState(acc, arcs)];
      }
      assert |states| == |R|;
      walk := LegacyIteration(fst.start, fst.idIdx, states);
    }

    /** The inner loop for the current state: the words after t, up to the span's end. */
    method ReadArcs() returns (arcs: seq<LegacyArc>)
      modifies this
      requires fst.Valid() && 0 <= s < fst.stateOffsets.Length
      requires t == fst.stateOffsets[s] && tend == Compact.SpanEnd(fst.stateOffsets[..], fst.transitions.Length, s)
      ensures s == old(s)
      ensures arcs == WordReports(Walked(fst.SpanOf(s)), fst.idIdx, false)
    {
      var from := fst.stateOffsets[s];
      arcs := [];
      if from == tend {
        return;
      }
      while HasNextTransition()
        invariant s == old(s) && tend == old(tend) && from <= t < tend
        invariant arcs == WordReports(fst.transitions[from + 1..t + 1], fst.idIdx, false)
        decreases tend - t
      {
        NextTransition();
        arcs := arcs + [WordReport(fst.transitions[t], fst.idIdx, false)];
      }
      assert fst.transitions[from + 1..t + 1] == fst.SpanOf(s)[1..];
    }
  }

  // ---------------------------------------------------------------------
  // CompactFST2's state iterator

  /**
   * CompactFST2.CompactFSTStateIterator: as CompactFST's, but nextState
   * puts t one before the state's offset, and toId reports the target of
   * an identity word too.
   */
  class CompactFst2StateIterator {
    const fst: CompactFst
    const alphabet: Alphabet
    var s: int
    var t: int
    var tend: int

    constructor (fst: CompactFst)
      ensures this.fst == fst && fresh(alphabet) && s == -1 && t == -1 && tend == -1
      ensures fst.alphabet.Valid() && (forall j :: 0 <= j < |fst.alphabet.id2sym| ==> fst.alphabet.id2sym[j].AsString() != []) ==>
        alphabet.Valid() && Strings(alphabet.id2sym) == Strings(fst.alphabet.id2sym)
    {
      this.fst := fst;
      var copy := CopyAlphabet(fst.alphabet);
      alphabet := copy;
      s := -1;
      t := -1;
      tend := -1;
    }

    predicate HasNextState()
      reads this, fst
    {
      s + 1 < fst.stateOffsets.Length
    }

    /** nextState(): the next state, t just before its offset, tend at its span's end. */
    method NextState()
      modifies this
      requires fst.Valid() && HasNextState() && -1 <= s
      ensures s == old(s) + 1 && t == fst.stateOffsets[s] - 1
      ensures tend == Compact.SpanEnd(fst.stateOffsets[..], fst.transitions.Length, s)
    {
      s := s + 1;
      t := fst.stateOffsets[s] - 1;
      tend := if s == fst.stateOffsets.Length - 1 then fst.transitions.Length else fst.stateOffsets[s + 1];
    }

    function Accepting(): bool
      reads this, fst, fst.accepting
      requires 0 <= s < fst.accepting.Length
    {
      fst.accepting[s]
    }

    predicate HasNextTransition()
      reads this
    {
      t + 1 < tend
    }

    method NextTransition()
      modifies this
      ensures t == old(t) + 1 && s == old(s) && tend == old(tend)
    {
      t := t + 1;
    }

    predicate Identity()
      reads this, fst, fst.transitions
      requires 0 <= t < fst.transitions.Length
    {
      InId(fst.transitions[t]) == fst.idIdx
    }

    function InIdReported(): int
      reads this, fst, fst.transitions
      requires 0 <= t < fst.transitions.Length
    {
      if Identity() then -1 else InId(fst.transitions[t])
    }

    function OutIdReported(): int
      reads this, fst, fst.transitions
      requires 0 <= t < fst.transitions.Length
    {
      if Identity() then -1 else OutId(fst.transitions[t])
    }

    function ToIdReported(): int
      reads this, fst, fst.transitions
      requires 0 <= t < fst.transitions.Length
    {
      ToId(fst.transitions[t])
    }

    /** Reading the iterator to the end: every state in id order with every word of its span. */
    method ReadAll() returns (walk: LegacyIteration)
      modifies this
      requires fst.Valid() && s == -1
      ensures walk == LegacyIteration(fst.start, fst.idIdx,
        FullReports(fst.stateOffsets[..], fst.transitions[..], fst.accepting[..], fst.idIdx))
    {
      ghost var R := FullReports(fst.stateOffsets[..], fst.transitions[..], fst.accepting[..], fst.idIdx);
      var states: seq<LegacyState> := [];
      while HasNextState()
        invariant -1 <= s < fst.stateOffsets.Length && |states| == s + 1
        invariant forall k :: 0 <= k < |states| ==> states[k] == R[k]
        decreases fst.stateOffsets.Length - s
      {
        NextState();
        var acc := Accepting();
        var arcs := ReadArcs();
        states := states + [LegacyState(acc, arcs)];
      }
      assert |states| == |R|;
      walk := LegacyIteration(fst.start, fst.idIdx, states);
    }

    /** The inner loop for the current state: every word of its span, in stored order. */
    method ReadArcs() returns (arcs: seq<LegacyArc>)
      modifies this
      requires fst.Valid() && 0 <= s < fst.stateOffsets.Length
      requires t == fst.stateOffsets[s] - 1 && tend == Compact.SpanEnd(fst.stateOffsets[..], fst.transitions.Length, s)
      ensures s == old(s)
      ensures arcs == WordReports(fst.SpanOf(s), fst.idIdx, true)
    {
      var from := fst.stateOffsets[s];
      arcs := [];
      while HasNextTransition()
        invariant s == old(s) && tend == old(tend) && from - 1 <= t < tend
        invariant arcs == WordReports(fst.transitions[from..t + 1], fst.idIdx, true)
        decreases tend - t
      {
        NextTransition();
        arcs := arcs + [WordReport(fst.transitions[t], fst.idIdx, true)];
      }
    }
  }

  // ---------------------------------------------------------------------
  // Reading an automaton back

  /**
   * Packing what CompactFST2's iterator reports restores every span and
   * flag: the constructor fed by that iterator rebuilds the same arrays,
   * provided identity words carry the identity id on both sides and every
   * word repacks.
   */
  lemma FullReportsRoundTrip(offs: seq<int>, xs: seq<Long>, acc: seq<bool>, start: int, idIdx: Int)
    requires Compact.Laid(offs, |xs|) && |acc| == |offs|
    requires forall k :: 0 <= k < |offs| ==> Collections.Sorted(Compact.Span(offs, xs, k))
    requires forall w :: w in xs ==> Repackable(w)
    requires IdentityShaped(xs, idIdx)
    ensures Fits(LegacyIteration(start, idIdx, FullReports(offs, xs, acc, idIdx)))
    ensures var packed := PackedStates(LegacyIteration(start, idIdx, FullReports(offs, xs, acc, idIdx)));
      MutableCompact.StateLists(packed) == Compact.Spans(offs, xs) && MutableCompact.StateFlags(packed) == acc
  {
    var T := Compact.Spans(offs, xs);
    var walk := LegacyIteration(start, idIdx, FullReports(offs, xs, acc, idIdx));
    forall k, w | 0 <= k < |T| && w in T[k]
      ensures w in xs
    {
      Compact.SpanWords(offs, xs, k, w);
    }
    assert Fits(walk);
    var packed := PackedStates(walk);
    var live := MutableCompact.WalkOf(0, T, acc).states;
    forall k | 0 <= k < |T|
      ensures packed[k] == live[k]
    {
      PackedState(walk, k);
      forall j | 0 <= j < |T[k]|
        ensures packed[k].arcs[j] == ArcsOf(T[k])[j]
      {
        assert T[k][j] in T[k];
      }
    }
    assert packed == live;
    Compact.WalkRoundTrip(0, T, acc);
  }

  /**
   * CompactFST's iterator, read back, loses each state's first word and
   * the target of every identity word: for one state whose span holds a
   * literal word w1 and then an identity word w2, it reports only the
   * identity arc, with target -1, where CompactFST2's reports both.
   */
  lemma SkippingReportsLoseArcs(w1: Long, w2: Long, idIdx: int)
    requires InId(w1) != idIdx && InId(w2) == idIdx
    ensures Compact.Laid([0], 2)
    ensures SkippingReports([0], [w1, w2], [true], idIdx) == [LegacyState(true, [LegacyArc(true, -1, -1, -1)])]
    ensures FullReports([0], [w1, w2], [true], idIdx) ==
      [LegacyState(true, [LegacyArc(false, InId(w1), OutId(w1), ToId(w1)), LegacyArc(true, -1, -1, ToId(w2))])]
  {
    var xs := [w1, w2];
    assert Compact.Span([0], xs, 0) == xs;
    var skipped := WordReports(Walked(xs), idIdx, false);
    assert skipped == [LegacyArc(true, -1, -1, -1)] by {
      assert Walked(xs) == [w2];
      assert |skipped| == 1 && skipped[0] == WordReport(w2, idIdx, false);
    }
    var S := SkippingReports([0], xs, [true], idIdx);
    assert S == [LegacyState(true, skipped)] by {
      assert |S| == 1 && S[0] == LegacyState(true, skipped);
    }
    var full := WordReports(xs, idIdx, true);
    assert full == [LegacyArc(false, InId(w1), OutId(w1), ToId(w1)), LegacyArc(true, -1, -1, ToId(w2))] by {
      assert |full| == 2 && full[0] == WordReport(w1, idIdx, true) && full[1] == WordReport(w2, idIdx, true);
    }
    var F := FullReports([0], xs, [true], idIdx);
    assert F == [LegacyState(true, full)] by {
      assert |F| == 1 && F[0] == LegacyState(true, full);
    }
  }

  /** The smallest such state: a literal word 1:1 and an identity word, both to state 0, with identity id 3. */
  lemma SkippingReportsExample()
    ensures var xs := [MakeTransition(1, 1, 0), MakeTransition(3, 3, 0)];
      && Compact.Laid([0], |xs|)
      && SkippingReports([0], xs, [true], 3) == [LegacyState(true, [LegacyArc(true, -1, -1, -1)])]
      && FullReports([0], xs, [true], 3) == [LegacyState(true, [LegacyArc(false, 1, 1, 0), LegacyArc(true, -1, -1, 0)])]
  {
    UnpackMake(1, 1, 0);
    UnpackMake(3, 3, 0);
    SkippingReportsLoseArcs(MakeTransition(1, 1, 0), MakeTransition(3, 3, 0), 3);
  }

  /** The number of arcs a walk reports, state by state. */
  function ReportedArcs(states: seq<LegacyState>): nat
  {
    if |states| == 0 then 0 else ReportedArcs(states[..|states| - 1]) + |states[|states| - 1].arcs|
  }

  /** Packing keeps the number of arcs of every state, and so the total. */
  lemma {:induction false} PackedCount(P: seq<IteratedState>, L: seq<LegacyState>)
    requires |P| == |L| && forall k :: 0 <= k < |P| ==> |P[k].arcs| == |L[k].arcs|
    ensures Compact.TotalArcs(P) == ReportedArcs(L)
  {
    if |P| > 0 {
      PackedCount(P[..|P| - 1], L[..|L| - 1]);
    }
  }

  /** A walk with no more arcs in any state, and fewer in one, has fewer arcs in all. */
  lemma {:induction false} FewerArcs(A: seq<LegacyState>, B: seq<LegacyState>, i: int)
    requires |A| == |B| && forall k :: 0 <= k < |A| ==> |A[k].arcs| <= |B[k].arcs|
    requires 0 <= i < |A| && |A[i].arcs| < |B[i].arcs|
    ensures ReportedArcs(A) < ReportedArcs(B)
  {
    var n := |A| - 1;
    if i < n {
      FewerArcs(A[..n], B[..n], i);
    } else {
      NoMoreArcs(A[..n], B[..n]);
    }
  }

  /** A walk with no more arcs in any state has no more arcs in all. */
  lemma {:induction false} NoMoreArcs(A: seq<LegacyState>, B: seq<LegacyState>)
    requires |A| == |B| && forall k :: 0 <= k < |A| ==> |A[k].arcs| <= |B[k].arcs|
    ensures ReportedArcs(A) <= ReportedArcs(B)
  {
    if |A| > 0 {
      NoMoreArcs(A[..|A| - 1], B[..|B| - 1]);
    }
  }

  /** CompactFST2's iterator reports every word from the first state's offset on, the first n states' words up to their end. */
  lemma {:induction false} FullReportsCount(offs: seq<int>, xs: seq<Long>, acc: seq<bool>, idIdx: int, n: int)
    requires Compact.Laid(offs, |xs|) && |acc| == |offs| && 0 < n <= |offs|
    ensures ReportedArcs(FullReports(offs, xs, acc, idIdx)[..n]) == Compact.SpanEnd(offs, |xs|, n - 1) - offs[0]
    ensures n == |offs| ==> ReportedArcs(FullReports(offs, xs, acc, idIdx)) == |xs| - offs[0]
  {
    var F := FullReports(offs, xs, acc, idIdx);
    assert F[..|F|] == F;
    assert F[..n][..n - 1] == F[..n - 1];
    if n > 1 {
      FullReportsCount(offs, xs, acc, idIdx, n - 1);
    }
  }

  /**
   * CompactFST's iterator declares the array's length as its transition
   * count, but reports one word fewer for every state with a non-empty
   * span: once any span is non-empty, the walk it reports falls short of
   * the count a constructor fed by it allots (the constructor's
   * precondition fails), where CompactFST2's walk makes it up exactly
   * when the first state starts at offset 0.
   */
  lemma SkippingReportsUndercount(offs: seq<int>, xs: seq<Long>, acc: seq<bool>, start: int, idIdx: Int, i: int)
    requires Compact.Laid(offs, |xs|) && |acc| == |offs|
    requires 0 <= i < |offs| && |Compact.Span(offs, xs, i)| > 0
    ensures Fits(LegacyIteration(start, idIdx, SkippingReports(offs, xs, acc, idIdx)))
    ensures Compact.TotalArcs(PackedStates(LegacyIteration(start, idIdx, SkippingReports(offs, xs, acc, idIdx)))) < |xs|
    ensures ReportedArcs(FullReports(offs, xs, acc, idIdx)) == |xs| - offs[0]
  {
    var S := SkippingReports(offs, xs, acc, idIdx);
    var F := FullReports(offs, xs, acc, idIdx);
    var walk := LegacyIteration(start, idIdx, S);
    SkippingFits(offs, xs, acc, start, idIdx);
    forall k | 0 <= k < |S|
      ensures |PackedStates(walk)[k].arcs| == |S[k].arcs|
    {
      PackedState(walk, k);
    }
    PackedCount(PackedStates(walk), S);
    FewerArcs(S, F, i);
    FullReportsCount(offs, xs, acc, idIdx, |offs|);
  }

  /** Every id CompactFST's iterator reports fits a Java int. */
  lemma SkippingFits(offs: seq<int>, xs: seq<Long>, acc: seq<bool>, start: int, idIdx: Int)
    requires Compact.Laid(offs, |xs|) && |acc| == |offs|
    ensures Fits(LegacyIteration(start, idIdx, SkippingReports(offs, xs, acc, idIdx)))
  {
    var S := SkippingReports(offs, xs, acc, idIdx);
    forall k, a | 0 <= k < |S| && a in S[k].arcs
      ensures -TWO31 <= a.inId < TWO31 && -TWO31 <= a.outId < TWO31 && -TWO31 <= a.toId < TWO31
    {
      var ws := Walked(Compact.Span(offs, xs, k));
      var j :| 0 <= j < |ws| && WordReports(ws, idIdx, false)[j] == a;
    }
  }
}
