/**
 * The objects of fst.MutableFSTOld: its states, which update their arc
 * lists in place, the automaton that holds them in id order, and the state
 * iterator that reports them.  A target state is held by its id; the
 * automaton keeps states[k].id == k, so the id names the object.
 */
module LegacyMutableFst {
  import opened JStrings
  import opened LegacySymbols
  import opened LegacyAlphabet
  import opened LegacyIterations
  import opened LegacyMutable
  import SymbolTable
  import LegacySearch

  /**
   * MutableState: the literal arcs in three parallel lists ordered by the
   * input symbol's compareTo, the identity arcs as a list of targets.
   */
  class MutableState {
    var inSyms: seq<Symbol>
    var outSyms: seq<Symbol>
    var toStates: seq<int>
    var idToStates: seq<int>
    var accepting: bool
    const id: int

    /** The three lists of the literal arcs have one entry per arc. */
    predicate Parallel()
      reads this
    {
      |inSyms| == |outSyms| == |toStates|
    }

    /** The literal arcs the three lists hold. */
    function Literals(): (r: seq<Literal>)
      reads this
      requires Parallel()
      ensures |r| == |inSyms| && Inputs(r) == inSyms
      ensures forall j :: 0 <= j < |r| ==> r[j].out == outSyms[j] && r[j].to == toStates[j]
      ensures LegacySearch.Solid(outSyms) ==> SolidOutputs(r)
    {
      Zip(inSyms, outSyms, toStates)
    }

    /** The state holds exactly these literal arcs, identity targets and flag. */
    predicate Holds(lits: seq<Literal>, idTo: seq<int>, acc: bool)
      reads this
    {
      Parallel() && Literals() == lits && idToStates == idTo && accepting == acc
    }

    constructor (accepting: bool, id: int)
      ensures this.accepting == accepting && this.id == id
      ensures inSyms == [] && outSyms == [] && toStates == [] && idToStates == []
    {
      inSyms := [];
      outSyms := [];
      toStates := [];
      idToStates := [];
      this.accepting := accepting;
      this.id := id;
    }

    method SetAccepting(accepting: bool)
      modifies this
      ensures this.accepting == accepting
      ensures inSyms == old(inSyms) && outSyms == old(outSyms) && toStates == old(toStates)
      ensures idToStates == old(idToStates)
    {
      this.accepting := accepting;
    }

    /**
     * addLiteralArc: the arc goes in at the index Collections.binarySearch
     * finds for its input, or at the insertion point the search encodes.
     */
    method AddLiteralArc(in_: Symbol, out: Symbol, to: int)
      modifies this
      requires Parallel() && Comparable(inSyms, ASymbol(in_))
      ensures Parallel() && Literals() == InsertLiteral(old(Literals()), Literal(in_, out, to))
      ensures idToStates == old(idToStates) && accepting == old(accepting)
    {
      ghost var arcs := Literals();
      var i := BinarySearch(inSyms, ASymbol(in_));
      if i < 0 {
        i := -i - 1;
      }
      assert i == InsertionIndex(Inputs(arcs), in_);
      ZipInsert(inSyms, outSyms, toStates, i, Literal(in_, out, to));
      inSyms := inSyms[..i] + [in_] + inSyms[i..];
      outSyms := outSyms[..i] + [out] + outSyms[i..];
      toStates := toStates[..i] + [to] + toStates[i..];
    }

    /** addIdentityArc: the target is appended. */
    method AddIdentityArc(to: int)
      modifies this
      ensures idToStates == old(idToStates) + [to]
      ensures inSyms == old(inSyms) && outSyms == old(outSyms) && toStates == old(toStates)
      ensures accepting == old(accepting)
    {
      idToStates := idToStates + [to];
    }

    /**
     * invert: the lists are cleared and every old arc is added again, in
     * the old order, with input and output exchanged.  The new arcs are
     * the old ones swapped, each kept once.
     */
    method Invert()
      modifies this
      requires Parallel() && LegacySearch.Solid(outSyms)
      ensures Parallel() && Literals() == Inverted(old(Literals()))
      ensures idToStates == old(idToStates) && accepting == old(accepting)
    {
      ghost var swapped := Swapped(Literals());
      SwappedSolid(Literals(), outSyms);
      var inSymsOld, outSymsOld, toStatesOld := inSyms, outSyms, toStates;
      inSyms, outSyms, toStates := [], [], [];
      assert swapped[0..] == swapped;
      for i := 0 to |inSymsOld|
        invariant Parallel() && SolidInputs(Literals())
        invariant Rebuild(Literals(), swapped[i..]) == Rebuild([], swapped)
        invariant idToStates == old(idToStates) && accepting == old(accepting)
      {
        ghost var arcs := Literals();
        assert swapped[i] == Literal(outSymsOld[i], inSymsOld[i], toStatesOld[i]);
        SolidInputsComparable(arcs, ASymbol(outSymsOld[i]));
        AddLiteralArc(outSymsOld[i], inSymsOld[i], toStatesOld[i]);
        RebuildStep(arcs, swapped, i);
      }
      assert swapped[|inSymsOld|..] == [];
    }

    /**
     * The three private firstIndexOf overloads: the binary search with the
     * key, then a walk back over the run of matching symbols.
     */
    static method FirstIndexOf(l: seq<Symbol>, key: Operand) returns (r: int)
      requires Comparable(l, key)
      ensures r == FirstOf(l, key)
    {
      var i := BinarySearch(l, key);
      if i < 0 {
        return -1;
      }
      var j := i;
      while j >= 0
        invariant -1 <= j <= i
        invariant WalkBack(l, key, j) == WalkBack(l, key, i)
      {
        if !Matches(l[j], key) {
          return j + 1;
        }
        j := j - 1;
      }
      return 0;
    }
  }

  /** One turn of invert's loop: the arc inserted, what is left to rebuild is one arc shorter. */
  lemma RebuildStep(arcs: seq<Literal>, swapped: seq<Literal>, i: int)
    requires 0 <= i < |swapped| && SolidInputs(arcs) && SolidInputs(swapped[i..])
    ensures Comparable(Inputs(arcs), ASymbol(swapped[i].in_))
    ensures SolidInputs(InsertLiteral(arcs, swapped[i])) && SolidInputs(swapped[i + 1..])
    ensures Rebuild(InsertLiteral(arcs, swapped[i]), swapped[i + 1..]) == Rebuild(arcs, swapped[i..])
  {
    assert swapped[i..][0] == swapped[i] && swapped[i..][1..] == swapped[i + 1..];
    SolidInputsComparable(arcs, ASymbol(swapped[i].in_));
    assert swapped[i] in swapped[i..];
    InsertLiteralSolid(arcs, swapped[i]);
  }

  /** Inserting at one index in all three lists inserts the arc at that index. */
  lemma ZipInsert(ins: seq<Symbol>, outs: seq<Symbol>, tos: seq<int>, i: int, a: Literal)
    requires |ins| == |outs| == |tos| && 0 <= i <= |ins|
    ensures Zip(ins[..i] + [a.in_] + ins[i..], outs[..i] + [a.out] + outs[i..], tos[..i] + [a.to] + tos[i..]) ==
      Zip(ins, outs, tos)[..i] + [a] + Zip(ins, outs, tos)[i..]
  {
  }

  /** Arcs whose inputs are the whole symbols of a list keep whole inputs when swapped. */
  lemma SwappedSolid(arcs: seq<Literal>, outs: seq<Symbol>)
    requires |outs| == |arcs| && LegacySearch.Solid(outs)
    requires forall j :: 0 <= j < |arcs| ==> arcs[j].out == outs[j]
    ensures SolidInputs(Swapped(arcs))
    ensures forall i :: 0 <= i <= |arcs| ==> SolidInputs(Swapped(arcs)[i..])
  {
    var sw := Swapped(arcs);
    forall a | a in sw
      ensures Whole(a.in_)
    {
      var j :| 0 <= j < |sw| && sw[j] == a;
    }
  }

  /**
   * MutableFSTOld: the start state, the alphabet, the states in id order
   * and the transition count the readers keep.
   */
  class MutableFstOld {
    var start: int
    var alphabet: Alphabet
    var states: seq<MutableState>
    var nTrans: int

    /** The start names a state, every state sits under its own id and its literal lists are parallel. */
    predicate Valid()
      reads this, states
    {
      0 <= start < |states| &&
      forall k :: 0 <= k < |states| ==> states[k].id == k && states[k].Parallel()
    }

    /**
     * The states the binary reader creates before it decodes any arc:
     * nStates empty, non-accepting states with ids 0 .. nStates - 1, the
     * one under startId the start.  List.get throws for any other startId.
     */
    constructor (alphabet: Alphabet, nStates: nat, startId: int, nTrans: int)
      requires 0 <= startId < nStates
      ensures Valid() && this.alphabet == alphabet && start == startId && this.nTrans == nTrans
      ensures |states| == nStates
      ensures forall k :: 0 <= k < nStates ==>
        (fresh(states[k]) && !states[k].accepting &&
         states[k].inSyms == [] && states[k].outSyms == [] && states[k].toStates == [] && states[k].idToStates == [])
    {
      var created: seq<MutableState> := [];
      for i := 0 to nStates
        invariant |created| == i
        invariant forall k :: 0 <= k < i ==>
          (fresh(created[k]) && created[k].id == k && !created[k].accepting &&
           created[k].inSyms == [] && created[k].outSyms == [] && created[k].toStates == [] && created[k].idToStates == [])
      {
        var state := new MutableState(false, i);
        created := created + [state];
      }
      this.alphabet := alphabet;
      states := created;
      start := startId;
      this.nTrans := nTrans;
    }

    /**
     * The automaton as a value: the start id, each state's flag, literal
     * arcs and identity targets, and the alphabet's symbols in string
     * order.  MutableFSTOld.apply(in) is ApplyTo on this value and
     * prefixSearch(prefix, maxSuffix) is PrefixSearchFrom.
     */
    function View(): (n: Net)
      reads this, states, alphabet
      requires Valid()
      ensures n.start == start && |n.accepting| == |n.literals| == |n.idTo| == |states|
      ensures forall k :: 0 <= k < |states| ==>
        n.accepting[k] == states[k].accepting && n.literals[k] == states[k].Literals() && n.idTo[k] == states[k].idToStates
      ensures n.symbols == alphabet.alphabet
    {
      var ss := states;
      Net(start,
          seq(|ss|, k reads ss requires 0 <= k < |ss| => ss[k].accepting),
          seq(|ss|, k reads ss requires 0 <= k < |ss| && ss[k].Parallel() => ss[k].Literals()),
          seq(|ss|, k reads ss requires 0 <= k < |ss| => ss[k].idToStates),
          alphabet.alphabet)
    }

    /** invert(): every state inverts its literal arcs; the automaton itself is returned. */
    method Invert() returns (r: MutableFstOld)
      modifies states
      requires Valid() && forall k :: 0 <= k < |states| ==> LegacySearch.Solid(states[k].outSyms)
      ensures r == this && Valid()
      ensures forall k :: 0 <= k < |states| ==> InvertedFrom(states[k])
    {
      ghost var before := View();
      for i := 0 to |states|
        invariant forall k :: 0 <= k < i ==> states[k].Holds(Inverted(before.literals[k]), before.idTo[k], before.accepting[k])
        invariant forall k :: i <= k < |states| ==> unchanged(states[k])
      {
        states[i].Invert();
      }
      r := this;
    }
  }

  /**
   * The state has inverted its literal arcs since the method began and
   * kept its identity targets and its flag.
   */
  twostate predicate InvertedFrom(st: MutableState)
    reads st
  {
    && old(st.Parallel()) && old(LegacySearch.Solid(st.outSyms)) && st.Parallel()
    && st.Literals() == Inverted(old(st.Literals()))
    && st.idToStates == old(st.idToStates) && st.accepting == old(st.accepting)
  }

  // ---------------------------------------------------------------------
  // MutableFSTStateIterator

  /**
   * What the iterator reports for one state: its literal arcs in list
   * order with the ids of their symbols, then its identity arcs with -1
   * for both ids.
   */
  function ReportedArcs(lits: seq<Literal>, idTo: seq<int>): (r: seq<LegacyArc>)
    ensures |r| == |lits| + |idTo|
  {
    seq(|lits|, t requires 0 <= t < |lits| => LegacyArc(false, lits[t].in_.GetId(), lits[t].out.GetId(), lits[t].to)) +
    seq(|idTo|, i requires 0 <= i < |idTo| => LegacyArc(true, -1, -1, idTo[i]))
  }

  /** Every state of the automaton in id order, as reported. */
  function Reports(n: Net): (r: seq<LegacyState>)
    requires |n.accepting| == |n.literals| == |n.idTo|
    ensures |r| == |n.literals|
    ensures forall k :: 0 <= k < |r| ==> r[k] == LegacyState(n.accepting[k], ReportedArcs(n.literals[k], n.idTo[k]))
  {
    seq(|n.literals|, k requires 0 <= k < |n.literals| == |n.accepting| == |n.idTo| =>
      LegacyState(n.accepting[k], ReportedArcs(n.literals[k], n.idTo[k])))
  }

  /** The symbol sits in the id-ordered table under its own id. */
  predicate InTable(x: Symbol, id2sym: seq<Symbol>)
  {
    0 <= x.GetId() < |id2sym| && id2sym[x.GetId()] == x
  }

  /**
   * A report read back through the id-ordered symbol table: each literal
   * arc's symbols looked up by id, each identity arc's target kept.
   */
  function Recovered(arcs: seq<LegacyArc>, id2sym: seq<Symbol>): (r: (seq<Literal>, seq<int>))
    requires forall j :: 0 <= j < |arcs| && !arcs[j].identity ==>
      0 <= arcs[j].inId < |id2sym| && 0 <= arcs[j].outId < |id2sym|
    decreases |arcs|
  {
    if arcs == [] then ([], [])
    else
      var rest := Recovered(arcs[1..], id2sym);
      if arcs[0].identity then (rest.0, [arcs[0].toId] + rest.1)
      else ([Literal(id2sym[arcs[0].inId], id2sym[arcs[0].outId], arcs[0].toId)] + rest.0, rest.1)
  }

  /**
   * The report of a state whose symbols come from the table loses
   * nothing: reading it back gives the literal arcs in their order and
   * the identity targets in theirs.
   */
  lemma {:induction false} RecoverReported(lits: seq<Literal>, idTo: seq<int>, id2sym: seq<Symbol>)
    requires forall t :: 0 <= t < |lits| ==> InTable(lits[t].in_, id2sym) && InTable(lits[t].out, id2sym)
    ensures var r := ReportedArcs(lits, idTo);
      (forall j :: 0 <= j < |r| && !r[j].identity ==> 0 <= r[j].inId < |id2sym| && 0 <= r[j].outId < |id2sym|) &&
      Recovered(r, id2sym) == (lits, idTo)
    decreases |lits| + |idTo|
  {
    var r := ReportedArcs(lits, idTo);
    if lits != [] {
      RecoverReported(lits[1..], idTo, id2sym);
      assert r[1..] == ReportedArcs(lits[1..], idTo);
      assert lits == [lits[0]] + lits[1..];
    } else if idTo != [] {
      RecoverReported([], idTo[1..], id2sym);
      assert r[1..] == ReportedArcs([], idTo[1..]);
      assert idTo == [idTo[0]] + idTo[1..];
    }
  }

  /**
   * MutableFSTStateIterator: a copy of the alphabet with the identity
   * symbol added, the current state s with its object, and the cursors t
   * into the literal lists and i into the identity targets; all start at
   * -1, the state at the start state.
   */
  class MutableFstStateIterator {
    const fst: MutableFstOld
    const alphabet: Alphabet
    var s: int
    var state: MutableState
    var t: int
    var i: int

    constructor (fst: MutableFstOld)
      requires fst.Valid()
      ensures this.fst == fst && fresh(alphabet)
      ensures s == -1 && state == fst.states[fst.start] && t == -1 && i == -1
      ensures fst.alphabet.Valid() && (forall j :: 0 <= j < |fst.alphabet.id2sym| ==> fst.alphabet.id2sym[j].AsString() != []) ==>
        alphabet.Valid() && Strings(alphabet.id2sym) == SymbolTable.Intern(Strings(fst.alphabet.id2sym), IDENTITY_STRING).0
    {
      this.fst := fst;
      var copy := WithIdentity(fst.alphabet);
      alphabet := copy;
      s := -1;
      state := fst.states[fst.start];
      t := -1;
      i := -1;
    }

    function GetStartState(): (r: int)
      reads this, fst, fst.states
      requires fst.Valid()
      ensures 0 <= r < |fst.states| && fst.states[r].id == r && r == fst.start
    {
      fst.states[fst.start].id
    }

    /** getIdentityId: the last id of the copied alphabet. */
    function GetIdentityId(): (r: int)
      reads this, alphabet
      ensures alphabet.Valid() ==> r == |alphabet.id2sym| - 1
    {
      alphabet.Size() - 1
    }

    predicate HasNextState()
      reads this, fst
    {
      s + 1 < |fst.states|
    }

    /** nextState(): the next state in id order, both cursors reset. */
    method NextState()
      modifies this
      requires HasNextState() && -1 <= s
      ensures s == old(s) + 1 && state == fst.states[s] && t == -1 && i == -1
    {
      s := s + 1;
      state := fst.states[s];
      t := -1;
      i := -1;
    }

    function Accepting(): bool
      reads this, state
    {
      state.accepting
    }

    predicate HasNextTransition()
      reads this, state
    {
      t + 1 < |state.toStates| || i + 1 < |state.idToStates|
    }

    /** nextTransition(): the literal arcs first, then the identity arcs. */
    method NextTransition()
      modifies this
      ensures s == old(s) && state == old(state)
      ensures old(t) + 1 < |state.toStates| ==> t == old(t) + 1 && i == old(i)
      ensures old(t) + 1 >= |state.toStates| ==> t == old(t) && i == old(i) + 1
    {
      if t + 1 < |state.toStates| {
        t := t + 1;
      } else {
        i := i + 1;
      }
    }

    predicate Identity()
      reads this
    {
      i >= 0
    }

    function InId(): int
      reads this, state
      requires !Identity() ==> 0 <= t < |state.inSyms|
    {
      if Identity() then -1 else state.inSyms[t].GetId()
    }

    function OutId(): int
      reads this, state
      requires !Identity() ==> 0 <= t < |state.outSyms|
    {
      if Identity() then -1 else state.outSyms[t].GetId()
    }

    function ToId(): int
      reads this, state
      requires Identity() ==> i < |state.idToStates|
      requires !Identity() ==> 0 <= t < |state.toStates|
    {
      if Identity() then state.idToStates[i] else state.toStates[t]
    }

    /**
     * Reading the iterator to the end: the start state, the identity id,
     * and every state in id order with its flag and its arcs as reported.
     */
    method ReadAll() returns (walk: LegacyIteration)
      modifies this
      requires fst.Valid() && s == -1
      ensures walk == LegacyIteration(fst.start, GetIdentityId(), Reports(fst.View()))
    {
      ghost var n := fst.View();
      ghost var R := Reports(n);
      var states: seq<LegacyState> := [];
      while HasNextState()
        invariant -1 <= s < |fst.states| && |states| == s + 1
        invariant forall k :: 0 <= k < |states| ==> states[k] == R[k]
        decreases |fst.states| - s
      {
        NextState();
        var acc := Accepting();
        var arcs := ReadArcs();
        assert n.literals[s] == state.Literals() && n.idTo[s] == state.idToStates && n.accepting[s] == acc;
        assert R[s] == LegacyState(acc, arcs);
        states := states + [LegacyState(acc, arcs)];
      }
      assert |states| == |R|;
      walk := LegacyIteration(GetStartState(), GetIdentityId(), states);
    }

    /** The transitions of the current state, read with the cursors from -1. */
    method ReadArcs() returns (arcs: seq<LegacyArc>)
      modifies this
      requires fst.Valid() && 0 <= s < |fst.states| && state == fst.states[s] && t == -1 && i == -1
      ensures s == old(s) && state == old(state)
      ensures arcs == ReportedArcs(state.Literals(), state.idToStates)
    {
      ghost var lits := state.Literals();
      arcs := [];
      while HasNextTransition()
        invariant s == old(s) && state == old(state)
        invariant -1 <= t < |lits| && -1 <= i < |state.idToStates|
        invariant i >= 0 ==> t == |lits| - 1
        invariant arcs == ReportedArcs(lits[..t + 1], state.idToStates[..i + 1])
        decreases |lits| - t + |state.idToStates| - i
      {
        NextTransition();
        arcs := arcs + [LegacyArc(Identity(), InId(), OutId(), ToId())];
      }
      assert lits[..t + 1] == lits && state.idToStates[..i + 1] == state.idToStates;
    }
  }

  /**
   * The iterator's alphabet: new Alphabet(a.getSymbols()) with the
   * identity symbol added.  A valid table whose strings are not empty is
   * copied with its ids, and the identity string is interned after them.
   */
  method WithIdentity(a: Alphabet) returns (copy: Alphabet)
    ensures fresh(copy)
    ensures a.Valid() && (forall j :: 0 <= j < |a.id2sym| ==> a.id2sym[j].AsString() != []) ==>
      copy.Valid() && Strings(copy.id2sym) == SymbolTable.Intern(Strings(a.id2sym), IDENTITY_STRING).0
  {
    var names := a.GetSymbols();
    ghost var whole := a.Valid() && (forall j :: 0 <= j < |a.id2sym| ==> a.id2sym[j].AsString() != []);
    if whole {
      ValidDistinct(a.alphabet, a.id2sym);
      CopyLegacyTable(names);
    }
    copy := new Alphabet.FromArray(SymbolTable.Somes(names));
    assert whole ==> copy.Valid() && Strings(copy.id2sym) == names;
    copy.AddSymbol(IDENTITY_STRING);
  }

  /** A valid legacy alphabet holds each string once. */
  lemma ValidDistinct(alphabet: seq<Symbol>, id2sym: seq<Symbol>)
    requires ValidTables(alphabet, id2sym)
    ensures SymbolTable.Distinct(Strings(id2sym))
  {
    var strs := Strings(id2sym);
    forall a, b | 0 <= a < b < |strs|
      ensures strs[a] != strs[b]
    {
      assert id2sym[a] in multiset(alphabet) && id2sym[b] in multiset(alphabet);
      var p :| 0 <= p < |alphabet| && alphabet[p] == id2sym[a];
      var q :| 0 <= q < |alphabet| && alphabet[q] == id2sym[b];
      assert p != q by {
        assert id2sym[a].id == a && id2sym[b].id == b;
      }
      if p < q {
        assert Less(Strings(alphabet)[p], Strings(alphabet)[q]);
      } else {
        assert Less(Strings(alphabet)[q], Strings(alphabet)[p]);
      }
      LessIrreflexive(Strings(alphabet)[p]);
    }
  }

  /** new Alphabet(a.getSymbols()) rebuilds a table that holds each string once. */
  lemma CopyLegacyTable(table: seq<string>)
    requires SymbolTable.Distinct(table)
    ensures SymbolTable.InternAll([], SymbolTable.ArrayNames(SymbolTable.Somes(table), 0)) == table
  {
    SymbolTable.ArrayNamesCount(SymbolTable.Somes(table), 0);
    assert SymbolTable.ArrayNames(SymbolTable.Somes(table), 0) == table;
    assert [] + table == table;
    SymbolTable.InternAllFresh([], table);
  }
}
