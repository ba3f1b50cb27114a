/**
 * The subset construction behind MutableCompactTransducer.determinize(),
 * on values: which word pairs a set of old states reads, to which set of
 * old states each pair leads, and what the rebuilt automaton holds once
 * every set of old states met has become a state.
 */
module Determinization {
  import opened JavaWords
  import opened Packing
  import opened Collections
  import opened EpsilonRemoval

  /** The most states the lists can hold: state ids are non-negative Java ints. */
  const MAX_STATES: int := TWO31 - 1

  // ---------------------------------------------------------------------
  // Words without their to-state

  /** trans & ~GET_TO_STATE: the word with its to-state cleared, naming its input and output pair. */
  function Syms(w: Long): Long
  {
    And(w, Not(GET_TO_STATE))
  }

  /** A word that names a pair only: its to-state field is zero. */
  predicate Cleared(key: Long)
  {
    Syms(key) == key
  }

  lemma SameBits(x: Long, y: Long)
    requires Bits(x) == Bits(y)
    ensures x == y
  {
  }

  /** The cleared word is the word of the same pair with to-state field 0. */
  lemma SymsWord(w: Long)
    ensures Syms(w) == Word(InField(w), OutField(w), 0)
    ensures InField(Syms(w)) == InField(w) && OutField(Syms(w)) == OutField(w)
  {
    ClearTo(w);
    PatBits(w);
    SameBits(Syms(w), Word(InField(w), OutField(w), 0));
    WordFields(InField(w), OutField(w), 0);
  }

  /** Clearing the to-state twice is clearing it once. */
  lemma SymsCleared(w: Long)
    ensures Cleared(Syms(w))
  {
    SymsWord(w);
    SymsWord(Syms(w));
  }

  /** key | i, for a cleared key and a state id i: the word of that pair leading to i. */
  lemma TargetWord(key: Long, i: Int)
    requires Cleared(key) && 0 <= i
    ensures Syms(Or(key, i)) == key && ToId(Or(key, i)) == i
  {
    assert Or(key, i) == WithToState(key, i);
    SetToStateFrame(key, i);
    SetToWord(key, i);
    PatBits(key);
    WordFields(InField(key), OutField(key), i);
    SymsWord(key);
    SymsWord(Or(key, i));
  }

  /** A word is fixed by its pair and a non-negative to-state. */
  lemma SymsToDetermine(a: Long, b: Long)
    requires Syms(a) == Syms(b) && ToId(a) == ToId(b) && 0 <= ToId(a)
    ensures a == b
  {
    SymsWord(a);
    SymsWord(b);
    PatBits(a);
    PatBits(b);
    Decode(a);
    Decode(b);
    FieldsDetermine(a, b);
  }

  // ---------------------------------------------------------------------
  // What a set of old states reads

  /** The words stored at the states of S. */
  ghost function WordsAt(T: seq<seq<Long>>, S: set<int>): set<Long>
  {
    set u, w | u in S && 0 <= u < |T| && w in T[u] :: w
  }

  /** The pairs the words of W name. */
  ghost function KeysOf(W: set<Long>): set<Long>
  {
    set w | w in W :: Syms(w)
  }

  /** The to-states of the words of W that name the pair key. */
  ghost function SuccOf(W: set<Long>, key: Long): set<int>
  {
    set w | w in W && Syms(w) == key :: ToId(w) as int
  }

  /** The pairs read at the states of S. */
  ghost function Keys(T: seq<seq<Long>>, S: set<int>): set<Long>
  {
    KeysOf(WordsAt(T, S))
  }

  /** The old states the states of S reach by words naming key. */
  ghost function Succ(T: seq<seq<Long>>, S: set<int>, key: Long): set<int>
  {
    SuccOf(WordsAt(T, S), key)
  }

  /** Whether some state of S accepts. */
  ghost predicate AnyAccepting(A: seq<bool>, S: set<int>)
  {
    exists u :: u in S && 0 <= u < |A| && A[u]
  }

  predicate InRange(S: set<int>, n: int)
  {
    forall u :: u in S ==> 0 <= u < n
  }

  /** The states of S, and the words added so far: setTrans maps each pair named to its to-states. */
  ghost predicate Grouped(setTrans: map<Long, set<int>>, W: set<Long>)
  {
    setTrans.Keys == KeysOf(W) && forall key :: key in setTrans ==> setTrans[key] == SuccOf(W, key)
  }

  /** The keys of a grouping have the to-state field clear, so a state id can be or-ed in. */
  lemma GroupedCleared(setTrans: map<Long, set<int>>, W: set<Long>)
    requires Grouped(setTrans, W)
    ensures forall key :: key in setTrans ==> Cleared(key)
  {
    forall key | key in setTrans
      ensures Cleared(key)
    {
      assert key in KeysOf(W);
      var w :| w in W && Syms(w) == key;
      SymsCleared(w);
    }
  }

  /** setTrans.computeIfAbsent(syms, ...).add(to) for one word. */
  function Put(setTrans: map<Long, set<int>>, w: Long): (r: map<Long, set<int>>)
  {
    var key := Syms(w);
    setTrans[key := (if key in setTrans then setTrans[key] else {}) + {ToId(w) as int}]
  }

  /** Adding one word to the groups adds its pair, and its to-state under that pair. */
  lemma PutGrouped(setTrans: map<Long, set<int>>, W: set<Long>, w: Long)
    requires Grouped(setTrans, W)
    ensures Grouped(Put(setTrans, w), W + {w})
  {
    var r := Put(setTrans, w);
    KeysOfAdd(W, w);
    forall key | key in r
      ensures r[key] == SuccOf(W + {w}, key)
    {
      SuccOfAdd(W, w, key);
    }
  }

  /** One more word names one more pair (or the same one again). */
  lemma KeysOfAdd(W: set<Long>, w: Long)
    ensures KeysOf(W + {w}) == KeysOf(W) + {Syms(w)}
  {
  }

  /** One more word adds its to-state under its own pair and nowhere else. */
  lemma SuccOfAdd(W: set<Long>, w: Long, key: Long)
    ensures SuccOf(W + {w}, key) == if key == Syms(w) then SuccOf(W, key) + {ToId(w) as int} else SuccOf(W, key)
  {
  }

  /** The words of a list, as a set. */
  ghost function Elems(ws: seq<Long>): set<Long>
  {
    set w | w in ws
  }

  /** A list grown by one word has that word as one more element. */
  lemma ElemsSnoc(W: set<Long>, ws: seq<Long>, j: int)
    requires 0 <= j < |ws|
    ensures W + Elems(ws[..j + 1]) == W + Elems(ws[..j]) + {ws[j]}
  {
    assert ws[..j + 1] == ws[..j] + [ws[j]];
  }

  /** The words at one more state are those words plus the state's own. */
  lemma WordsAtAdd(T: seq<seq<Long>>, D: set<int>, u: int)
    requires 0 <= u < |T|
    ensures WordsAt(T, D + {u}) == WordsAt(T, D) + Elems(T[u])
  {
  }

  /** Whether a state of D + {u} accepts is whether one of D does or u does. */
  lemma AnyAcceptingAdd(A: seq<bool>, D: set<int>, u: int)
    requires 0 <= u < |A|
    ensures AnyAccepting(A, D + {u}) == (AnyAccepting(A, D) || A[u])
  {
  }

  /** Every state reached by a pair is a state of the old automaton. */
  lemma SuccInRange(T: seq<seq<Long>>, S: set<int>, key: Long)
    requires WellFormed(T)
    ensures InRange(Succ(T, S, key), |T|)
  {
  }

  // ---------------------------------------------------------------------
  // The rebuilt automaton

  /** Each set of old states has one position, and the map gives it back. */
  predicate Indexed(m: map<set<int>, int>, sets: seq<set<int>>)
  {
    (forall k :: 0 <= k < |sets| ==> sets[k] in m && m[sets[k]] == k) &&
    (forall X :: X in m ==> 0 <= m[X] < |sets| && sets[m[X]] == X)
  }

  /**
   * The words emitted for the pairs of E: a word for each pair, and every
   * word names a pair of E and leads to the state whose set is that pair's
   * to-states; strictly ascending.
   */
  ghost predicate EmittedPart(setTrans: map<Long, set<int>>, E: set<Long>, sets: seq<set<int>>, ws: seq<Long>)
  {
    Increasing(ws) &&
    (forall w :: w in ws ==> Syms(w) in E && Syms(w) in setTrans && 0 <= ToId(w) < |sets| && sets[ToId(w)] == setTrans[Syms(w)]) &&
    (forall key :: key in E ==> key in setTrans && exists w :: w in ws && Syms(w) == key)
  }

  /** Emitting one more pair, to the state of its set. */
  lemma EmitStep(setTrans: map<Long, set<int>>, E: set<Long>, sets: seq<set<int>>, ws: seq<Long>, key: Long, j: int)
    requires EmittedPart(setTrans, E, sets, ws)
    requires key in setTrans && key !in E && Cleared(key)
    requires 0 <= j < |sets| && j <= MAX_STATES && sets[j] == setTrans[key]
    ensures EmittedPart(setTrans, E + {key}, sets, AddIfAbsent(ws, Or(key, j)))
  {
    TargetWord(key, j);
    AddIfAbsentSpec(ws, Or(key, j));
  }

  /** New states appended later do not disturb what was emitted. */
  lemma EmittedGrow(setTrans: map<Long, set<int>>, E: set<Long>, sets: seq<set<int>>, sets': seq<set<int>>, ws: seq<Long>)
    requires EmittedPart(setTrans, E, sets, ws)
    requires |sets| <= |sets'| && sets'[..|sets|] == sets
    ensures EmittedPart(setTrans, E, sets', ws)
  {
    forall w | w in ws
      ensures sets'[ToId(w)] == sets[ToId(w)]
    {
    }
  }

  /**
   * Part way through the second loop for the set of state cur: the pairs
   * of E are emitted into T[cur]; the sets met for the first time are
   * appended to sets', indexed by m' and queued; nothing else changed
   * since T0/A0, and the new states are empty and not accepting.
   */
  ghost predicate Emitting(setTrans: map<Long, set<int>>, E: set<Long>, cur: int, sets: seq<set<int>>, queue: seq<set<int>>,
                           T0: seq<seq<Long>>, A0: seq<bool>, sets': seq<set<int>>, m': map<set<int>, int>, queue': seq<set<int>>,
                           T: seq<seq<Long>>, A: seq<bool>)
  {
    |T| == |A| == |sets'| <= MAX_STATES && |T0| == |A0| == |sets| && 0 <= cur < |sets| &&
    Indexed(m', sets') && |sets| <= |sets'| && sets'[..|sets|] == sets && queue' == queue + sets'[|sets|..] &&
    (forall k :: |sets| <= k < |sets'| ==> sets'[k] in setTrans.Values) &&
    (forall u :: 0 <= u < |sets| && u != cur ==> T[u] == T0[u]) &&
    A[..|sets|] == A0 &&
    (forall u :: |sets| <= u < |sets'| ==> T[u] == [] && !A[u]) &&
    (forall u :: 0 <= u < |T| ==> Sorted(T[u])) &&
    E <= setTrans.Keys && EmittedPart(setTrans, E, sets', T[cur])
  }

  /** Before the second loop: nothing emitted, nothing new. */
  lemma EmitInit(setTrans: map<Long, set<int>>, cur: int, sets: seq<set<int>>, m: map<set<int>, int>, queue: seq<set<int>>, T0: seq<seq<Long>>, A0: seq<bool>)
    requires |T0| == |A0| == |sets| <= MAX_STATES && 0 <= cur < |sets| && T0[cur] == []
    requires Indexed(m, sets) && forall u :: 0 <= u < |T0| ==> Sorted(T0[u])
    ensures Emitting(setTrans, {}, cur, sets, queue, T0, A0, sets, m, queue, T0, A0)
  {
    assert sets[..|sets|] == sets && sets[|sets|..] == [] && A0[..|sets|] == A0;
  }

  /** When the pairs emitted so far and those left make up all keys and none is left, all are emitted. */
  lemma EmitDone(setTrans: map<Long, set<int>>, done: set<Long>, rest: set<Long>, cur: int, sets: seq<set<int>>, queue: seq<set<int>>,
                 T0: seq<seq<Long>>, A0: seq<bool>, sets': seq<set<int>>, m': map<set<int>, int>, queue': seq<set<int>>,
                 T: seq<seq<Long>>, A: seq<bool>)
    requires Emitting(setTrans, done, cur, sets, queue, T0, A0, sets', m', queue', T, A)
    requires done == setTrans.Keys - rest && rest == {}
    ensures Emitting(setTrans, setTrans.Keys, cur, sets, queue, T0, A0, sets', m', queue', T, A)
  {
    assert done == setTrans.Keys;
  }

  /** The next pair leads to a set already met: one word to that set's state. */
  lemma EmitKnown(setTrans: map<Long, set<int>>, E: set<Long>, cur: int, sets: seq<set<int>>, queue: seq<set<int>>,
                  T0: seq<seq<Long>>, A0: seq<bool>, sets': seq<set<int>>, m': map<set<int>, int>, queue': seq<set<int>>,
                  T: seq<seq<Long>>, A: seq<bool>, key: Long)
    requires Emitting(setTrans, E, cur, sets, queue, T0, A0, sets', m', queue', T, A)
    requires key in setTrans && key !in E && Cleared(key) && setTrans[key] in m'
    ensures 0 <= m'[setTrans[key]] < TWO31
    ensures Emitting(setTrans, E + {key}, cur, sets, queue, T0, A0, sets', m', queue',
                     T[cur := AddIfAbsent(T[cur], Or(key, m'[setTrans[key]]))], A)
  {
    var j := m'[setTrans[key]];
    EmitStep(setTrans, E, sets', T[cur], key, j);
    AddIfAbsentSorted(T[cur], Or(key, j));
  }

  /** Appending a set not met before gives it the next index. */
  lemma IndexedAdd(m: map<set<int>, int>, sets: seq<set<int>>, X: set<int>)
    requires Indexed(m, sets) && X !in m
    ensures Indexed(m[X := |sets|], sets + [X])
  {
    var sets' := sets + [X];
    forall k | 0 <= k < |sets'|
      ensures sets'[k] in m[X := |sets|] && m[X := |sets|][sets'[k]] == k
    {
      if k < |sets| {
        assert sets'[k] == sets[k] && sets[k] != X;
      }
    }
  }

  /** The next pair leads to a new set: a new state, queued, and one word to it. */
  lemma EmitFresh(setTrans: map<Long, set<int>>, E: set<Long>, cur: int, sets: seq<set<int>>, queue: seq<set<int>>,
                  T0: seq<seq<Long>>, A0: seq<bool>, sets': seq<set<int>>, m': map<set<int>, int>, queue': seq<set<int>>,
                  T: seq<seq<Long>>, A: seq<bool>, key: Long)
    requires Emitting(setTrans, E, cur, sets, queue, T0, A0, sets', m', queue', T, A)
    requires key in setTrans && key !in E && Cleared(key) && setTrans[key] !in m' && |T| < MAX_STATES
    ensures var j := |T|;
      var T' := T + [[]];
      Emitting(setTrans, E + {key}, cur, sets, queue, T0, A0, sets' + [setTrans[key]], m'[setTrans[key] := j],
               queue' + [setTrans[key]], T'[cur := AddIfAbsent(T'[cur], Or(key, j))], A + [false])
  {
    var j := |T|;
    var target := setTrans[key];
    var sets'' := sets' + [target];
    var T' := T + [[]];
    assert sets''[..|sets|] == sets;
    assert sets''[|sets|..] == sets'[|sets|..] + [target];
    assert (A + [false])[..|sets|] == A[..|sets|];
    IndexedAdd(m', sets', target);
    EmittedGrow(setTrans, E, sets', sets'', T[cur]);
    assert T'[cur] == T[cur];
    EmitStep(setTrans, E, sets'', T'[cur], key, j);
    AddIfAbsentSorted(T'[cur], Or(key, j));
  }

  /**
   * The list of the state for S: for each pair the words at S name, one
   * word of that pair, leading to the state whose set is the pair's
   * to-states; nothing else; strictly ascending.
   */
  ghost predicate DetList(T: seq<seq<Long>>, S: set<int>, sets: seq<set<int>>, ws: seq<Long>)
  {
    Increasing(ws) &&
    (forall w :: w in ws ==> Syms(w) in Keys(T, S) && 0 <= ToId(w) < |sets| && sets[ToId(w)] == Succ(T, S, Syms(w))) &&
    (forall key :: key in Keys(T, S) ==> exists w :: w in ws && Syms(w) == key)
  }

  /**
   * The automaton rebuilt from T1/A1 while the first p sets are processed:
   * state 0 is {start0}; the sets are distinct sets of old states; a
   * processed state accepts iff one of its old states does and holds its
   * DetList; the others are still empty and not accepting.
   */
  ghost predicate Building(T1: seq<seq<Long>>, A1: seq<bool>, start0: int, sets: seq<set<int>>, p: int, T: seq<seq<Long>>, A: seq<bool>)
  {
    |T| == |A| == |sets| && 1 <= |sets| <= MAX_STATES && sets[0] == {start0} && 0 <= p <= |sets| &&
    (forall j, k :: 0 <= j < k < |sets| ==> sets[j] != sets[k]) &&
    (forall k :: 0 <= k < |sets| ==> InRange(sets[k], |T1|)) &&
    (forall k :: 0 <= k < p ==> (A[k] <==> AnyAccepting(A1, sets[k])) && DetList(T1, sets[k], sets, T[k])) &&
    (forall k :: p <= k < |sets| ==> T[k] == [] && !A[k])
  }

  /** The whole subset construction: every set met has been processed. */
  ghost predicate Determinized(T1: seq<seq<Long>>, A1: seq<bool>, start0: int, sets: seq<set<int>>, T: seq<seq<Long>>, A: seq<bool>)
  {
    Building(T1, A1, start0, sets, |sets|, T, A)
  }

  /** Before the loop: the start set alone, not yet processed. */
  lemma BuildStart(T1: seq<seq<Long>>, A1: seq<bool>, start0: int)
    requires 0 <= start0 < |T1|
    ensures Building(T1, A1, start0, [{start0}], 0, [[]], [false])
  {
  }

  /** A later list of sets only appends: the lists built so far stay right. */
  lemma DetListGrow(T: seq<seq<Long>>, S: set<int>, sets: seq<set<int>>, sets': seq<set<int>>, ws: seq<Long>)
    requires DetList(T, S, sets, ws)
    requires |sets| <= |sets'| && sets'[..|sets|] == sets
    ensures DetList(T, S, sets', ws)
  {
    forall w | w in ws
      ensures sets'[ToId(w)] == sets[ToId(w)]
    {
    }
  }

  /** What was emitted for the groups of the words at S is the DetList of S. */
  lemma EmittedDetList(T: seq<seq<Long>>, S: set<int>, setTrans: map<Long, set<int>>, sets: seq<set<int>>, ws: seq<Long>)
    requires Grouped(setTrans, WordsAt(T, S))
    requires EmittedPart(setTrans, setTrans.Keys, sets, ws)
    ensures DetList(T, S, sets, ws)
  {
  }

  /**
   * Processing set p: its flag and list are set, the sets met for the first
   * time are appended unprocessed and queued behind the rest.
   */
  lemma BuildStep(T1: seq<seq<Long>>, A1: seq<bool>, start0: int, sets: seq<set<int>>, p: int, T: seq<seq<Long>>, A: seq<bool>,
                  acc: bool, setTrans: map<Long, set<int>>, queue: seq<set<int>>,
                  sets': seq<set<int>>, m': map<set<int>, int>, queue': seq<set<int>>, T': seq<seq<Long>>, A': seq<bool>)
    requires Building(T1, A1, start0, sets, p, T, A) && p < |sets| && WellFormed(T1)
    requires Grouped(setTrans, WordsAt(T1, sets[p])) && (acc <==> AnyAccepting(A1, sets[p]))
    requires queue == sets[p + 1..]
    requires Emitting(setTrans, setTrans.Keys, p, sets, queue, T, A[p := acc], sets', m', queue', T', A')
    ensures Building(T1, A1, start0, sets', p + 1, T', A') && queue' == sets'[p + 1..]
  {
    NewSetsInRange(T1, sets[p], setTrans, sets, sets');
    OldListsKept(T1, sets, p, T, sets', T');
    assert sets'[p] == sets[p];
    EmittedDetList(T1, sets[p], setTrans, sets', T'[p]);
    IndexedDistinct(m', sets');
    FlagsKept(A, A', p, acc);
    QueueStep(sets, sets', p);
  }

  /** The sets met for the first time are sets of old states. */
  lemma NewSetsInRange(T1: seq<seq<Long>>, S: set<int>, setTrans: map<Long, set<int>>, sets: seq<set<int>>, sets': seq<set<int>>)
    requires WellFormed(T1) && Grouped(setTrans, WordsAt(T1, S)) && |sets| <= |sets'|
    requires forall k :: |sets| <= k < |sets'| ==> sets'[k] in setTrans.Values
    ensures forall k :: |sets| <= k < |sets'| ==> InRange(sets'[k], |T1|)
  {
    forall k | |sets| <= k < |sets'|
      ensures InRange(sets'[k], |T1|)
    {
      assert sets'[k] in setTrans.Values;
      var key :| key in setTrans && setTrans[key] == sets'[k];
      SuccInRange(T1, S, key);
    }
  }

  /** The lists of the processed states are untouched and still right. */
  lemma OldListsKept(T1: seq<seq<Long>>, sets: seq<set<int>>, p: int, T: seq<seq<Long>>, sets': seq<set<int>>, T': seq<seq<Long>>)
    requires 0 <= p < |sets| <= |sets'| && sets'[..|sets|] == sets && |T| == |sets| && |T'| == |sets'|
    requires forall k :: 0 <= k < p ==> DetList(T1, sets[k], sets, T[k])
    requires forall u :: 0 <= u < |sets| && u != p ==> T'[u] == T[u]
    ensures forall k :: 0 <= k < p ==> DetList(T1, sets'[k], sets', T'[k])
  {
    forall k | 0 <= k < p
      ensures DetList(T1, sets'[k], sets', T'[k])
    {
      assert sets'[k] == sets[k];
      DetListGrow(T1, sets[k], sets, sets', T[k]);
    }
  }

  /** Sets with an index are distinct. */
  lemma IndexedDistinct(m: map<set<int>, int>, sets: seq<set<int>>)
    requires Indexed(m, sets)
    ensures forall j, k :: 0 <= j < k < |sets| ==> sets[j] != sets[k]
  {
    forall j, k | 0 <= j < k < |sets|
      ensures sets[j] != sets[k]
    {
      assert m[sets[j]] == j && m[sets[k]] == k;
    }
  }

  /** The flags of the old states: as before, with acc at p. */
  lemma FlagsKept(A: seq<bool>, A': seq<bool>, p: int, acc: bool)
    requires 0 <= p < |A| <= |A'| && A'[..|A|] == A[p := acc]
    ensures forall k :: 0 <= k < |A| && k != p ==> A'[k] == A[k]
    ensures A'[p] == acc
  {
    forall k | 0 <= k < |A|
      ensures A'[k] == A[p := acc][k]
    {
      assert A'[..|A|][k] == A'[k];
    }
  }

  /** Dropping the head of the queue and appending the new sets leaves the unprocessed sets. */
  lemma QueueStep(sets: seq<set<int>>, sets': seq<set<int>>, p: int)
    requires 0 <= p < |sets| <= |sets'| && sets'[..|sets|] == sets
    ensures sets'[p + 1..] == sets[p + 1..] + sets'[|sets|..]
  {
    assert forall k :: p + 1 <= k < |sets| ==> sets'[k] == sets'[..|sets|][k];
  }

  // ---------------------------------------------------------------------
  // What the outcome guarantees

  /** Each state of the outcome has at most one word per input and output pair. */
  lemma Deterministic(T1: seq<seq<Long>>, A1: seq<bool>, start0: int, sets: seq<set<int>>, T: seq<seq<Long>>, A: seq<bool>, k: int, i: int, j: int)
    requires Determinized(T1, A1, start0, sets, T, A)
    requires 0 <= k < |T| && 0 <= i < j < |T[k]|
    ensures Syms(T[k][i]) != Syms(T[k][j])
  {
    var a, b := T[k][i], T[k][j];
    assert a in T[k] && b in T[k];
    if Syms(a) == Syms(b) {
      assert sets[ToId(a)] == sets[ToId(b)];
      SymsToDetermine(a, b);
      assert false;
    }
  }

  /**
   * Reading a pair from a state of the outcome leads to the state whose
   * set holds exactly the old states reached from its set by that pair;
   * a pair none of its old states reads has no word.
   */
  lemma Step(T1: seq<seq<Long>>, A1: seq<bool>, start0: int, sets: seq<set<int>>, T: seq<seq<Long>>, A: seq<bool>, k: int, key: Long)
    requires Determinized(T1, A1, start0, sets, T, A) && 0 <= k < |T|
    ensures key in Keys(T1, sets[k]) ==> exists w :: w in T[k] && Syms(w) == key && 0 <= ToId(w) < |sets| && sets[ToId(w)] == Succ(T1, sets[k], key)
    ensures key !in Keys(T1, sets[k]) ==> forall w :: w in T[k] ==> Syms(w) != key
  {
  }
}
