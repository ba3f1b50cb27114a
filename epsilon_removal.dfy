/**
 * The value-level view of removeEpsilons in the editable automaton: the
 * epsilon:epsilon graph, the states reachable through it, and what stays
 * true while the recursion deletes epsilon:epsilon words and copies the
 * transitions and flags of reachable states.  The live alphabet gives
 * epsilon the id 0.
 *
 * T0, A0 are the transition lists and accepting flags before the removal;
 * rank witnesses that the epsilon:epsilon graph is acyclic, which the
 * recursion needs to terminate.
 */
module EpsilonRemoval {
  import opened JavaWords
  import opened Packing
  import opened Collections

  /** An epsilon:epsilon word. */
  predicate EpsEps(w: Long)
  {
    IsEpsilonTransition(w, 0)
  }

  predicate EpsFree(xs: seq<Long>)
  {
    forall w :: w in xs ==> !EpsEps(w)
  }

  /** Every word of b is a word of a. */
  predicate Includes(a: seq<Long>, b: seq<Long>)
  {
    forall w :: w in b ==> w in a
  }

  /** Every list strictly ascending and every to-state the index of a state. */
  predicate WellFormed(T: seq<seq<Long>>)
  {
    forall u :: 0 <= u < |T| ==> Increasing(T[u]) && forall w :: w in T[u] ==> 0 <= ToId(w) < |T|
  }

  /** The states one epsilon:epsilon word leads to. */
  function EpsTargets(xs: seq<Long>): set<int>
  {
    set w | w in xs && EpsEps(w) :: ToId(w) as int
  }

  /** rank decreases along every epsilon:epsilon word: the epsilon:epsilon graph is acyclic. */
  predicate Ranked(T: seq<seq<Long>>, rank: seq<nat>)
  {
    |rank| == |T| &&
    forall u, w :: 0 <= u < |T| && w in T[u] && EpsEps(w) ==> 0 <= ToId(w) < |T| && rank[ToId(w)] < rank[u]
  }

  /** The states reachable from u by one or more epsilon:epsilon words. */
  function Reach(T: seq<seq<Long>>, rank: seq<nat>, u: int): set<int>
    requires Ranked(T, rank) && 0 <= u < |T|
    decreases rank[u]
  {
    EpsTargets(T[u]) + (set w, x | w in T[u] && EpsEps(w) && x in Reach(T, rank, ToId(w)) :: x)
  }

  /** A reachable state is a direct epsilon:epsilon target or reachable from one. */
  lemma ReachStep(T: seq<seq<Long>>, rank: seq<nat>, u: int, x: int)
    requires Ranked(T, rank) && 0 <= u < |T| && x in Reach(T, rank, u)
    ensures exists w :: w in T[u] && EpsEps(w) && (x == ToId(w) || x in Reach(T, rank, ToId(w)))
  {
  }

  lemma {:induction false} ReachBelow(T: seq<seq<Long>>, rank: seq<nat>, u: int, x: int)
    requires Ranked(T, rank) && 0 <= u < |T| && x in Reach(T, rank, u)
    ensures 0 <= x < |T| && rank[x] < rank[u]
    decreases rank[u]
  {
    ReachStep(T, rank, u, x);
    var w :| w in T[u] && EpsEps(w) && (x == ToId(w) || x in Reach(T, rank, ToId(w)));
    if x != ToId(w) {
      ReachBelow(T, rank, ToId(w), x);
    }
  }

  /** What is reachable from a reachable state is reachable. */
  lemma {:induction false} ReachTransitive(T: seq<seq<Long>>, rank: seq<nat>, u: int, v: int, x: int)
    requires Ranked(T, rank) && 0 <= u < |T| && v in Reach(T, rank, u)
    requires 0 <= v < |T| && x in Reach(T, rank, v)
    ensures x in Reach(T, rank, u)
    decreases rank[u]
  {
    ReachStep(T, rank, u, v);
    var w :| w in T[u] && EpsEps(w) && (v == ToId(w) || v in Reach(T, rank, ToId(w)));
    if v != ToId(w) {
      ReachBelow(T, rank, ToId(w), v);
      ReachTransitive(T, rank, ToId(w), v, x);
    }
  }

  // ---------------------------------------------------------------------
  // The invariant of the removal

  /** Sizes agree, the lists are well formed and the original graph is acyclic. */
  predicate Shape(T: seq<seq<Long>>, A: seq<bool>, T0: seq<seq<Long>>, A0: seq<bool>, rank: seq<nat>)
  {
    |T| == |T0| == |A| == |A0| && WellFormed(T) && Ranked(T0, rank)
  }

  /** The only epsilon:epsilon words are original ones: the removal never adds any. */
  predicate EpsOriginal(T: seq<seq<Long>>, T0: seq<seq<Long>>)
    requires |T| == |T0|
  {
    forall u, w :: 0 <= u < |T| && w in T[u] && EpsEps(w) ==> w in T0[u]
  }

  /** Every word is original or a non-epsilon word of a state reachable in the original graph. */
  predicate WordsFromReach(T: seq<seq<Long>>, T0: seq<seq<Long>>, rank: seq<nat>)
    requires |T| == |T0| && Ranked(T0, rank)
  {
    forall u, w :: 0 <= u < |T| && w in T[u] ==> FromReach(T0, rank, u, w)
  }

  /** w is a word of u or a non-epsilon word of a state u reaches, in the original graph. */
  predicate FromReach(T0: seq<seq<Long>>, rank: seq<nat>, u: int, w: Long)
    requires Ranked(T0, rank) && 0 <= u < |T0|
  {
    w in T0[u] || (!EpsEps(w) && exists v :: v in Reach(T0, rank, u) && 0 <= v < |T0| && w in T0[v])
  }

  /** Every accepting state was accepting or reaches an originally accepting state. */
  predicate AcceptFromReach(A: seq<bool>, T0: seq<seq<Long>>, A0: seq<bool>, rank: seq<nat>)
    requires |A| == |T0| == |A0| && Ranked(T0, rank)
  {
    forall u :: 0 <= u < |A| && A[u] ==>
      A0[u] || exists v :: v in Reach(T0, rank, u) && 0 <= v < |A0| && A0[v]
  }

  /** No non-epsilon word and no accepting flag is ever lost. */
  predicate Kept(T: seq<seq<Long>>, A: seq<bool>, T0: seq<seq<Long>>, A0: seq<bool>)
    requires |T| == |T0| == |A| == |A0|
  {
    (forall u, w :: 0 <= u < |T0| && w in T0[u] && !EpsEps(w) ==> w in T[u]) &&
    (forall u :: 0 <= u < |A0| && A0[u] ==> A[u])
  }

  /**
   * The processed states P: epsilon-free, and each holds the words and the
   * acceptance of the states its original epsilon:epsilon words lead to,
   * which are processed too.
   */
  predicate Processed(T: seq<seq<Long>>, A: seq<bool>, T0: seq<seq<Long>>, P: set<int>)
    requires |T| == |T0| == |A|
  {
    forall u :: u in P ==> 0 <= u < |T| && EpsFree(T[u]) && Covers(T, A, T0, P, u)
  }

  /** u holds the words and the acceptance of each processed target of its original epsilon:epsilon words. */
  predicate Covers(T: seq<seq<Long>>, A: seq<bool>, T0: seq<seq<Long>>, P: set<int>, u: int)
    requires |T| == |T0| == |A| && 0 <= u < |T|
  {
    forall w :: w in T0[u] && EpsEps(w) ==>
      ToId(w) in P && 0 <= ToId(w) < |T| && Includes(T[u], T[ToId(w)]) && (A[ToId(w)] ==> A[u])
  }

  predicate Inv(T: seq<seq<Long>>, A: seq<bool>, T0: seq<seq<Long>>, A0: seq<bool>, rank: seq<nat>, P: set<int>)
  {
    Shape(T, A, T0, A0, rank) && EpsOriginal(T, T0) && WordsFromReach(T, T0, rank) &&
    AcceptFromReach(A, T0, A0, rank) && Kept(T, A, T0, A0) && Processed(T, A, T0, P)
  }

  /** Before any removal the invariant holds with nothing processed. */
  lemma InvInit(T0: seq<seq<Long>>, A0: seq<bool>, rank: seq<nat>)
    requires |T0| == |A0| && WellFormed(T0) && Ranked(T0, rank)
    ensures Inv(T0, A0, T0, A0, rank, {})
  {
  }

  /** Deleting an epsilon:epsilon word of an unprocessed state keeps the invariant. */
  lemma RemoveStep(T: seq<seq<Long>>, A: seq<bool>, T0: seq<seq<Long>>, A0: seq<bool>, rank: seq<nat>, P: set<int>, st: int, i: nat)
    requires Inv(T, A, T0, A0, rank, P)
    requires 0 <= st < |T| && st !in P && i < |T[st]| && EpsEps(T[st][i])
    ensures Inv(T[st := RemoveAt(T[st], i)], A, T0, A0, rank, P)
  {
    RemoveAtSpec(T[st], i);
    var T' := T[st := RemoveAt(T[st], i)];
    assert forall u :: 0 <= u < |T| && u != st ==> T'[u] == T[u];
    assert Includes(T[st], T'[st]);
    RemoveKeeps(T, A, T0, A0, rank, T', st);
    RemoveProcessed(T, A, T0, P, T', st);
  }

  lemma RemoveKeeps(T: seq<seq<Long>>, A: seq<bool>, T0: seq<seq<Long>>, A0: seq<bool>, rank: seq<nat>, T': seq<seq<Long>>, st: int)
    requires Shape(T, A, T0, A0, rank) && EpsOriginal(T, T0) && WordsFromReach(T, T0, rank) && Kept(T, A, T0, A0)
    requires |T'| == |T| && 0 <= st < |T| && Increasing(T'[st]) && Includes(T[st], T'[st])
    requires forall w :: w in T[st] && !EpsEps(w) ==> w in T'[st]
    requires forall u :: 0 <= u < |T| && u != st ==> T'[u] == T[u]
    ensures Shape(T', A, T0, A0, rank) && EpsOriginal(T', T0) && WordsFromReach(T', T0, rank) && Kept(T', A, T0, A0)
  {
  }

  lemma RemoveProcessed(T: seq<seq<Long>>, A: seq<bool>, T0: seq<seq<Long>>, P: set<int>, T': seq<seq<Long>>, st: int)
    requires |T| == |T0| == |A| && Processed(T, A, T0, P)
    requires |T'| == |T| && 0 <= st < |T| && st !in P
    requires forall u :: 0 <= u < |T| && u != st ==> T'[u] == T[u]
    ensures Processed(T', A, T0, P)
  {
    forall u | u in P
      ensures Covers(T', A, T0, P, u)
    {
      assert Covers(T, A, T0, P, u);
    }
  }

  /**
   * Copying the words and the acceptance of a processed reachable state r
   * into an unprocessed state keeps the invariant.
   */
  lemma UnionStep(T: seq<seq<Long>>, A: seq<bool>, T0: seq<seq<Long>>, A0: seq<bool>, rank: seq<nat>, P: set<int>, st: int, r: int)
    requires Inv(T, A, T0, A0, rank, P)
    requires 0 <= st < |T| && st !in P && r in P && r in Reach(T0, rank, st)
    ensures Inv(T[st := AddAll(T[st], T[r])], A[st := A[st] || A[r]], T0, A0, rank, P)
    ensures Includes(AddAll(T[st], T[r]), T[r])
  {
    ReachBelow(T0, rank, st, r);
    AddAllSpec(T[st], T[r]);
    var T', A' := T[st := AddAll(T[st], T[r])], A[st := A[st] || A[r]];
    assert forall u :: 0 <= u < |T| && u != st ==> T'[u] == T[u];
    assert EpsFree(T[r]);
    UnionShape(T, A, T0, A0, rank, T', A', st, r);
    UnionWords(T, T0, rank, T', st, r);
    UnionAccept(T, A, T0, A0, rank, A', st, r);
    RemoveProcessed(T, A, T0, P, T', st);
    UnionProcessedFlags(T', A, T0, P, A', st);
  }

  lemma UnionShape(T: seq<seq<Long>>, A: seq<bool>, T0: seq<seq<Long>>, A0: seq<bool>, rank: seq<nat>, T': seq<seq<Long>>, A': seq<bool>, st: int, r: int)
    requires Shape(T, A, T0, A0, rank) && EpsOriginal(T, T0) && Kept(T, A, T0, A0)
    requires 0 <= st < |T| && 0 <= r < |T| && EpsFree(T[r])
    requires |T'| == |T| && Increasing(T'[st]) && forall w :: w in T'[st] <==> w in T[st] || w in T[r]
    requires forall u :: 0 <= u < |T| && u != st ==> T'[u] == T[u]
    requires A' == A[st := A[st] || A[r]]
    ensures Shape(T', A', T0, A0, rank) && EpsOriginal(T', T0) && Kept(T', A', T0, A0)
  {
  }

  lemma UnionWords(T: seq<seq<Long>>, T0: seq<seq<Long>>, rank: seq<nat>, T': seq<seq<Long>>, st: int, r: int)
    requires |T| == |T0| && Ranked(T0, rank) && WordsFromReach(T, T0, rank)
    requires 0 <= st < |T| && 0 <= r < |T| && r in Reach(T0, rank, st) && EpsFree(T[r])
    requires |T'| == |T| && forall w :: w in T'[st] <==> w in T[st] || w in T[r]
    requires forall u :: 0 <= u < |T| && u != st ==> T'[u] == T[u]
    ensures WordsFromReach(T', T0, rank)
  {
    forall w | w in T'[st]
      ensures FromReach(T0, rank, st, w)
    {
      if w !in T[st] {
        assert w in T[r] && !EpsEps(w);
        assert FromReach(T0, rank, r, w);
        if w in T0[r] {
          assert r in Reach(T0, rank, st) && 0 <= r < |T0| && w in T0[r];
        } else {
          var v :| v in Reach(T0, rank, r) && 0 <= v < |T0| && w in T0[v];
          ReachTransitive(T0, rank, st, r, v);
        }
      }
    }
  }

  lemma UnionAccept(T: seq<seq<Long>>, A: seq<bool>, T0: seq<seq<Long>>, A0: seq<bool>, rank: seq<nat>, A': seq<bool>, st: int, r: int)
    requires |T| == |A| == |T0| == |A0| && Ranked(T0, rank) && AcceptFromReach(A, T0, A0, rank)
    requires 0 <= st < |T| && 0 <= r < |T| && r in Reach(T0, rank, st)
    requires A' == A[st := A[st] || A[r]]
    ensures AcceptFromReach(A', T0, A0, rank)
  {
    if A'[st] && !A[st] && !A0[r] {
      var v :| v in Reach(T0, rank, r) && 0 <= v < |A0| && A0[v];
      ReachTransitive(T0, rank, st, r, v);
    }
  }

  lemma UnionProcessedFlags(T: seq<seq<Long>>, A: seq<bool>, T0: seq<seq<Long>>, P: set<int>, A': seq<bool>, st: int)
    requires |T| == |T0| == |A| == |A'| && Processed(T, A, T0, P) && st !in P
    requires forall u :: 0 <= u < |A| && u != st ==> A'[u] == A[u]
    ensures Processed(T, A', T0, P)
  {
    forall u | u in P
      ensures Covers(T, A', T0, P, u)
    {
      assert Covers(T, A, T0, P, u);
    }
  }

  /** An unprocessed state becomes processed once it is epsilon-free and covers its targets. */
  lemma FinishStep(T: seq<seq<Long>>, A: seq<bool>, T0: seq<seq<Long>>, A0: seq<bool>, rank: seq<nat>, P: set<int>, st: int)
    requires Inv(T, A, T0, A0, rank, P)
    requires 0 <= st < |T| && EpsFree(T[st]) && Covers(T, A, T0, P, st)
    ensures Inv(T, A, T0, A0, rank, P + {st})
  {
    forall u | u in P + {st}
      ensures Covers(T, A, T0, P + {st}, u)
    {
      assert Covers(T, A, T0, P, u);
    }
  }

  /** With every state processed, a state holds the words and the acceptance of every state it reaches. */
  lemma {:induction false} AllProcessed(T: seq<seq<Long>>, A: seq<bool>, T0: seq<seq<Long>>, A0: seq<bool>, rank: seq<nat>, P: set<int>, u: int, v: int)
    requires Inv(T, A, T0, A0, rank, P) && 0 <= u < |T| && u in P
    requires v in Reach(T0, rank, u)
    ensures 0 <= v < |T| && Includes(T[u], T[v]) && (A[v] ==> A[u])
    decreases rank[u]
  {
    ReachStep(T0, rank, u, v);
    var w :| w in T0[u] && EpsEps(w) && (v == ToId(w) || v in Reach(T0, rank, ToId(w)));
    assert Covers(T, A, T0, P, u);
    if v != ToId(w) {
      AllProcessed(T, A, T0, A0, rank, P, ToId(w), v);
    }
  }

  /** u still holds every one of its original epsilon:epsilon words. */
  predicate EpsIntact(T: seq<seq<Long>>, T0: seq<seq<Long>>, u: int)
    requires |T| == |T0| && 0 <= u < |T|
  {
    forall w :: w in T0[u] && EpsEps(w) ==> w in T[u]
  }

  /** A state the removal has not processed yet still has all its words. */
  lemma UntouchedIntact(T: seq<seq<Long>>, T0: seq<seq<Long>>, rank: seq<nat>, P: set<int>, st: int)
    requires |T| == |T0| == |rank| && 0 <= st < |T|
    requires forall u :: 0 <= u < |T| && u !in P ==> T[u] == T0[u]
    ensures forall u :: 0 <= u < |T| && u !in P && rank[u] <= rank[st] ==> EpsIntact(T, T0, u)
  {
  }

  /**
   * The outcome of the removal: no epsilon:epsilon word is left, a state
   * holds its own remaining words and those of every state it reached, and
   * it accepts iff it or one of those states accepted.
   */
  predicate EpsilonsRemoved(T: seq<seq<Long>>, A: seq<bool>, T0: seq<seq<Long>>, A0: seq<bool>, rank: seq<nat>)
    requires |T| == |T0| == |A| == |A0| && Ranked(T0, rank)
  {
    forall u :: 0 <= u < |T| ==>
      EpsFree(T[u]) &&
      (forall w :: w in T[u] <==> !EpsEps(w) && (w in T0[u] || exists v :: v in Reach(T0, rank, u) && 0 <= v < |T0| && w in T0[v])) &&
      (A[u] <==> A0[u] || exists v :: v in Reach(T0, rank, u) && 0 <= v < |A0| && A0[v])
  }

  /** Once every state is processed the invariant gives the outcome. */
  lemma RemovalComplete(T: seq<seq<Long>>, A: seq<bool>, T0: seq<seq<Long>>, A0: seq<bool>, rank: seq<nat>, P: set<int>)
    requires Inv(T, A, T0, A0, rank, P) && forall u :: 0 <= u < |T| ==> u in P
    ensures |T| == |T0| == |A| == |A0| && WellFormed(T) && Ranked(T0, rank)
    ensures EpsilonsRemoved(T, A, T0, A0, rank)
  {
    forall u | 0 <= u < |T|
      ensures forall w :: w in T[u] <==> !EpsEps(w) && (w in T0[u] || exists v :: v in Reach(T0, rank, u) && 0 <= v < |T0| && w in T0[v])
      ensures A[u] <==> A0[u] || exists v :: v in Reach(T0, rank, u) && 0 <= v < |A0| && A0[v]
    {
      forall w | !EpsEps(w) && exists v :: v in Reach(T0, rank, u) && 0 <= v < |T0| && w in T0[v]
        ensures w in T[u]
      {
        var v :| v in Reach(T0, rank, u) && 0 <= v < |T0| && w in T0[v];
        AllProcessed(T, A, T0, A0, rank, P, u, v);
      }
      forall w | w in T[u]
        ensures !EpsEps(w) && FromReach(T0, rank, u, w)
      {
      }
      if !A0[u] && exists v :: v in Reach(T0, rank, u) && 0 <= v < |A0| && A0[v] {
        var v :| v in Reach(T0, rank, u) && 0 <= v < |A0| && A0[v];
        AllProcessed(T, A, T0, A0, rank, P, u, v);
      }
    }
  }

  /** A negative word has a negative input id, so it is not epsilon:epsilon. */
  lemma BelowEpsilonBlock(w: Long)
    requires w < 0
    ensures !EpsEps(w)
  {
    KeyValue(0);
    KeyBlock(w, 0);
  }

  /**
   * In a strictly ascending list, once a non-negative word has an input id
   * other than 0, no word from there on is epsilon:epsilon.
   */
  lemma PastEpsilonBlock(xs: seq<Long>, i: int)
    requires Increasing(xs) && 0 <= i < |xs| && xs[i] >= 0 && InId(xs[i]) != 0
    ensures forall k :: i <= k < |xs| ==> !EpsEps(xs[k])
  {
    KeyValue(0);
    KeyBlock(xs[i], 0);
    forall k | i <= k < |xs|
      ensures !EpsEps(xs[k])
    {
      KeyBlock(xs[k], 0);
    }
  }

  /** An epsilon:epsilon word of a state is original, so its target is in range, ranked lower and reachable. */
  lemma EpsTarget(T: seq<seq<Long>>, A: seq<bool>, T0: seq<seq<Long>>, A0: seq<bool>, rank: seq<nat>, P: set<int>, st: int, w: Long)
    requires Inv(T, A, T0, A0, rank, P) && 0 <= st < |T| && w in T[st] && EpsEps(w)
    ensures st !in P && w in T0[st]
    ensures 0 <= ToId(w) < |T| && rank[ToId(w)] < rank[st] && ToId(w) in Reach(T0, rank, st)
  {
    assert ToId(w) in EpsTargets(T0[st]);
  }

  /** st holds the words and the acceptance of every state in R. */
  predicate CopiedInto(T: seq<seq<Long>>, A: seq<bool>, st: int, R: set<int>)
    requires |T| == |A| && 0 <= st < |T|
  {
    forall x :: x in R ==> 0 <= x < |T| && Includes(T[st], T[x]) && (A[x] ==> A[st])
  }

  /** Copying r into st adds r and keeps the earlier copies, which lie outside st. */
  lemma CopyOne(T: seq<seq<Long>>, A: seq<bool>, T': seq<seq<Long>>, A': seq<bool>, st: int, r: int, R: set<int>)
    requires |T| == |A| == |T'| == |A'| && 0 <= st < |T| && 0 <= r < |T| && st !in R
    requires forall u :: 0 <= u < |T| && u != st ==> T'[u] == T[u] && A'[u] == A[u]
    requires Includes(T'[st], T[st]) && Includes(T'[st], T[r]) && (A[st] ==> A'[st]) && (A[r] ==> A'[st])
    requires CopiedInto(T, A, st, R)
    ensures CopiedInto(T', A', st, R + {r})
  {
  }

  // ---------------------------------------------------------------------
  // The scan over one state's epsilon-input block

  /**
   * Scanning st at index i, having found the states in found: the invariant
   * holds with P' processed, P' grew from P by states ranked below st,
   * states outside P' other than st are as in Te, Ae (where every
   * unprocessed state ranked up to st still had its epsilon:epsilon words),
   * no word before i is epsilon:epsilon, the words from i on are not
   * negative, and each original epsilon:epsilon word of st is still there
   * or its target was found.
   */
  predicate Scanning(T: seq<seq<Long>>, A: seq<bool>, T0: seq<seq<Long>>, A0: seq<bool>, rank: seq<nat>,
                     P: set<int>, P': set<int>, Te: seq<seq<Long>>, Ae: seq<bool>, st: int, i: int, found: set<int>)
  {
    Inv(T, A, T0, A0, rank, P') && |Te| == |T| && |Ae| == |A| && 0 <= st < |T| &&
    (forall u :: 0 <= u < |Te| && u !in P && rank[u] <= rank[st] ==> EpsIntact(Te, T0, u)) &&
    P <= P' && (forall u :: u in P' ==> u in P || rank[u] < rank[st]) &&
    (forall u :: 0 <= u < |T| && u != st && u !in P' ==> T[u] == Te[u] && A[u] == Ae[u]) &&
    A[st] == Ae[st] && (st in P ==> T[st] == Te[st] && found == {}) &&
    0 <= i <= |T[st]| &&
    (forall k :: 0 <= k < i ==> !EpsEps(T[st][k])) &&
    (forall k :: i <= k < |T[st]| ==> T[st][k] >= 0) &&
    found <= P' && (forall x :: x in found ==> x in Reach(T0, rank, st)) &&
    (st !in P ==> forall w :: w in T0[st] && EpsEps(w) ==> w in T[st] || ToId(w) in found)
  }

  /** The scan starts at the insertion point of the first epsilon-input word, with nothing processed yet. */
  lemma ScanStart(T: seq<seq<Long>>, A: seq<bool>, T0: seq<seq<Long>>, A0: seq<bool>, rank: seq<nat>, P: set<int>, st: int)
    requires Inv(T, A, T0, A0, rank, P) && 0 <= st < |T|
    requires forall u :: 0 <= u < |T| && u !in P && rank[u] <= rank[st] ==> EpsIntact(T, T0, u)
    ensures Scanning(T, A, T0, A0, rank, P, P, T, A, st, InsertionPoint(T[st], 0), {})
  {
    InsertionPointSplits(T[st], 0);
    forall k | 0 <= k < InsertionPoint(T[st], 0)
      ensures !EpsEps(T[st][k])
    {
      BelowEpsilonBlock(T[st][k]);
    }
  }

  /** The unprocessed states ranked below st are still as they were, so they still have their epsilon:epsilon words. */
  lemma ScanIntact(T: seq<seq<Long>>, A: seq<bool>, T0: seq<seq<Long>>, A0: seq<bool>, rank: seq<nat>,
                   P: set<int>, P': set<int>, Te: seq<seq<Long>>, Ae: seq<bool>, st: int, i: int, found: set<int>)
    requires Scanning(T, A, T0, A0, rank, P, P', Te, Ae, st, i, found)
    ensures forall u :: 0 <= u < |T| && u !in P' && rank[u] < rank[st] ==> EpsIntact(T, T0, u)
  {
    forall u | 0 <= u < |T| && u !in P' && rank[u] < rank[st]
      ensures EpsIntact(T, T0, u)
    {
      assert T[u] == Te[u];
    }
  }

  /** Stepping over a word that is not epsilon:epsilon. */
  lemma ScanSkip(T: seq<seq<Long>>, A: seq<bool>, T0: seq<seq<Long>>, A0: seq<bool>, rank: seq<nat>,
                 P: set<int>, P': set<int>, Te: seq<seq<Long>>, Ae: seq<bool>, st: int, i: int, found: set<int>)
    requires Scanning(T, A, T0, A0, rank, P, P', Te, Ae, st, i, found)
    requires i < |T[st]| && !EpsEps(T[st][i])
    ensures Scanning(T, A, T0, A0, rank, P, P', Te, Ae, st, i + 1, found)
  {
  }

  /**
   * T', A', P' are T, A, P after st's word at i was deleted once its target
   * had been processed: the invariant holds with P' processed, P' grew by
   * states ranked below st, st lost exactly that word, the other states
   * outside P' are as they were, and more holds the target and only
   * processed states st reaches.
   */
  predicate Dropped(T: seq<seq<Long>>, A: seq<bool>, T0: seq<seq<Long>>, A0: seq<bool>, rank: seq<nat>, P: set<int>,
                    st: int, i: int, T': seq<seq<Long>>, A': seq<bool>, P': set<int>, more: set<int>)
  {
    Inv(T', A', T0, A0, rank, P') && DropRest(T, A, T0, rank, P, st, i, T', A', P', more)
  }

  /** Dropped but for the invariant. */
  predicate DropRest(T: seq<seq<Long>>, A: seq<bool>, T0: seq<seq<Long>>, rank: seq<nat>, P: set<int>,
                     st: int, i: int, T': seq<seq<Long>>, A': seq<bool>, P': set<int>, more: set<int>)
  {
    Ranked(T0, rank) && |T'| == |T| == |T0| && |A'| == |A| == |T| &&
    0 <= st < |T| && 0 <= i < |T[st]| && st !in P &&
    P <= P' && (forall u :: u in P' ==> 0 <= u < |T| && (u in P || rank[u] < rank[st])) &&
    (forall u :: 0 <= u < |T| && u != st && u !in P' ==> T'[u] == T[u] && A'[u] == A[u]) &&
    T'[st] == RemoveAt(T[st], i) && A'[st] == A[st] &&
    ToId(T[st][i]) in more && more <= P' && (forall x :: x in more ==> x in Reach(T0, rank, st))
  }

  /**
   * After the recursion into the target `to` of st's epsilon:epsilon word
   * at i (Tm, Am, P' being the lists, flags and processed states it left,
   * more the states it found), deleting that word completes the drop.
   */
  lemma DropDone(T: seq<seq<Long>>, A: seq<bool>, T0: seq<seq<Long>>, A0: seq<bool>, rank: seq<nat>, P: set<int>,
                 st: int, i: int, Tm: seq<seq<Long>>, Am: seq<bool>, P': set<int>, more: set<int>)
    requires Ranked(T0, rank) && |Tm| == |T| == |T0| == |A| == |Am| && P <= P'
    requires 0 <= st < |T| && st !in P && 0 <= i < |T[st]| && EpsEps(T[st][i])
    requires 0 <= ToId(T[st][i]) < |T| && rank[ToId(T[st][i])] < rank[st] && ToId(T[st][i]) in Reach(T0, rank, st)
    requires forall u :: u in P' ==> 0 <= u < |T| && (u in P || rank[u] <= rank[ToId(T[st][i])])
    requires forall u :: 0 <= u < |Tm| && u !in P' ==> Tm[u] == T[u] && Am[u] == A[u]
    requires ToId(T[st][i]) in P' && more <= P' && forall x :: x in more ==> x in Reach(T0, rank, ToId(T[st][i]))
    ensures st !in P' && Tm[st] == T[st]
    ensures DropRest(T, A, T0, rank, P, st, i, Tm[st := RemoveAt(Tm[st], i)], Am, P', {ToId(T[st][i])} + more)
    ensures |RemoveAt(Tm[st], i)| == |T[st]| - 1
  {
    var to := ToId(T[st][i]);
    assert st !in P';
    forall x | x in more
      ensures x in Reach(T0, rank, st)
    {
      ReachTransitive(T0, rank, st, to, x);
    }
  }

  /**
   * Deleting the epsilon:epsilon word at i once its target has been
   * processed: T', A' and P'' are the lists, flags and processed states
   * afterwards, and more the states the recursion found.
   */
  lemma ScanDrop(T: seq<seq<Long>>, A: seq<bool>, T0: seq<seq<Long>>, A0: seq<bool>, rank: seq<nat>,
                 P: set<int>, P': set<int>, Te: seq<seq<Long>>, Ae: seq<bool>, st: int, i: int, found: set<int>,
                 T': seq<seq<Long>>, A': seq<bool>, P'': set<int>, more: set<int>)
    requires Scanning(T, A, T0, A0, rank, P, P', Te, Ae, st, i, found)
    requires Dropped(T, A, T0, A0, rank, P', st, i, T', A', P'', more)
    ensures Scanning(T', A', T0, A0, rank, P, P'', Te, Ae, st, i, found + more)
  {
    RemoveAtSpec(T[st], i);
  }

  /** Once no word from i on is epsilon:epsilon, st is epsilon-free and every original target was found. */
  lemma ScanEnd(T: seq<seq<Long>>, A: seq<bool>, T0: seq<seq<Long>>, A0: seq<bool>, rank: seq<nat>,
                P: set<int>, P': set<int>, Te: seq<seq<Long>>, Ae: seq<bool>, st: int, i: int, found: set<int>)
    requires Scanning(T, A, T0, A0, rank, P, P', Te, Ae, st, i, found)
    requires forall k :: i <= k < |T[st]| ==> !EpsEps(T[st][k])
    ensures EpsFree(T[st])
    ensures st !in P ==> forall w :: w in T0[st] && EpsEps(w) ==> ToId(w) in found
  {
  }
}
