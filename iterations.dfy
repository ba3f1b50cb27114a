/**
 * What the iterator interfaces of the live generation hand out, as values.
 *
 * A StateIterator walks the states in id order; for each it reports the
 * accepting flag and then the (input id, output id, to-state) of each
 * transition.  The transition iterators report Transition objects: the
 * to-state with the input and output strings.
 */
module Iterations {
  import opened JavaWords
  import opened Packing
  import opened Collections

  /** One transition as inId(), outId() and toId() report it. */
  datatype Arc = Arc(inId: Int, outId: Int, toId: Int)

  /** One state: accepting() and the transitions hasNextTransition() walks through. */
  datatype IteratedState = IteratedState(accepting: bool, arcs: seq<Arc>)

  /** A whole walk: getStartState() and the states hasNextState() walks through. */
  datatype StateIteration = StateIteration(start: Int, states: seq<IteratedState>)

  /** The Transition objects of the transition iterators. */
  datatype Transition = Transition(toState: Int, inSym: string, outSym: string)

  /** The words the constructors pack the reported arcs into, in reporting order. */
  function PackArcs(arcs: seq<Arc>): (r: seq<Long>)
    ensures |r| == |arcs|
    ensures forall k :: 0 <= k < |arcs| ==> r[k] == MakeTransition(arcs[k].inId, arcs[k].outId, arcs[k].toId)
  {
    seq(|arcs|, k requires 0 <= k < |arcs| => MakeTransition(arcs[k].inId, arcs[k].outId, arcs[k].toId))
  }

  /** The arcs a state iterator reports for a list of stored words. */
  function ArcsOf(xs: seq<Long>): (r: seq<Arc>)
    ensures |r| == |xs|
    ensures forall k :: 0 <= k < |xs| ==> r[k] == Arc(InId(xs[k]), OutId(xs[k]), ToId(xs[k]))
  {
    seq(|xs|, k requires 0 <= k < |xs| => Arc(InId(xs[k]), OutId(xs[k]), ToId(xs[k])))
  }

  /**
   * A word the packing reproduces: one whose to-state is a non-negative int.
   * Every input field qualifies: from 2^15 up it reads back negative, and
   * packing the negative id fills the field with the same sixteen bits.
   */
  predicate Repackable(w: Long)
  {
    ToField(w) < TWO31
  }

  /** Reading a repackable word's ids and packing them again gives the word back. */
  lemma RepackWord(w: Long)
    requires Repackable(w)
    ensures MakeTransition(InId(w), OutId(w), ToId(w)) == w
  {
    PatBits(w);
    Decode(w);
    if InField(w) <= MAX_IN_ID {
      MakeWord(InId(w), OutId(w), ToId(w));
    } else {
      MakeWordNegative(InId(w), OutId(w), ToId(w));
    }
    WordFields(InField(w), OutField(w), ToField(w));
    FieldsDetermine(MakeTransition(InId(w), OutId(w), ToId(w)), w);
  }

  /** Packing the arcs reported for repackable words gives back the words. */
  lemma RepackArcs(xs: seq<Long>)
    requires forall w :: w in xs ==> Repackable(w)
    ensures PackArcs(ArcsOf(xs)) == xs
  {
    forall k | 0 <= k < |xs|
      ensures PackArcs(ArcsOf(xs))[k] == xs[k]
    {
      RepackWord(xs[k]);
    }
  }

  // ---------------------------------------------------------------------
  // What the transition iterators report

  /** The stored words whose input id is `id`, in list order. */
  function WordsWithInput(xs: seq<Long>, id: Int): (r: seq<Long>)
    ensures |r| <= |xs|
    ensures forall w :: w in r ==> w in xs && InId(w) == id
  {
    if xs == [] then []
    else
      var r := WordsWithInput(xs[..|xs| - 1], id);
      if InId(xs[|xs| - 1]) == id then r + [xs[|xs| - 1]] else r
  }

  /** A word is among those selected exactly when it is stored and reads `id`. */
  lemma {:induction false} WordsWithInputMembers(xs: seq<Long>, id: Int)
    ensures forall w :: w in WordsWithInput(xs, id) <==> w in xs && InId(w) == id
  {
    if xs != [] {
      WordsWithInputMembers(xs[..|xs| - 1], id);
      assert xs == xs[..|xs| - 1] + [xs[|xs| - 1]];
    }
  }

  /** Selecting from a concatenation selects from each part. */
  lemma {:induction false} WordsWithInputAppend(xs: seq<Long>, ys: seq<Long>, id: Int)
    ensures WordsWithInput(xs + ys, id) == WordsWithInput(xs, id) + WordsWithInput(ys, id)
    decreases |ys|
  {
    if ys == [] {
      assert xs + ys == xs;
    } else {
      var n := |ys| - 1;
      assert (xs + ys)[..|xs + ys| - 1] == xs + ys[..n];
      WordsWithInputAppend(xs, ys[..n], id);
    }
  }

  /** A list none of whose words reads `id` contributes nothing. */
  lemma {:induction false} WordsWithInputNone(xs: seq<Long>, id: Int)
    requires forall k :: 0 <= k < |xs| ==> InId(xs[k]) != id
    ensures WordsWithInput(xs, id) == []
  {
    if xs != [] {
      WordsWithInputNone(xs[..|xs| - 1], id);
    }
  }

  /** A list all of whose words read `id` is selected whole. */
  lemma {:induction false} WordsWithInputAll(xs: seq<Long>, id: Int)
    requires forall k :: 0 <= k < |xs| ==> InId(xs[k]) == id
    ensures WordsWithInput(xs, id) == xs
  {
    if xs != [] {
      WordsWithInputAll(xs[..|xs| - 1], id);
      assert xs == xs[..|xs| - 1] + [xs[|xs| - 1]];
    }
  }

  /** Selecting from a list cut in three selects from each piece. */
  lemma WordsWithInputSplit(xs: seq<Long>, id: Int, lo: int, hi: int)
    requires 0 <= lo <= hi <= |xs|
    ensures WordsWithInput(xs, id) == WordsWithInput(xs[0..lo], id) + WordsWithInput(xs[lo..hi], id) + WordsWithInput(xs[hi..|xs|], id)
  {
    assert xs[0..lo] + xs[lo..hi] == xs[..hi];
    assert xs[..hi] + xs[hi..|xs|] == xs;
    WordsWithInputAppend(xs[..hi], xs[hi..|xs|], id);
    WordsWithInputAppend(xs[0..lo], xs[lo..hi], id);
  }

  /**
   * When the words reading `id` form one run xs[lo..hi], the selection is
   * that run.
   */
  lemma WordsWithInputRun(xs: seq<Long>, id: Int, lo: int, hi: int)
    requires 0 <= lo <= hi <= |xs|
    requires forall k :: 0 <= k < |xs| ==> (InId(xs[k]) == id <==> lo <= k < hi)
    ensures WordsWithInput(xs, id) == xs[lo..hi]
  {
    SliceNone(xs, id, 0, lo);
    SliceAll(xs, id, lo, hi);
    SliceNone(xs, id, hi, |xs|);
    WordsWithInputSplit(xs, id, lo, hi);
    EmptyAround(xs[lo..hi]);
  }

  lemma EmptyAround(b: seq<Long>)
    ensures [] + b + [] == b
  {
  }

  /** A slice none of whose words reads `id` contributes nothing. */
  lemma SliceNone(xs: seq<Long>, id: Int, lo: int, hi: int)
    requires 0 <= lo <= hi <= |xs|
    requires forall k :: lo <= k < hi ==> InId(xs[k]) != id
    ensures WordsWithInput(xs[lo..hi], id) == []
  {
    var a := xs[lo..hi];
    forall k | 0 <= k < |a|
      ensures InId(a[k]) != id
    {
      assert a[k] == xs[lo + k];
    }
    WordsWithInputNone(a, id);
  }

  /** A slice all of whose words read `id` is selected whole. */
  lemma SliceAll(xs: seq<Long>, id: Int, lo: int, hi: int)
    requires 0 <= lo <= hi <= |xs|
    requires forall k :: lo <= k < hi ==> InId(xs[k]) == id
    ensures WordsWithInput(xs[lo..hi], id) == xs[lo..hi]
  {
    var a := xs[lo..hi];
    forall k | 0 <= k < |a|
      ensures InId(a[k]) == id
    {
      assert a[k] == xs[lo + k];
    }
    WordsWithInputAll(a, id);
  }

  /** Word k of xs carries the input key in its top 16 bits: (xs[k] & GET_IN_SYM) == key. */
  predicate ReadsAt(xs: seq<Long>, k: int, key: Long)
    requires 0 <= k < |xs|
  {
    And(xs[k], GET_IN_SYM) == key
  }

  /**
   * In a sorted list the words whose input field is `id` (their input id
   * reads back as SignedIn(id)) start where the key id << 48 would go and
   * run on while the masked input field equals the key.
   */
  lemma SortedRun(xs: seq<Long>, id: Int, lo: int, hi: int)
    requires Sorted(xs) && 0 <= id < TWO16 && 0 <= lo <= hi <= |xs|
    requires forall k :: 0 <= k < lo ==> xs[k] < Key(id)
    requires lo < |xs| ==> xs[lo] >= Key(id)
    requires forall k :: lo <= k < hi ==> ReadsAt(xs, k, Key(id))
    requires hi < |xs| ==> !ReadsAt(xs, hi, Key(id))
    ensures WordsWithInput(xs, SignedIn(id)) == xs[lo..hi]
  {
    forall k | 0 <= k < |xs|
      ensures InId(xs[k]) == SignedIn(id) <==> lo <= k < hi
    {
      KeyBlock(xs[k], id);
      if hi <= k {
        KeyBlock(xs[hi], id);
        if hi < k {
          assert xs[hi] <= xs[k];
        }
      } else if lo <= k {
        assert ReadsAt(xs, k, Key(id));
      } else {
        assert xs[k] < Key(id);
      }
    }
    WordsWithInputRun(xs, SignedIn(id), lo, hi);
  }

  /**
   * The ids a report looks up are entries of the symbol table: the output
   * id always, the input id only for the iterator over all transitions
   * (the one for a single symbol reports that symbol instead).
   */
  predicate SpelledWord(w: Long, table: seq<string>, all: bool)
  {
    (all ==> 0 <= InId(w) < |table|) && 0 <= OutId(w) < |table|
  }

  /** Every word of the list names entries of the symbol table. */
  predicate Spelled(xs: seq<Long>, table: seq<string>, all: bool)
  {
    forall w :: w in xs ==> SpelledWord(w, table, all)
  }

  /** A list made of words of a spelled list is spelled. */
  lemma SpelledWithin(vs: seq<Long>, ws: seq<Long>, table: seq<string>, all: bool)
    requires Spelled(ws, table, all) && forall w :: w in vs ==> w in ws
    ensures Spelled(vs, table, all)
  {
  }

  /**
   * next(): the Transition for one word.  The iterator for one input string
   * `inC` reports `inC` as input; the iterator over all transitions spells
   * the input id.  An identity output repeats `inC`, which is "" for the
   * iterator over all transitions.
   */
  function Report(w: Long, inC: string, all: bool, table: seq<string>, identity: int): (t: Transition)
    requires SpelledWord(w, table, all)
    ensures t.toState == ToId(w)
    ensures t.inSym == (if all then table[InId(w)] else inC)
    ensures t.outSym == (if OutId(w) == identity then inC else table[OutId(w)])
  {
    Transition(ToId(w), if all then table[InId(w)] else inC, if OutId(w) == identity then inC else table[OutId(w)])
  }

  /** The transitions an iterator reports for the words it walks over, in order. */
  function Reports(ws: seq<Long>, inC: string, all: bool, table: seq<string>, identity: int): (r: seq<Transition>)
    requires Spelled(ws, table, all)
    ensures |r| == |ws|
  {
    if ws == [] then []
    else Reports(ws[..|ws| - 1], inC, all, table, identity) + [Report(ws[|ws| - 1], inC, all, table, identity)]
  }

  /** Each reported transition is the report of the word at the same position. */
  lemma {:induction false} ReportsIndex(ws: seq<Long>, inC: string, all: bool, table: seq<string>, identity: int, k: int)
    requires Spelled(ws, table, all) && 0 <= k < |ws|
    ensures Reports(ws, inC, all, table, identity)[k] == Report(ws[k], inC, all, table, identity)
  {
    if k < |ws| - 1 {
      ReportsIndex(ws[..|ws| - 1], inC, all, table, identity, k);
    }
  }

  /** Reporting a list extended by one word extends the reports by that word's report. */
  lemma ReportsSnoc(ws: seq<Long>, w: Long, inC: string, all: bool, table: seq<string>, identity: int)
    requires Spelled(ws + [w], table, all)
    ensures Spelled(ws, table, all)
    ensures Reports(ws + [w], inC, all, table, identity) == Reports(ws, inC, all, table, identity) + [Report(w, inC, all, table, identity)]
  {
    assert (ws + [w])[..|ws|] == ws;
  }

  /** One more word of a spelled list: its prefix is spelled and reports one more transition. */
  lemma ReportsStep(ws: seq<Long>, i: int, inC: string, all: bool, table: seq<string>, identity: int)
    requires Spelled(ws, table, all) && 0 <= i < |ws|
    ensures Spelled(ws[..i + 1], table, all) && SpelledWord(ws[i], table, all)
    ensures Reports(ws[..i + 1], inC, all, table, identity) == Reports(ws[..i], inC, all, table, identity) + [Report(ws[i], inC, all, table, identity)]
  {
    assert ws[i] in ws;
    assert ws[..i + 1] == ws[..i] + [ws[i]];
    SpelledWithin(ws[..i + 1], ws, table, all);
    ReportsSnoc(ws[..i], ws[i], inC, all, table, identity);
  }

  /** The reports are exactly the reports of the words walked over. */
  lemma ReportsMembers(ws: seq<Long>, inC: string, all: bool, table: seq<string>, identity: int)
    requires Spelled(ws, table, all)
    ensures forall w :: w in ws ==> Report(w, inC, all, table, identity) in Reports(ws, inC, all, table, identity)
    ensures forall t :: t in Reports(ws, inC, all, table, identity) ==> exists w :: w in ws && t == Report(w, inC, all, table, identity)
  {
    var r := Reports(ws, inC, all, table, identity);
    forall w | w in ws
      ensures Report(w, inC, all, table, identity) in r
    {
      var k :| 0 <= k < |ws| && ws[k] == w;
      ReportsIndex(ws, inC, all, table, identity, k);
    }
    forall t | t in r
      ensures exists w :: w in ws && t == Report(w, inC, all, table, identity)
    {
      var k :| 0 <= k < |r| && r[k] == t;
      ReportsIndex(ws, inC, all, table, identity, k);
      assert ws[k] in ws;
    }
  }

  /**
   * The iterator for one input symbol reports, with that symbol as input,
   * exactly the stored words reading its id: each with the word's to-state
   * and output, the output being the symbol itself for the identity id.
   */
  lemma SymbolReports(xs: seq<Long>, id: Int, inC: string, table: seq<string>, identity: int)
    requires Spelled(xs, table, false)
    ensures Spelled(WordsWithInput(xs, id), table, false)
    ensures forall t :: t in Reports(WordsWithInput(xs, id), inC, false, table, identity) ==>
      t.inSym == inC && exists w :: w in xs && InId(w) == id && t == Report(w, inC, false, table, identity)
    ensures forall w :: w in xs && InId(w) == id ==> Report(w, inC, false, table, identity) in Reports(WordsWithInput(xs, id), inC, false, table, identity)
  {
    WordsWithInputMembers(xs, id);
    ReportsMembers(WordsWithInput(xs, id), inC, false, table, identity);
  }
}
