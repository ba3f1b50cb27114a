/**
 * CompactTransducer: the frozen automaton of the live generation.  All
 * packed transition words sit in one flat array; state k's words form the
 * span from stateOffsets[k] up to the next state's offset (the array's end
 * for the last state), and each span is sorted so that the words of one
 * input id can be found by binary search.
 */
module Compact {
  import opened JavaWords
  import opened Packing
  import opened Collections
  import opened Options
  import opened SymbolTable
  import opened Iterations
  import opened MutableCompact

  // ---------------------------------------------------------------------
  // The flat layout, as values

  /** The number of arcs a state walk reports over all states. */
  function TotalArcs(states: seq<IteratedState>): nat
  {
    if |states| == 0 then 0 else TotalArcs(states[..|states| - 1]) + |states[|states| - 1].arcs|
  }

  /** Where each list starts once the lists are laid end to end: the number of words before it. */
  function Offsets(T: seq<seq<Long>>): (r: seq<int>)
    ensures |r| == |T|
  {
    if |T| == 0 then [] else Offsets(T[..|T| - 1]) + [|Flatten(T[..|T| - 1])|]
  }

  /** List k starts after the words of the lists before it. */
  lemma {:induction false} OffsetsIndex(T: seq<seq<Long>>, k: int)
    requires 0 <= k < |T|
    ensures Offsets(T)[k] == |Flatten(T[..k])|
  {
    if k < |T| - 1 {
      OffsetsIndex(T[..|T| - 1], k);
      assert T[..|T| - 1][..k] == T[..k];
    }
  }

  /** Offsets that cut an array of n words into consecutive spans. */
  predicate Laid(offs: seq<int>, n: int)
  {
    (forall k :: 0 <= k < |offs| ==> 0 <= offs[k] <= n) &&
    (forall k :: 0 <= k < |offs| - 1 ==> offs[k] <= offs[k + 1])
  }

  /** Where state k's span ends: the next state's offset, or the array's end for the last state. */
  function SpanEnd(offs: seq<int>, n: int, k: int): int
    requires 0 <= k < |offs|
  {
    if k == |offs| - 1 then n else offs[k + 1]
  }

  /** State k's words. */
  function Span(offs: seq<int>, xs: seq<Long>, k: int): seq<Long>
    requires Laid(offs, |xs|) && 0 <= k < |offs|
  {
    xs[offs[k]..SpanEnd(offs, |xs|, k)]
  }

  /** The spans of all states, in state order. */
  function Spans(offs: seq<int>, xs: seq<Long>): (r: seq<seq<Long>>)
    requires Laid(offs, |xs|)
    ensures |r| == |offs| && forall k :: 0 <= k < |offs| ==> r[k] == Span(offs, xs, k)
  {
    seq(|offs|, k requires 0 <= k < |offs| => Span(offs, xs, k))
  }

  /** A word of a state's span is a word of the whole list. */
  lemma SpanWords(offs: seq<int>, xs: seq<Long>, k: int, w: Long)
    requires Laid(offs, |xs|) && 0 <= k < |offs| && w in Span(offs, xs, k)
    ensures w in xs
  {
    var span := Span(offs, xs, k);
    var j :| 0 <= j < |span| && span[j] == w;
    assert xs[offs[k] + j] == w;
  }

  /** The lists the iterator's states pack into hold as many words as it reports arcs. */
  lemma {:induction false} TotalArcsCount(states: seq<IteratedState>)
    ensures TotalArcs(states) == |Flatten(StateLists(states))|
  {
    if |states| > 0 {
      var n := |states| - 1;
      TotalArcsCount(states[..n]);
      var last := Sort(PackArcs(states[n].arcs));
      assert |multiset(last)| == |PackArcs(states[n].arcs)|;
    }
  }

  /** Laying out the first j lists gives a prefix of laying out all of them. */
  lemma {:induction false} FlattenPrefix(T: seq<seq<Long>>, j: int)
    requires 0 <= j <= |T|
    ensures |Flatten(T[..j])| <= |Flatten(T)|
    ensures Flatten(T)[..|Flatten(T[..j])|] == Flatten(T[..j])
    decreases |T|
  {
    if j < |T| {
      var init := T[..|T| - 1];
      FlattenPrefix(init, j);
      assert init[..j] == T[..j];
      assert Flatten(T) == Flatten(init) + T[|T| - 1];
    } else {
      assert T[..j] == T;
    }
  }

  /** One list more adds its words at the end. */
  lemma FlattenSnoc(T: seq<seq<Long>>, k: int)
    requires 0 <= k < |T|
    ensures Flatten(T[..k + 1]) == Flatten(T[..k]) + T[k]
  {
    assert T[..k + 1][..k] == T[..k];
  }

  /**
   * The offsets of laid-out lists cut the laid-out words back into exactly
   * those lists: span k is list k.
   */
  lemma LayoutSpans(T: seq<seq<Long>>)
    ensures Laid(Offsets(T), |Flatten(T)|)
    ensures Spans(Offsets(T), Flatten(T)) == T
  {
    var offs, xs := Offsets(T), Flatten(T);
    LayoutLaid(T);
    var r := Spans(offs, xs);
    forall k | 0 <= k < |T|
      ensures r[k] == T[k]
    {
      LaidSpan(T, k);
    }
  }

  /** Once the offsets are known to be laid out, span k is list k. */
  lemma LaidSpan(T: seq<seq<Long>>, k: int)
    requires 0 <= k < |T| && Laid(Offsets(T), |Flatten(T)|)
    ensures Span(Offsets(T), Flatten(T), k) == T[k]
  {
    LayoutSpan(T, k);
  }

  /** The offsets of laid-out lists are ascending and within the laid-out words. */
  lemma LayoutLaid(T: seq<seq<Long>>)
    ensures Laid(Offsets(T), |Flatten(T)|)
  {
    var offs, xs := Offsets(T), Flatten(T);
    forall k | 0 <= k < |T|
      ensures 0 <= offs[k] && offs[k] + |T[k]| <= |xs| && SpanEnd(offs, |xs|, k) == offs[k] + |T[k]|
    {
      LayoutSpan(T, k);
    }
  }

  /** Span k of laid-out lists is list k. */
  lemma LayoutSpan(T: seq<seq<Long>>, k: int)
    requires 0 <= k < |T|
    ensures 0 <= Offsets(T)[k] && Offsets(T)[k] + |T[k]| <= |Flatten(T)|
    ensures SpanEnd(Offsets(T), |Flatten(T)|, k) == Offsets(T)[k] + |T[k]|
    ensures Flatten(T)[Offsets(T)[k]..Offsets(T)[k] + |T[k]|] == T[k]
  {
    FlattenSlice(T, k);
    FlattenSnoc(T, k);
    OffsetsIndex(T, k);
    if k < |T| - 1 {
      OffsetsIndex(T, k + 1);
    } else {
      assert T[..k + 1] == T;
    }
  }

  /** List k sits in the laid-out words right after the lists before it. */
  lemma FlattenSlice(T: seq<seq<Long>>, k: int)
    requires 0 <= k < |T|
    ensures |Flatten(T[..k])| + |T[k]| <= |Flatten(T)|
    ensures Flatten(T)[|Flatten(T[..k])|..|Flatten(T[..k])| + |T[k]|] == T[k]
  {
    FlattenPrefix(T, k + 1);
    FlattenSnoc(T, k);
    var a, b, xs := Flatten(T[..k]), Flatten(T[..k + 1]), Flatten(T);
    assert xs[..|b|] == b == a + T[k];
    assert xs[|a|..|b|] == xs[..|b|][|a|..];
  }

  /**
   * A walk of sorted lists of repackable words, read by the iterator
   * constructor of MutableCompactTransducer, gives back those lists and
   * flags: packing the reported ids restores each word, and sorting a sorted
   * list changes nothing.
   */
  lemma WalkRoundTrip(start: Int, T: seq<seq<Long>>, A: seq<bool>)
    requires |A| == |T|
    requires forall k :: 0 <= k < |T| ==> Sorted(T[k])
    requires forall k, w :: 0 <= k < |T| && w in T[k] ==> Repackable(w)
    ensures StateLists(WalkOf(start, T, A).states) == T
    ensures StateFlags(WalkOf(start, T, A).states) == A
  {
    var states := WalkOf(start, T, A).states;
    forall k | 0 <= k < |T|
      ensures StateLists(states)[k] == T[k] && StateFlags(states)[k] == A[k]
    {
      StateListsIndex(states, k);
      RepackArcs(T[k]);
      SortSorted(T[k]);
    }
  }

  // ---------------------------------------------------------------------
  // Lookup in one span

  /**
   * Arrays.binarySearch(a, from, to, key): the search confined to
   * a[from..to], reporting positions of the whole array.  It probes the
   * same elements as the search of the slice, shifted by from.
   */
  function RangeBinarySearch(xs: seq<Long>, from: int, to: int, key: Long): (r: int)
    requires 0 <= from <= to <= |xs|
    ensures r >= 0 ==> from <= r < to && xs[r] == key
    ensures r < 0 ==> from <= -(r + 1) <= to
  {
    var b := BinarySearch(xs[from..to], key);
    if b >= 0 then from + b else -(from - (b + 1)) - 1
  }

  /** How many copies of the key stand right before position i. */
  function RunBefore(xs: seq<Long>, i: int, key: Long): (n: nat)
    requires 0 <= i <= |xs|
    ensures n <= i
    ensures forall k :: i - n <= k < i ==> xs[k] == key
    ensures i - n > 0 ==> xs[i - n - 1] != key
    decreases i
  {
    if i > 0 && xs[i - 1] == key then RunBefore(xs, i - 1, key) + 1 else 0
  }

  /**
   * The words the lookup walks back over in front of a span: the copies of
   * the key that end the earlier spans, and only when the span itself starts
   * with the key.
   */
  function Spill(xs: seq<Long>, from: int, end: int, key: Long): (n: nat)
    requires 0 <= from <= end <= |xs|
    ensures n <= from
  {
    if from < end && xs[from] == key then RunBefore(xs, from, key) else 0
  }

  /** A run of copies of the key that nothing extends on the left is the whole run before its end. */
  lemma {:induction false} RunBeforeExact(xs: seq<Long>, i: int, j: int, key: Long)
    requires 0 <= i <= j <= |xs|
    requires forall k :: i <= k < j ==> xs[k] == key
    requires i == 0 || xs[i - 1] != key
    ensures RunBefore(xs, j, key) == j - i
    decreases j - i
  {
    if i < j {
      RunBeforeExact(xs, i, j - 1, key);
    }
  }

  /**
   * What the lookup for input id ci walks over when it starts at lo and
   * stops at hi: the spilled copies of the key, then the span's words that
   * read ci.
   */
  lemma LookupRun(xs: seq<Long>, from: int, end: int, ci: Int, lo: int, hi: int)
    requires 0 <= from <= end <= |xs| && Sorted(xs[from..end]) && 0 <= ci < TWO16
    requires 0 <= lo <= hi <= end
    requires lo >= from ==> (forall k :: from <= k < lo ==> xs[k] < Key(ci)) && (forall k :: lo <= k < end ==> xs[k] >= Key(ci))
    requires lo < from ==> from < end && xs[from] == Key(ci)
    requires from < end && xs[from] == Key(ci) ==> lo == from - RunBefore(xs, from, Key(ci))
    requires forall k :: lo <= k < hi ==> ReadsAt(xs, k, Key(ci))
    requires hi < end ==> !ReadsAt(xs, hi, Key(ci))
    ensures xs[lo..hi] == xs[from - Spill(xs, from, end, Key(ci))..from] + WordsWithInput(xs[from..end], SignedIn(ci))
  {
    var key := Key(ci);
    if from < end && xs[from] == key {
      SpilledRun(xs, from, end, ci, lo, hi);
    } else {
      assert Spill(xs, from, end, key) == 0 && from <= lo;
      RunInSpan(xs, from, end, ci, lo, hi);
      assert xs[from..from] == [];
    }
  }

  /**
   * The reports of the run the lookup walks over: the spilled copies and the
   * span's words that read ci; as a set, the reports of just the latter.
   */
  lemma LookupReports(xs: seq<Long>, from: int, end: int, span: seq<Long>, ci: Int, lo: int, hi: int, inC: string, table: seq<string>, identity: int)
    requires 0 <= from <= end <= |xs| && span == xs[from..end] && Sorted(span) && 0 <= ci < TWO16 && Spelled(xs, table, false)
    requires 0 <= lo <= hi <= end
    requires lo >= from ==> (forall k :: from <= k < lo ==> xs[k] < Key(ci)) && (forall k :: lo <= k < end ==> xs[k] >= Key(ci))
    requires lo < from ==> from < end && xs[from] == Key(ci)
    requires from < end && xs[from] == Key(ci) ==> lo == from - RunBefore(xs, from, Key(ci))
    requires forall k :: lo <= k < hi ==> ReadsAt(xs[..end], k, Key(ci))
    requires hi < end ==> !ReadsAt(xs[..end], hi, Key(ci))
    ensures var ws := xs[from - Spill(xs, from, end, Key(ci))..from] + WordsWithInput(span, SignedIn(ci));
      xs[lo..hi] == ws && Spelled(ws, table, false) &&
      forall t :: t in Reports(ws, inC, false, table, identity) <==>
        exists w :: w in span && InId(w) == SignedIn(ci) && t == Report(w, inC, false, table, identity)
  {
    EndRun(xs, end, lo, hi, Key(ci));
    LookupRun(xs, from, end, ci, lo, hi);
    SpillHarmless(xs, from, end, ci, inC, table, identity);
  }

  /** A span that the word before it does not match spills nothing. */
  lemma NoSpill(xs: seq<Long>, from: int, end: int, key: Long, own: seq<Long>)
    requires 0 <= from <= end <= |xs|
    ensures (from == 0 || xs[from - 1] != key) ==> xs[from - Spill(xs, from, end, key)..from] + own == own
  {
    if from == 0 || xs[from - 1] != key {
      assert Spill(xs, from, end, key) == 0;
      assert xs[from..from] == [];
    }
  }

  /** The run the hasNext test walks over in the words before end, in positions of the whole array. */
  lemma EndRun(xs: seq<Long>, end: int, lo: int, hi: int, key: Long)
    requires 0 <= lo <= hi <= end <= |xs|
    requires forall k :: lo <= k < hi ==> ReadsAt(xs[..end], k, key)
    requires hi < end ==> !ReadsAt(xs[..end], hi, key)
    ensures forall k :: lo <= k < hi ==> ReadsAt(xs, k, key)
    ensures hi < end ==> !ReadsAt(xs, hi, key)
  {
    forall k | lo <= k < hi
      ensures ReadsAt(xs, k, key)
    {
      assert xs[..end][k] == xs[k] && ReadsAt(xs[..end], k, key);
    }
    if hi < end {
      assert xs[..end][hi] == xs[hi];
    }
  }

  /** The key itself reads as the key. */
  lemma KeyReadsItself(ci: Int)
    requires 0 <= ci < TWO16
    ensures And(Key(ci), GET_IN_SYM) == Key(ci)
  {
    KeyValue(ci);
    KeyBlock(Key(ci), ci);
  }

  /** LookupRun when the span starts with the key: the walk-back took in the copies before it. */
  lemma SpilledRun(xs: seq<Long>, from: int, end: int, ci: Int, lo: int, hi: int)
    requires 0 <= from < end <= |xs| && Sorted(xs[from..end]) && 0 <= ci < TWO16
    requires xs[from] == Key(ci) && lo == from - RunBefore(xs, from, Key(ci)) && lo <= hi <= end
    requires forall k :: lo <= k < hi ==> ReadsAt(xs, k, Key(ci))
    requires hi < end ==> !ReadsAt(xs, hi, Key(ci))
    ensures xs[lo..hi] == xs[from - Spill(xs, from, end, Key(ci))..from] + WordsWithInput(xs[from..end], SignedIn(ci))
  {
    var key := Key(ci);
    KeyReadsItself(ci);
    if hi < from {
      assert false;
    }
    forall k | from <= k < hi
      ensures ReadsAt(xs, k, key)
    {
    }
    RunInSpan(xs, from, end, ci, from, hi);
    SplitSlice(xs, lo, from, hi);
  }

  /** The span's words that read ci are the run xs[lo..hi] the lookup walks over, in whole-array positions. */
  lemma RunInSpan(xs: seq<Long>, from: int, end: int, ci: Int, lo: int, hi: int)
    requires 0 <= from <= lo <= hi <= end <= |xs| && Sorted(xs[from..end]) && 0 <= ci < TWO16
    requires forall k :: from <= k < lo ==> xs[k] < Key(ci)
    requires lo < end ==> xs[lo] >= Key(ci)
    requires forall k :: lo <= k < hi ==> ReadsAt(xs, k, Key(ci))
    requires hi < end ==> !ReadsAt(xs, hi, Key(ci))
    ensures WordsWithInput(xs[from..end], SignedIn(ci)) == xs[lo..hi]
  {
    RunBounds(xs, from, end, ci, lo, hi);
    SpanRun(xs, from, end, SignedIn(ci), lo, hi);
  }

  /** In a sorted span, the words that read ci are exactly those of the run the lookup walks. */
  lemma RunBounds(xs: seq<Long>, from: int, end: int, ci: Int, lo: int, hi: int)
    requires 0 <= from <= lo <= hi <= end <= |xs| && Sorted(xs[from..end]) && 0 <= ci < TWO16
    requires forall k :: from <= k < lo ==> xs[k] < Key(ci)
    requires lo < end ==> xs[lo] >= Key(ci)
    requires forall k :: lo <= k < hi ==> ReadsAt(xs, k, Key(ci))
    requires hi < end ==> !ReadsAt(xs, hi, Key(ci))
    ensures forall k :: from <= k < end ==> (InId(xs[k]) == SignedIn(ci) <==> lo <= k < hi)
  {
    var key := Key(ci);
    if hi < end {
      KeyBlock(xs[hi], ci);
      assert ReadsAt(xs, hi, key) <==> InId(xs[hi]) == SignedIn(ci);
      if lo < hi {
        assert ReadsAt(xs, hi - 1, key);
        KeyBlock(xs[hi - 1], ci);
        assert xs[hi - 1] == xs[from..end][hi - 1 - from] && xs[hi] == xs[from..end][hi - from];
      }
      assert key <= xs[hi];
    }
    forall k | from <= k < end
      ensures InId(xs[k]) == SignedIn(ci) <==> lo <= k < hi
    {
      KeyBlock(xs[k], ci);
      if k < lo {
      } else if k < hi {
        assert ReadsAt(xs, k, key);
      } else {
        assert xs[hi] == xs[from..end][hi - from] && xs[k] == xs[from..end][k - from];
      }
    }
  }

  /** A span whose words read id exactly on [lo, hi) selects xs[lo..hi]. */
  lemma SpanRun(xs: seq<Long>, from: int, end: int, id: Int, lo: int, hi: int)
    requires 0 <= from <= lo <= hi <= end <= |xs|
    requires forall k :: from <= k < end ==> (InId(xs[k]) == id <==> lo <= k < hi)
    ensures WordsWithInput(xs[from..end], id) == xs[lo..hi]
  {
    var span: seq<Long> := xs[from..end];
    forall k | 0 <= k < |span|
      ensures InId(span[k]) == id <==> lo - from <= k < hi - from
    {
      assert span[k] == xs[from + k];
    }
    WordsWithInputRun(span, id, lo - from, hi - from);
    SliceOfSlice(xs, from, end, lo, hi);
  }

  /** A miss of the range search names the point of the sorted span where smaller words end. */
  lemma MissSplit(xs: seq<Long>, from: int, end: int, key: Long)
    requires 0 <= from <= end <= |xs| && Sorted(xs[from..end]) && RangeBinarySearch(xs, from, end, key) < 0
    ensures var p := -(RangeBinarySearch(xs, from, end, key) + 1);
      (forall k :: from <= k < p ==> xs[k] < key) && (forall k :: p <= k < end ==> xs[k] >= key) &&
      (from < end ==> xs[from] != key)
  {
    var span := xs[from..end];
    BinarySearchSpec(span, key);
    assert forall k :: from <= k < end ==> xs[k] == span[k - from];
  }

  /** After a hit at h and the walk-back to i, the lookup starts at the split or, when the span starts with the key, at the run before it. */
  lemma HitSplit(xs: seq<Long>, from: int, end: int, key: Long, h: int, i: int)
    requires 0 <= from <= h < end <= |xs| && Sorted(xs[from..end]) && xs[h] == key
    requires 0 <= i <= h && (i == 0 || xs[i - 1] != key) && forall k :: i <= k <= h ==> xs[k] == key
    ensures i >= from ==> (forall k :: from <= k < i ==> xs[k] < key) && (forall k :: i <= k < end ==> xs[k] >= key)
    ensures i < from ==> xs[from] == key
    ensures xs[from] == key ==> i == from - RunBefore(xs, from, key)
  {
    var span := xs[from..end];
    forall k | from <= k < end
      ensures k < i ==> xs[k] < key
      ensures i <= k ==> xs[k] >= key
    {
      assert xs[k] == span[k - from] && xs[h] == span[h - from];
      if k < i {
        assert xs[i - 1] == span[i - 1 - from];
      }
    }
    if xs[from] == key {
      RunBeforeExact(xs, i, from, key);
    }
  }

  /** A range overwritten with new words, and nothing else touched. */
  lemma WriteBack(before: seq<Long>, after: seq<Long>, from: int, to: int, words: seq<Long>)
    requires 0 <= from <= to <= |before| == |after| && |words| == to - from
    requires forall k :: from <= k < to ==> after[k] == words[k - from]
    requires forall k :: 0 <= k < |after| && !(from <= k < to) ==> after[k] == before[k]
    ensures after[..from] == before[..from] && after[to..] == before[to..] && after[from..to] == words
  {
    assert forall k :: 0 <= k < to - from ==> after[from..to][k] == words[k];
  }

  lemma SplitSlice(xs: seq<Long>, lo: int, mid: int, hi: int)
    requires 0 <= lo <= mid <= hi <= |xs|
    ensures xs[lo..hi] == xs[lo..mid] + xs[mid..hi]
  {
  }

  lemma SplitPrefix(xs: seq<Long>, mid: int, hi: int)
    requires 0 <= mid <= hi <= |xs|
    ensures xs[..hi] == xs[..mid] + xs[mid..hi]
  {
  }

  lemma SnocPrefix<T>(xs: seq<T>, n: int)
    requires 0 <= n < |xs|
    ensures xs[..n + 1] == xs[..n] + [xs[n]]
  {
  }

  lemma WholePrefix<T>(xs: seq<T>, n: int)
    requires n == |xs|
    ensures xs[..n] == xs
  {
  }

  lemma SliceOfSlice(xs: seq<Long>, from: int, end: int, lo: int, hi: int)
    requires 0 <= from <= lo <= hi <= end <= |xs|
    ensures xs[from..end][lo - from..hi - from] == xs[lo..hi]
  {
    var a := xs[from..end][lo - from..hi - from];
    assert forall k :: 0 <= k < |a| ==> a[k] == xs[lo + k];
  }

  /**
   * The spilled copies only repeat the span's first word: as a set, the
   * lookup reports exactly the span's words that read ci.
   */
  lemma SpillHarmless(xs: seq<Long>, from: int, end: int, ci: Int, inC: string, table: seq<string>, identity: int)
    requires 0 <= from <= end <= |xs| && 0 <= ci < TWO16 && Spelled(xs, table, false)
    ensures var ws := xs[from - Spill(xs, from, end, Key(ci))..from] + WordsWithInput(xs[from..end], SignedIn(ci));
      Spelled(ws, table, false) &&
      forall t :: t in Reports(ws, inC, false, table, identity) <==>
        exists w :: w in xs[from..end] && InId(w) == SignedIn(ci) && t == Report(w, inC, false, table, identity)
  {
    var ws := xs[from - Spill(xs, from, end, Key(ci))..from] + WordsWithInput(xs[from..end], SignedIn(ci));
    SpillWords(xs, from, end, ci);
    assert Spelled(ws, table, false);
    ReportsMembers(ws, inC, false, table, identity);
  }

  /** The walked-over words are, as a set, the span's words that read ci, all of them stored words. */
  lemma SpillWords(xs: seq<Long>, from: int, end: int, ci: Int)
    requires 0 <= from <= end <= |xs| && 0 <= ci < TWO16
    ensures var ws := xs[from - Spill(xs, from, end, Key(ci))..from] + WordsWithInput(xs[from..end], SignedIn(ci));
      (forall w :: w in ws <==> w in xs[from..end] && InId(w) == SignedIn(ci)) && (forall w :: w in ws ==> w in xs)
  {
    var key := Key(ci);
    var spill := xs[from - Spill(xs, from, end, key)..from];
    var own := WordsWithInput(xs[from..end], SignedIn(ci));
    WordsWithInputMembers(xs[from..end], SignedIn(ci));
    assert forall w :: w in spill ==> w == key;
    if spill != [] {
      assert InId(key) == SignedIn(ci) by {
        KeyValue(ci);
      }
      assert xs[from] == xs[from..end][0];
      assert key in own;
    }
  }

  // ---------------------------------------------------------------------
  // The automaton

  class CompactTransducer {
    var alphabet: Alphabet
    var start: Int
    var stateOffsets: array<int>
    var accepting: array<bool>
    var transitions: array<Long>

    /** One flag per state, offsets that cut the array into spans, and every span sorted. */
    predicate Valid()
      reads this, stateOffsets, transitions
    {
      accepting.Length == stateOffsets.Length &&
      Laid(stateOffsets[..], transitions.Length) &&
      forall k :: 0 <= k < stateOffsets.Length ==> Sorted(Span(stateOffsets[..], transitions[..], k))
    }

    /** State k's words. */
    function SpanOf(k: int): seq<Long>
      reads this, stateOffsets, transitions
      requires Valid() && 0 <= k < stateOffsets.Length
    {
      Span(stateOffsets[..], transitions[..], k)
    }

    /**
     * CompactTransducer(StateIterator): takes the start state and the
     * alphabet object, sizes the arrays by the counts the iterator declares,
     * and state by state records the offset and flag, packs the reported
     * arcs and sorts the state's span.  The declared counts must be the
     * reported ones.
     */
    constructor (iter: StateIteration, alph: Alphabet, nOfStates: int, nOfTransitions: int)
      requires nOfStates == |iter.states| && nOfTransitions == TotalArcs(iter.states)
      ensures start == iter.start && alphabet == alph
      ensures stateOffsets.Length == nOfStates && transitions.Length == nOfTransitions
      ensures stateOffsets[..] == Offsets(StateLists(iter.states)) && accepting[..] == StateFlags(iter.states)
      ensures transitions[..] == Flatten(StateLists(iter.states))
      ensures Valid()
    {
      TotalArcsCount(iter.states);
      var offs := new int[nOfStates];
      var acc := new bool[nOfStates];
      var trans := new Long[nOfTransitions];
      Fill(iter.states, offs, acc, trans);
      start := iter.start;
      alphabet := alph;
      stateOffsets := offs;
      accepting := acc;
      transitions := trans;
      new;
      LayoutSpans(StateLists(iter.states));
      StateListsSorted(iter.states);
    }

    /** The loop over the reported states: offset, flag, packed and sorted words, state after state. */
    static method Fill(states: seq<IteratedState>, offs: array<int>, acc: array<bool>, trans: array<Long>)
      modifies offs, acc, trans
      requires offs.Length == |states| && acc.Length == |states|
      requires trans.Length == |Flatten(StateLists(states))|
      ensures offs[..] == Offsets(StateLists(states)) && acc[..] == StateFlags(states)
      ensures trans[..] == Flatten(StateLists(states))
    {
      ghost var L := StateLists(states);
      var s := 0;
      var t := 0;
      while s < |states|
        invariant 0 <= s <= |states| && 0 <= t <= trans.Length
        invariant t == |Flatten(L[..s])| && trans[..t] == Flatten(L[..s])
        invariant offs[..s] == Offsets(L[..s]) && acc[..s] == StateFlags(states[..s])
      {
        FillStep(states, s);
        offs[s] := t;
        acc[s] := states[s].accepting;
        var t0 := t;
        t := FillState(states[s].arcs, trans, t0);
        SplitPrefix(trans[..], t0, t);
        SnocPrefix(offs[..], s);
        SnocPrefix(acc[..], s);
        s := s + 1;
      }
      assert L[..s] == L && states[..s] == states;
      WholePrefix(trans[..], t);
      WholePrefix(offs[..], s);
      WholePrefix(acc[..], s);
    }

    /** What one round of that loop adds: state s's offset, flag and words. */
    static lemma FillStep(states: seq<IteratedState>, s: int)
      requires 0 <= s < |states|
      ensures var L := StateLists(states);
        Offsets(L[..s + 1]) == Offsets(L[..s]) + [|Flatten(L[..s])|] &&
        StateFlags(states[..s + 1]) == StateFlags(states[..s]) + [states[s].accepting] &&
        |Flatten(L[..s])| + |states[s].arcs| <= |Flatten(L)| &&
        Flatten(L[..s + 1]) == Flatten(L[..s]) + Sort(PackArcs(states[s].arcs))
    {
      var L := StateLists(states);
      assert L[..s + 1][..s] == L[..s];
      assert states[..s + 1][..s] == states[..s];
      FlattenSnoc(L, s);
      FlattenPrefix(L, s + 1);
      StateListsIndex(states, s);
      assert |multiset(L[s])| == |PackArcs(states[s].arcs)|;
    }

    /** The inner loop for one state: its packed arcs from position t0 on, then Arrays.sort on them. */
    static method FillState(arcs: seq<Arc>, trans: array<Long>, t0: int) returns (t: int)
      modifies trans
      requires 0 <= t0 && t0 + |arcs| <= trans.Length
      ensures t == t0 + |arcs|
      ensures trans[..t0] == old(trans[..t0]) && trans[t0..t] == Sort(PackArcs(arcs))
    {
      t := t0;
      var j := 0;
      while j < |arcs|
        invariant 0 <= j <= |arcs| && t == t0 + j
        invariant trans[..t0] == old(trans[..t0])
        invariant forall m :: t0 <= m < t ==> trans[m] == MakeTransition(arcs[m - t0].inId, arcs[m - t0].outId, arcs[m - t0].toId)
      {
        trans[t] := MakeTransition(arcs[j].inId, arcs[j].outId, arcs[j].toId);
        t := t + 1;
        j := j + 1;
      }
      assert trans[t0..t] == PackArcs(arcs);
      SortRange(trans, t0, t);
    }

    /** Arrays.sort(a, from, to): the range is replaced by its sorted arrangement, the rest kept. */
    static method SortRange(a: array<Long>, from: int, to: int)
      modifies a
      requires 0 <= from <= to <= a.Length
      ensures a[..from] == old(a[..from]) && a[to..] == old(a[to..])
      ensures a[from..to] == Sort(old(a[from..to]))
    {
      ghost var before := a[..];
      var sorted := Sort(a[from..to]);
      assert |sorted| == to - from by {
        assert |multiset(sorted)| == |multiset(a[from..to])|;
      }
      forall m | from <= m < to {
        a[m] := sorted[m - from];
      }
      WriteBack(before, a[..], from, to, sorted);
    }

    function NOfStates(): int
      reads this
    {
      stateOffsets.Length
    }

    function NOfTransitions(): int
      reads this
    {
      transitions.Length
    }

    function GetStartState(): int
      reads this
    {
      start
    }

    function IsAccepting(stateId: int): bool
      reads this, accepting
      requires 0 <= stateId < accepting.Length
    {
      accepting[stateId]
    }

    // -------------------------------------------------------------------
    // TransitionIterator

    /**
     * getTransitionIterator(s, statIdx), drained.  For a symbol the
     * alphabet knows, the lookup reports with s as input: the state's
     * words whose input field is s's id ci (their input id reads back as
     * SignedIn(ci)), in ascending order, preceded by the copies of the key
     * (long) ci << 48 the walk-back collects from the end of the
     * earlier spans when the state's span starts with the key.  When the
     * word before the span is not the key (in particular for state 0) there
     * are none; as a set the reports are always exactly the state's words
     * for s.  An unknown symbol has no transitions.
     */
    method TransitionsFor(sym: string, statIdx: int) returns (r: seq<Transition>)
      requires Valid() && alphabet.Inverse() && |alphabet.id2sym| <= TWO16
      requires 0 <= statIdx < stateOffsets.Length && Spelled(transitions[..], alphabet.id2sym, false)
      ensures sym !in alphabet.sym2id ==> r == []
      ensures sym in alphabet.sym2id ==>
        var ci := alphabet.sym2id[sym];
        var from := stateOffsets[statIdx];
        var end := SpanEnd(stateOffsets[..], transitions.Length, statIdx);
        var ws := transitions[from - Spill(transitions[..], from, end, Key(ci))..from] + WordsWithInput(SpanOf(statIdx), SignedIn(ci));
        Spelled(ws, alphabet.id2sym, false) && r == Reports(ws, sym, false, alphabet.id2sym, alphabet.idIdx) &&
        ((from == 0 || transitions[from - 1] != Key(ci)) ==> ws == WordsWithInput(SpanOf(statIdx), SignedIn(ci))) &&
        forall t :: t in r <==> exists w :: w in SpanOf(statIdx) && InId(w) == SignedIn(ci) && t == Report(w, sym, false, alphabet.id2sym, alphabet.idIdx)
    {
      r := [];
      if alphabet.Contains(sym) {
        var ci := alphabet.sym2id[sym];
        var inSym := Key(ci);
        var from := stateOffsets[statIdx];
        var end := if statIdx == stateOffsets.Length - 1 then transitions.Length else stateOffsets[statIdx + 1];
        assert end == SpanEnd(stateOffsets[..], transitions.Length, statIdx);
        assert SpanOf(statIdx) == transitions[from..end];
        r := Lookup(transitions, from, end, SpanOf(statIdx), ci, sym, alphabet.id2sym, alphabet.idIdx);
      }
    }

    /**
     * The iterator for the symbol with id ci over the span [from, end) of a,
     * drained: it starts where SpanStart lands and runs while the word reads
     * ci, below end.
     */
    static method Lookup(a: array<Long>, from: int, end: int, ghost span: seq<Long>, ci: Int, inC: string, table: seq<string>, identity: int) returns (r: seq<Transition>)
      requires 0 <= from <= end <= a.Length && span == a[from..end] && Sorted(span) && 0 <= ci < TWO16 && Spelled(a[..], table, false)
      ensures var ws := a[from - Spill(a[..], from, end, Key(ci))..from] + WordsWithInput(span, SignedIn(ci));
        Spelled(ws, table, false) && r == Reports(ws, inC, false, table, identity) &&
        ((from == 0 || a[from - 1] != Key(ci)) ==> ws == WordsWithInput(span, SignedIn(ci))) &&
        forall t :: t in r <==> exists w :: w in span && InId(w) == SignedIn(ci) && t == Report(w, inC, false, table, identity)
    {
      var inSym := Key(ci);
      var lo := SpanStart(a, from, end, inSym);
      var hi := MutableCompactTransducer.RunEnd(a[..end], lo, inSym);
      LookupReports(a[..], from, end, span, ci, lo, hi, inC, table, identity);
      NoSpill(a[..], from, end, inSym, WordsWithInput(span, SignedIn(ci)));
      assert a[lo..hi] == a[..][lo..hi];
      r := MutableCompactTransducer.ReportWords(a[lo..hi], inC, false, table, identity);
    }

    /**
     * Where the lookup starts: Arrays.binarySearch in the span; on a miss
     * the insertion point, on a hit back over equal words while the word
     * before is the key, down to index 0 rather than the span's start.
     */
    static method SpanStart(a: array<Long>, from: int, end: int, key: Long) returns (i: int)
      requires 0 <= from <= end <= a.Length && Sorted(a[from..end])
      ensures 0 <= i <= end
      ensures i >= from ==> (forall k :: from <= k < i ==> a[k] < key) && (forall k :: i <= k < end ==> a[k] >= key)
      ensures i < from ==> from < end && a[from] == key
      ensures from < end && a[from] == key ==> i == from - RunBefore(a[..], from, key)
    {
      i := RangeBinarySearch(a[..], from, end, key);
      if i < 0 {
        MissSplit(a[..], from, end, key);
        i := -(i + 1);
      } else {
        var h := i;
        i := WalkBack(a, key, h);
        HitSplit(a[..], from, end, key, h, i);
      }
    }

    /** The walk-back after a hit at h: down over copies of the key while the word before is one. */
    static method WalkBack(a: array<Long>, key: Long, h: int) returns (i: int)
      requires 0 <= h < a.Length && a[h] == key
      ensures 0 <= i <= h && (i == 0 || a[i - 1] != key)
      ensures forall k :: i <= k <= h ==> a[k] == key
    {
      i := h;
      while i > 0 && a[i - 1] == key
        invariant 0 <= i <= h && forall k :: i <= k <= h ==> a[k] == key
      {
        i := i - 1;
      }
    }

    /**
     * getTransitionIterator(statIdx), drained: the whole span in stored
     * order, the input spelled from its id, an identity output reported as
     * the empty string.
     */
    method AllTransitions(statIdx: int) returns (r: seq<Transition>)
      requires Valid() && 0 <= statIdx < stateOffsets.Length && Spelled(SpanOf(statIdx), alphabet.id2sym, true)
      ensures |r| == |SpanOf(statIdx)|
      ensures forall k :: 0 <= k < |r| ==> r[k] == Report(SpanOf(statIdx)[k], "", true, alphabet.id2sym, alphabet.idIdx)
    {
      var from := stateOffsets[statIdx];
      var end := if statIdx == stateOffsets.Length - 1 then transitions.Length else stateOffsets[statIdx + 1];
      r := MutableCompactTransducer.ReportWords(transitions[from..end], "", true, alphabet.id2sym, alphabet.idIdx);
      forall k | 0 <= k < |r|
        ensures r[k] == Report(SpanOf(statIdx)[k], "", true, alphabet.id2sym, alphabet.idIdx)
      {
        ReportsIndex(SpanOf(statIdx), "", true, alphabet.id2sym, alphabet.idIdx, k);
      }
    }

    /**
     * getMutableCopy(): a MutableCompactTransducer built from this one's
     * state iterator.  It has the same start, flags and per-state lists,
     * and an alphabet with the same table, when every stored word has a
     * non-negative to-state (a negative one, widened back to long, would
     * spill its sign over the symbol fields).
     */
    method GetMutableCopy() returns (m: MutableCompactTransducer)
      requires Valid() && alphabet.Valid()
      requires forall w :: w in transitions[..] ==> Repackable(w)
      ensures fresh(m) && fresh(m.alphabet)
      ensures m.start == start && m.accepting == accepting[..]
      ensures m.transitions == Spans(stateOffsets[..], transitions[..])
      ensures m.alphabet.id2sym == alphabet.id2sym
    {
      var it := new CompactTransducerStateIterator(this);
      var walk := it.ReadAll();
      m := new MutableCompactTransducer.FromIterator(walk, it.alphabet);
      ghost var T := Spans(stateOffsets[..], transitions[..]);
      forall k, w | 0 <= k < |T| && w in T[k]
        ensures Repackable(w)
      {
        SpanWords(stateOffsets[..], transitions[..], k, w);
      }
      WalkRoundTrip(start, T, accepting[..]);
    }
  }

  /** new Alphabet(a.getSymbols()) rebuilds a valid alphabet's table. */
  lemma CopyArrayTable(table: seq<string>)
    requires Distinct(table) && RESERVED <= table
    ensures InternAll(RESERVED, ArrayNames(Somes(table), 0)) == table
  {
    ArrayNamesCount(Somes(table), 0);
    ListNamesSpec(Somes(table));
    assert ArrayNames(Somes(table), 0) == table == ListNames(Somes(table));
    CopyTable(table);
  }

  /**
   * CompactTransducerStateIterator: s names the current state and t the
   * current word, tend where the state's span ends; all start at -1.  Its
   * alphabet is a fresh copy of the automaton's table.
   */
  class CompactTransducerStateIterator {
    const fst: CompactTransducer
    const alphabet: Alphabet
    var s: int
    var t: int
    var tend: int

    constructor (fst: CompactTransducer)
      ensures this.fst == fst && fresh(alphabet)
      ensures alphabet.Valid() && alphabet.id2sym == InternAll(RESERVED, ArrayNames(Somes(fst.alphabet.id2sym), 0))
      ensures fst.alphabet.Valid() ==> alphabet.id2sym == fst.alphabet.id2sym
      ensures s == -1 && t == -1 && tend == -1
    {
      this.fst := fst;
      alphabet := new Alphabet.FromArray(Somes(fst.alphabet.id2sym));
      s := -1;
      t := -1;
      tend := -1;
      new;
      if fst.alphabet.Valid() {
        fst.alphabet.DistinctTable();
        CopyArrayTable(fst.alphabet.id2sym);
      }
    }

    predicate HasNextState()
      reads this, fst
    {
      s + 1 < fst.stateOffsets.Length
    }

    /** nextState(): the next state, its words from offset - 1 on, up to its span's end. */
    method NextState()
      modifies this
      requires fst.Valid() && HasNextState() && -1 <= s
      ensures s == old(s) + 1 && t == fst.stateOffsets[s] - 1
      ensures tend == SpanEnd(fst.stateOffsets[..], fst.transitions.Length, s)
    {
      s := s + 1;
      t := fst.stateOffsets[s] - 1;
      tend := if s == fst.stateOffsets.Length - 1 then fst.transitions.Length else fst.stateOffsets[s + 1];
    }

    function Accepting(): bool
      reads this, fst, fst.accepting
      requires 0 <= s < fst.accepting.Length
    {
      fst.accepting[s]
    }

    predicate HasNextTransition()
      reads this
    {
      t + 1 < tend
    }

    method NextTransition()
      modifies this
      ensures t == old(t) + 1 && s == old(s) && tend == old(tend)
    {
      t := t + 1;
    }

    function InId(): Int
      reads this, fst, fst.transitions
      requires 0 <= t < fst.transitions.Length
    {
      Packing.InId(fst.transitions[t])
    }

    function OutId(): Int
      reads this, fst, fst.transitions
      requires 0 <= t < fst.transitions.Length
    {
      Packing.OutId(fst.transitions[t])
    }

    function ToId(): Int
      reads this, fst, fst.transitions
      requires 0 <= t < fst.transitions.Length
    {
      Packing.ToId(fst.transitions[t])
    }

    /**
     * The iterator constructor of MutableCompactTransducer reading this
     * iterator to the end: it reports every state in id order with its flag
     * and the ids of every word of its span, each word exactly once.
     */
    method ReadAll() returns (walk: StateIteration)
      modifies this
      requires fst.Valid() && s == -1
      ensures walk == WalkOf(fst.start, Spans(fst.stateOffsets[..], fst.transitions[..]), fst.accepting[..])
    {
      ghost var T := Spans(fst.stateOffsets[..], fst.transitions[..]);
      ghost var W := WalkOf(fst.start, T, fst.accepting[..]);
      var states: seq<IteratedState> := [];
      while HasNextState()
        invariant -1 <= s < fst.stateOffsets.Length && |states| == s + 1
        invariant states == W.states[..s + 1]
        decreases fst.stateOffsets.Length - s
      {
        NextState();
        var acc := Accepting();
        var arcs := ReadArcs();
        states := states + [IteratedState(acc, arcs)];
      }
      walk := StateIteration(fst.start, states);
    }

    /** The inner loop of that reading for the current state: the ids of each word of its span, in stored order. */
    method ReadArcs() returns (arcs: seq<Arc>)
      modifies this
      requires fst.Valid() && 0 <= s < fst.stateOffsets.Length
      requires t == fst.stateOffsets[s] - 1 && tend == SpanEnd(fst.stateOffsets[..], fst.transitions.Length, s)
      ensures s == old(s)
      ensures arcs == ArcsOf(fst.SpanOf(s))
    {
      var from := fst.stateOffsets[s];
      arcs := [];
      while HasNextTransition()
        invariant s == old(s) && tend == old(tend) && from - 1 <= t < tend
        invariant arcs == ArcsOf(fst.transitions[from..t + 1])
        decreases tend - t
      {
        NextTransition();
        arcs := arcs + [Arc(InId(), OutId(), ToId())];
      }
    }
  }
}
