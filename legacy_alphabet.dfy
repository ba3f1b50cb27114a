/**
 * The symbol table of the legacy generation (alphabet.Alphabet): one list
 * of symbols in string order, searched with Collections.binarySearch, and
 * one list in id order.  Ids are dense and start at 0; nothing is reserved.
 */
module LegacyAlphabet {
  import opened JStrings
  import opened Options
  import opened LegacySymbols
  import SymbolTable
  import Collections

  /** The asString of every symbol of a list. */
  function Strings(list: seq<Symbol>): (r: seq<string>)
    ensures |r| == |list|
    ensures forall i :: 0 <= i < |list| ==> r[i] == list[i].AsString()
  {
    seq(|list|, i requires 0 <= i < |list| => list[i].AsString())
  }

  /** compareTo can be evaluated on every element: no empty multichar symbol meets a char key. */
  predicate Comparable(list: seq<Symbol>, key: Operand)
  {
    CharLike(key) ==> forall i :: 0 <= i < |list| && list[i].MulticharSymbol? ==> |list[i].text| > 0
  }

  /** The result of element.compareTo(key) at each index. */
  function Compares(list: seq<Symbol>, key: Operand): (r: seq<int>)
    requires Comparable(list, key)
    ensures |r| == |list|
    ensures forall i :: 0 <= i < |list| ==> r[i] == list[i].CompareTo(key)
  {
    seq(|list|, i requires 0 <= i < |list| && Comparable(list, key) => list[i].CompareTo(key))
  }

  function CorrectedCompares(list: seq<Symbol>, key: Operand): (r: seq<int>)
    requires Comparable(list, key)
    ensures |r| == |list|
    ensures forall i :: 0 <= i < |list| ==> r[i] == list[i].CompareToCorrected(key)
  {
    seq(|list|, i requires 0 <= i < |list| && Comparable(list, key) => list[i].CompareToCorrected(key))
  }

  function BinarySearch(list: seq<Symbol>, key: Operand): (r: int)
    requires Comparable(list, key)
    ensures r >= 0 ==> r < |list| && list[r].CompareTo(key) == 0
    ensures r < 0 ==> -(r + 1) <= |list|
  {
    Collections.Search(Compares(list, key), 0, |list| - 1)
  }

  function BinarySearchCorrected(list: seq<Symbol>, key: Operand): (r: int)
    requires Comparable(list, key)
    ensures r >= 0 ==> r < |list| && list[r].CompareToCorrected(key) == 0
    ensures r < 0 ==> -(r + 1) <= |list|
  {
    Collections.Search(CorrectedCompares(list, key), 0, |list| - 1)
  }

  // ---------------------------------------------------------------------
  // Searching a list sorted by string

  /** A symbol that compares equal to any key stands for the key's string (createSymbol never makes a one-char multichar symbol). */
  lemma ZeroMeansSameString(x: Symbol, key: Operand)
    requires Created(x) && (x.MulticharSymbol? && CharLike(key) ==> |x.text| > 0)
    requires x.CompareTo(key) == 0
    ensures x.AsString() == KeyString(key)
  {
    if x.MulticharSymbol? && StringLike(key) {
      CompareToSign(x.text, KeyString(key));
    } else if x.CharSymbol? && StringLike(key) {
      var o := KeyString(key);
      assert |o| == 1 && o[0] == x.symbol;
      assert o == [o[0]];
    }
  }

  /** The element signs against the key as the string order gives them. */
  predicate SignsFollowStrings(list: seq<Symbol>, cmps: seq<int>, key: string)
  {
    |cmps| == |list| &&
    forall k :: 0 <= k < |list| ==>
      (cmps[k] < 0 <==> Less(list[k].AsString(), key)) &&
      (cmps[k] == 0 <==> list[k].AsString() == key) &&
      (cmps[k] > 0 <==> Less(key, list[k].AsString()))
  }

  lemma SignsPartition(list: seq<Symbol>, cmps: seq<int>, key: string)
    requires Ascending(Strings(list)) && SignsFollowStrings(list, cmps, key)
    ensures Collections.Partitioned(cmps)
  {
    forall i, j | 0 <= i < j < |cmps|
      ensures (cmps[j] < 0 ==> cmps[i] < 0) && (cmps[i] > 0 ==> cmps[j] > 0)
    {
      assert Less(list[i].AsString(), list[j].AsString());
      if cmps[j] < 0 {
        LessTransitive(list[i].AsString(), list[j].AsString(), key);
      }
      if cmps[i] > 0 {
        LessTransitive(key, list[i].AsString(), list[j].AsString());
      }
    }
  }

  lemma SignsFromAgreement(list: seq<Symbol>, key: Operand)
    requires Comparable(list, key)
    requires forall k :: 0 <= k < |list| ==> Agrees(list[k], key)
    ensures SignsFollowStrings(list, Compares(list, key), KeyString(key))
  {
    forall k | 0 <= k < |list|
      ensures (Compares(list, key)[k] < 0 <==> Less(list[k].AsString(), KeyString(key)))
      ensures (Compares(list, key)[k] == 0 <==> list[k].AsString() == KeyString(key))
      ensures (Compares(list, key)[k] > 0 <==> Less(KeyString(key), list[k].AsString()))
    {
      CompareToAgrees(list[k], key);
      CompareToSign(list[k].AsString(), KeyString(key));
    }
  }

  lemma SignsFromCorrected(list: seq<Symbol>, key: Operand)
    requires Comparable(list, key)
    requires CharLike(key) || (StringLike(key) && |KeyString(key)| > 0)
    ensures SignsFollowStrings(list, CorrectedCompares(list, key), KeyString(key))
  {
    forall k | 0 <= k < |list|
      ensures (CorrectedCompares(list, key)[k] < 0 <==> Less(list[k].AsString(), KeyString(key)))
      ensures (CorrectedCompares(list, key)[k] == 0 <==> list[k].AsString() == KeyString(key))
      ensures (CorrectedCompares(list, key)[k] > 0 <==> Less(KeyString(key), list[k].AsString()))
    {
      CompareToCorrectedAgrees(list[k], key);
      CompareToSign(list[k].AsString(), KeyString(key));
    }
  }

  /** Searching partitioned signs finds the key exactly when it is present, else the split point. */
  lemma SearchBySigns(list: seq<Symbol>, cmps: seq<int>, key: string)
    requires Ascending(Strings(list)) && SignsFollowStrings(list, cmps, key)
    ensures var r := Collections.Search(cmps, 0, |list| - 1);
      && (r >= 0 <==> key in Strings(list))
      && (r >= 0 ==> list[r].AsString() == key)
      && (r < 0 ==>
            (forall k :: 0 <= k < -(r + 1) ==> Less(list[k].AsString(), key)) &&
            (forall k :: -(r + 1) <= k < |list| ==> Less(key, list[k].AsString())))
  {
    SignsPartition(list, cmps, key);
    Collections.SearchComplete(cmps, 0, |list| - 1);
    var r := Collections.Search(cmps, 0, |list| - 1);
    if key in Strings(list) {
      var k :| 0 <= k < |list| && Strings(list)[k] == key;
      assert cmps[k] == 0;
    }
  }

  /**
   * On a list sorted by string, a search with a non-empty string key finds
   * the symbol exactly when it is present, and otherwise returns the
   * insertion point that keeps the list sorted.
   */
  lemma StringSearchSpec(list: seq<Symbol>, s: string)
    requires Ascending(Strings(list)) && |s| > 0
    ensures var r := BinarySearch(list, AString(s));
      && (r >= 0 <==> s in Strings(list))
      && (r >= 0 ==> list[r].AsString() == s)
      && (r < 0 ==>
            (forall k :: 0 <= k < -(r + 1) ==> Less(list[k].AsString(), s)) &&
            (forall k :: -(r + 1) <= k < |list| ==> Less(s, list[k].AsString())))
  {
    SignsFromAgreement(list, AString(s));
    SearchBySigns(list, Compares(list, AString(s)), s);
  }

  /** With the corrected compareTo a char key is found exactly when its one-char symbol is present. */
  lemma CorrectedCharSearchSpec(list: seq<Symbol>, c: char)
    requires Ascending(Strings(list)) && Comparable(list, AChar(c))
    ensures BinarySearchCorrected(list, AChar(c)) >= 0 <==> [c] in Strings(list)
  {
    SignsFromCorrected(list, AChar(c));
    SearchBySigns(list, CorrectedCompares(list, AChar(c)), [c]);
  }

  /** A sorted alphabet holding 'a', "ab" and "ac": contains('a') does not find 'a'. */
  lemma CharSearchMisses()
    ensures var list := [CharSymbol('a', 0), MulticharSymbol("ab", 1), MulticharSymbol("ac", 2)];
      && Ascending(Strings(list)) && "a" in Strings(list)
      && BinarySearch(list, AChar('a')) < 0
  {
    var list := [CharSymbol('a', 0), MulticharSymbol("ab", 1), MulticharSymbol("ac", 2)];
    var cmps := Compares(list, AChar('a'));
    assert cmps[1] == -1 && cmps[2] == -1;
    assert Collections.Search(cmps, 0, 2) == Collections.Search(cmps, 2, 2) == Collections.Search(cmps, 3, 2) == -4;
    var strs := Strings(list);
    assert strs == ["a", "ab", "ac"];
    assert Less("a", "ab") by {
      assert Less("a"[1..], "ab"[1..]);
    }
    assert Less("ab", "ac") by {
      assert Less("ab"[1..], "ac"[1..]);
    }
    assert Less("a", "ac") by {
      assert Less("a"[1..], "ac"[1..]);
    }
  }

  // ---------------------------------------------------------------------
  // getPrefixes

  /** The first index at or after i whose symbol starts with c, or the size. */
  function SkipTo(list: seq<Symbol>, c: char, i: nat): (r: nat)
    requires i <= |list|
    ensures i <= r <= |list|
    ensures forall m :: i <= m < r ==> !list[m].StartsWith(c)
    ensures r < |list| ==> list[r].StartsWith(c)
    decreases |list| - i
  {
    if i == |list| || list[i].StartsWith(c) then i else SkipTo(list, c, i + 1)
  }

  /** The symbols of the block from j on that starts with c and occur in s at start. */
  function Block(list: seq<Symbol>, c: char, s: string, start: nat, j: nat): seq<Symbol>
    requires j <= |list|
    decreases |list| - j
  {
    if j == |list| || !list[j].StartsWith(c) then []
    else (if list[j].PrefixOf(s, start) then [list[j]] else []) + Block(list, c, s, start, j + 1)
  }

  /** The result of getPrefixes(s, start). */
  function ScanPrefixes(list: seq<Symbol>, s: string, start: nat): seq<Symbol>
    requires start < |s|
  {
    Block(list, s[start], s, start, SkipTo(list, s[start], 0))
  }

  lemma {:induction false} BlockSound(list: seq<Symbol>, c: char, s: string, start: nat, j: nat)
    requires j <= |list|
    ensures forall x :: x in Block(list, c, s, start, j) ==> x in list[j..] && x.PrefixOf(s, start)
    decreases |list| - j
  {
    if j < |list| && list[j].StartsWith(c) {
      BlockSound(list, c, s, start, j + 1);
    }
  }

  lemma {:induction false} BlockIncludes(list: seq<Symbol>, c: char, s: string, start: nat, j: nat, k: nat)
    requires j <= k < |list|
    requires forall m :: j <= m <= k ==> list[m].StartsWith(c)
    requires list[k].PrefixOf(s, start)
    ensures list[k] in Block(list, c, s, start, j)
    decreases k - j
  {
    if j < k {
      BlockIncludes(list, c, s, start, j + 1, k);
    }
  }

  /** In a list sorted by string, the symbols that start with c form one block. */
  lemma Contiguous(list: seq<Symbol>, c: char, f: nat, m: nat, k: nat)
    requires Ascending(Strings(list)) && f <= m <= k < |list|
    requires list[f].StartsWith(c) && list[k].StartsWith(c)
    ensures list[m].StartsWith(c)
  {
    var a := Strings(list);
    if f < m < k {
      assert Less(a[f], a[m]) && Less(a[m], a[k]);
    }
  }

  /**
   * getPrefixes returns only symbols that occur in s at start, and on a
   * list sorted by string it returns every non-empty one.
   */
  lemma ScanPrefixesSpec(list: seq<Symbol>, s: string, start: nat)
    requires start < |s|
    ensures forall x :: x in ScanPrefixes(list, s, start) ==> x in list && StartsWithAt(s, x.AsString(), start)
    ensures Ascending(Strings(list)) ==>
      forall k :: 0 <= k < |list| && |list[k].AsString()| > 0 && StartsWithAt(s, list[k].AsString(), start)
        ==> list[k] in ScanPrefixes(list, s, start)
  {
    var c := s[start];
    var f := SkipTo(list, c, 0);
    BlockSound(list, c, s, start, f);
    forall x | x in ScanPrefixes(list, s, start)
      ensures x in list && StartsWithAt(s, x.AsString(), start)
    {
      PrefixOfSpec(x, s, start);
    }
    if Ascending(Strings(list)) {
      forall k | 0 <= k < |list| && |list[k].AsString()| > 0 && StartsWithAt(s, list[k].AsString(), start)
        ensures list[k] in ScanPrefixes(list, s, start)
      {
        var a := list[k].AsString();
        assert a[0] == s[start..start + |a|][0] == c;
        assert list[k].StartsWith(c);
        PrefixOfSpec(list[k], s, start);
        forall m | f <= m <= k
          ensures list[m].StartsWith(c)
        {
          Contiguous(list, c, f, m, k);
        }
        BlockIncludes(list, c, s, start, f, k);
      }
    }
  }

  // ---------------------------------------------------------------------
  // The object

  /**
   * The two lists hold the same symbols; the symbol at id position i has
   * id i and is built by createSymbol; the sorted list is strictly
   * ascending by string.
   */
  predicate ValidTables(alphabet: seq<Symbol>, id2sym: seq<Symbol>)
  {
    && multiset(alphabet) == multiset(id2sym)
    && (forall i :: 0 <= i < |id2sym| ==> id2sym[i].id == i && Created(id2sym[i]))
    && Ascending(Strings(alphabet))
  }

  lemma SameStrings(alphabet: seq<Symbol>, id2sym: seq<Symbol>, s: string)
    requires multiset(alphabet) == multiset(id2sym)
    ensures s in Strings(alphabet) <==> s in Strings(id2sym)
    ensures |alphabet| == |id2sym|
  {
    assert |multiset(alphabet)| == |multiset(id2sym)|;
    if s in Strings(alphabet) {
      var k :| 0 <= k < |alphabet| && Strings(alphabet)[k] == s;
      assert alphabet[k] in multiset(id2sym);
      var j :| 0 <= j < |id2sym| && id2sym[j] == alphabet[k];
      assert Strings(id2sym)[j] == s;
    }
    if s in Strings(id2sym) {
      var k :| 0 <= k < |id2sym| && Strings(id2sym)[k] == s;
      assert id2sym[k] in multiset(alphabet);
      var j :| 0 <= j < |alphabet| && alphabet[j] == id2sym[k];
      assert Strings(alphabet)[j] == s;
    }
  }

  /** Inserting a string at its split point keeps a list ascending. */
  lemma InsertAscending(strs: seq<string>, s: string, p: int)
    requires Ascending(strs) && 0 <= p <= |strs|
    requires forall k :: 0 <= k < p ==> Less(strs[k], s)
    requires forall k :: p <= k < |strs| ==> Less(s, strs[k])
    ensures Ascending(strs[..p] + [s] + strs[p..])
  {
    var a := strs[..p] + [s] + strs[p..];
    forall i, j | 0 <= i < j < |a|
      ensures Less(a[i], a[j])
    {
      if i < p && p < j {
        LessTransitive(a[i], s, a[j]);
      }
    }
  }

  lemma StringsInsert(list: seq<Symbol>, x: Symbol, p: int)
    requires 0 <= p <= |list|
    ensures Strings(list[..p] + [x] + list[p..]) == Strings(list)[..p] + [x.AsString()] + Strings(list)[p..]
  {
  }

  lemma StringsAppend(list: seq<Symbol>, x: Symbol)
    ensures Strings(list + [x]) == Strings(list) + [x.AsString()]
  {
    var a, b := Strings(list + [x]), Strings(list) + [x.AsString()];
    assert |a| == |b|;
    forall i | 0 <= i < |a|
      ensures a[i] == b[i]
    {
      if i < |list| {
        assert (list + [x])[i] == list[i];
      }
    }
  }

  lemma MultisetInsert(list: seq<Symbol>, x: Symbol, p: int)
    requires 0 <= p <= |list|
    ensures multiset(list[..p] + [x] + list[p..]) == multiset(list) + multiset{x}
  {
    assert list == list[..p] + list[p..];
  }

  /** Inserting a new string at its split point keeps the tables valid. */
  lemma InsertValid(alphabet: seq<Symbol>, id2sym: seq<Symbol>, symbol: string, p: int)
    requires ValidTables(alphabet, id2sym) && 0 <= p <= |alphabet|
    requires forall k :: 0 <= k < p ==> Less(alphabet[k].AsString(), symbol)
    requires forall k :: p <= k < |alphabet| ==> Less(symbol, alphabet[k].AsString())
    ensures var x := CreateSymbol(symbol, |id2sym|);
      ValidTables(alphabet[..p] + [x] + alphabet[p..], id2sym + [x])
  {
    var x := CreateSymbol(symbol, |id2sym|);
    MultisetInsert(alphabet, x, p);
    InsertAscending(Strings(alphabet), symbol, p);
    StringsInsert(alphabet, x, p);
    var ids := id2sym + [x];
    forall i | 0 <= i < |ids|
      ensures ids[i].id == i && Created(ids[i])
    {
      if i < |id2sym| {
        assert ids[i] == id2sym[i];
      }
    }
  }

  /** In valid tables, the symbol an id-ordered entry is found at is that entry itself. */
  lemma FoundIsOwnEntry(alphabet: seq<Symbol>, id2sym: seq<Symbol>, id: int, i: int)
    requires ValidTables(alphabet, id2sym) && 0 <= id < |id2sym| && 0 <= i < |alphabet|
    requires alphabet[i].MulticharSymbol? && CharLike(ASymbol(id2sym[id])) ==> |alphabet[i].text| > 0
    requires alphabet[i].CompareTo(ASymbol(id2sym[id])) == 0
    ensures alphabet[i] == id2sym[id]
  {
    assert alphabet[i] in multiset(id2sym);
    var j :| 0 <= j < |id2sym| && id2sym[j] == alphabet[i];
    ZeroMeansSameString(alphabet[i], ASymbol(id2sym[id]));
    assert id2sym[id] in multiset(alphabet);
    var k :| 0 <= k < |alphabet| && alphabet[k] == id2sym[id];
    var strs := Strings(alphabet);
    if k != i {
      assert strs[k] == strs[i];
      if k < i {
        assert Less(strs[k], strs[i]);
      } else {
        assert Less(strs[i], strs[k]);
      }
      LessIrreflexive(strs[i]);
    }
  }

  /** The lists after getSymbol(symbol): unchanged when the search finds it, else the new symbol inserted at the insertion point and appended to the id list. */
  predicate Added(alphabet: seq<Symbol>, id2sym: seq<Symbol>, alphabet': seq<Symbol>, id2sym': seq<Symbol>, symbol: string)
  {
    var i := BinarySearch(alphabet, AString(symbol));
    var x := CreateSymbol(symbol, |id2sym|);
    if i >= 0 then alphabet' == alphabet && id2sym' == id2sym
    else alphabet' == alphabet[..-(i + 1)] + [x] + alphabet[-(i + 1)..] && id2sym' == id2sym + [x]
  }

  /**
   * getSymbol on valid tables and a non-empty string keeps them valid,
   * returns a symbol for the string, and adds the string to the id order
   * exactly as addSymbol of the live table does.
   */
  lemma GetSymbolValid(alphabet: seq<Symbol>, id2sym: seq<Symbol>, alphabet': seq<Symbol>, id2sym': seq<Symbol>, symbol: string, r: Symbol)
    requires ValidTables(alphabet, id2sym) && |symbol| > 0
    requires Added(alphabet, id2sym, alphabet', id2sym', symbol)
    requires var i := BinarySearch(alphabet, AString(symbol));
      r == if i >= 0 then alphabet[i] else CreateSymbol(symbol, |id2sym|)
    ensures ValidTables(alphabet', id2sym') && r.AsString() == symbol && r in id2sym'
    ensures Strings(id2sym') == SymbolTable.Intern(Strings(id2sym), symbol).0
  {
    var i := BinarySearch(alphabet, AString(symbol));
    if i < 0 {
      SearchMiss(alphabet, symbol);
      InsertValid(alphabet, id2sym, symbol, -(i + 1));
      NewSymbolInterned(alphabet, id2sym, symbol);
    } else {
      FoundSymbolValid(alphabet, id2sym, symbol);
    }
  }

  /** getSymbol for a string already in the table: its symbol, tables unchanged. */
  lemma FoundSymbolValid(alphabet: seq<Symbol>, id2sym: seq<Symbol>, symbol: string)
    requires ValidTables(alphabet, id2sym) && |symbol| > 0
    requires BinarySearch(alphabet, AString(symbol)) >= 0
    ensures var r := alphabet[BinarySearch(alphabet, AString(symbol))];
      r.AsString() == symbol && r in id2sym && Strings(id2sym) == SymbolTable.Intern(Strings(id2sym), symbol).0
  {
    var i := BinarySearch(alphabet, AString(symbol));
    StringSearchSpec(alphabet, symbol);
    SameStrings(alphabet, id2sym, symbol);
    assert alphabet[i] in multiset(id2sym);
  }

  /** A symbol the search for a char finds spells that char alone. */
  lemma CharFound(alphabet: seq<Symbol>, id2sym: seq<Symbol>, c: char)
    requires ValidTables(alphabet, id2sym) && Comparable(alphabet, AChar(c))
    requires BinarySearch(alphabet, AChar(c)) >= 0
    ensures [c] in Strings(alphabet)
  {
    var i := BinarySearch(alphabet, AChar(c));
    assert alphabet[i] in multiset(id2sym);
    var j :| 0 <= j < |id2sym| && id2sym[j] == alphabet[i];
    ZeroMeansSameString(alphabet[i], AChar(c));
    assert Strings(alphabet)[i] == [c];
  }

  /** A miss of the search names the point where the smaller strings end. */
  lemma SearchMiss(alphabet: seq<Symbol>, symbol: string)
    requires Ascending(Strings(alphabet)) && |symbol| > 0
    requires BinarySearch(alphabet, AString(symbol)) < 0
    ensures var p := -(BinarySearch(alphabet, AString(symbol)) + 1);
      0 <= p <= |alphabet| &&
      (forall k :: 0 <= k < p ==> Less(alphabet[k].AsString(), symbol)) &&
      (forall k :: p <= k < |alphabet| ==> Less(symbol, alphabet[k].AsString()))
  {
    StringSearchSpec(alphabet, symbol);
  }

  /** ... and the id order gains the string at its end, as addSymbol of the live table does. */
  lemma NewSymbolInterned(alphabet: seq<Symbol>, id2sym: seq<Symbol>, symbol: string)
    requires Ascending(Strings(alphabet)) && multiset(alphabet) == multiset(id2sym) && |symbol| > 0
    requires BinarySearch(alphabet, AString(symbol)) < 0
    ensures Strings(id2sym + [CreateSymbol(symbol, |id2sym|)]) == SymbolTable.Intern(Strings(id2sym), symbol).0
  {
    StringSearchSpec(alphabet, symbol);
    SameStrings(alphabet, id2sym, symbol);
    StringsAppend(id2sym, CreateSymbol(symbol, |id2sym|));
  }

  class Alphabet {
    /** Symbols in string order. */
    var alphabet: seq<Symbol>
    /** Symbols in id order. */
    var id2sym: seq<Symbol>

    predicate Valid()
      reads this
    {
      ValidTables(alphabet, id2sym)
    }

    constructor ()
      ensures alphabet == [] && id2sym == [] && Valid()
    {
      alphabet := [];
      id2sym := [];
    }

    /** Alphabet(String[]) */
    constructor FromArray(symbols: seq<Option<string>>)
      ensures (forall i :: 0 <= i < |symbols| && symbols[i].Some? ==> |symbols[i].value| > 0) ==>
        Valid() && Strings(id2sym) == SymbolTable.InternAll([], SymbolTable.ArrayNames(symbols, 0))
    {
      alphabet := [];
      id2sym := [];
      new;
      AddSymbols(symbols);
    }

    /** Alphabet(Iterable<String>) */
    constructor FromList(symbols: seq<Option<string>>)
      ensures (forall i :: 0 <= i < |symbols| && symbols[i].Some? ==> |symbols[i].value| > 0) ==>
        Valid() && Strings(id2sym) == SymbolTable.InternAll([], SymbolTable.ListNames(symbols))
    {
      alphabet := [];
      id2sym := [];
      new;
      AddSymbolList(symbols);
    }

    /**
     * contains(char): a binary search with the char as key.  What it finds
     * is the one-char string; it may miss one (CharSearchMisses).
     */
    predicate Contains(c: char)
      reads this
      requires Comparable(alphabet, AChar(c))
      ensures Valid() && Contains(c) ==> [c] in Strings(alphabet)
    {
      if Valid() && BinarySearch(alphabet, AChar(c)) >= 0 then
        CharFound(alphabet, id2sym, c);
        true
      else BinarySearch(alphabet, AChar(c)) >= 0
    }

    /** contains(String) is membership for every non-empty string. */
    predicate ContainsString(symbol: string)
      reads this
      ensures Valid() && |symbol| > 0 ==> (ContainsString(symbol) <==> symbol in Strings(id2sym))
    {
      if Valid() && |symbol| > 0 then
        StringSearchSpec(alphabet, symbol);
        SameStrings(alphabet, id2sym, symbol);
        BinarySearch(alphabet, AString(symbol)) >= 0
      else BinarySearch(alphabet, AString(symbol)) >= 0
    }

    /** getSymbol(int): the symbol with that id, null from the size on (a negative id throws). */
    function GetSymbolById(id: int): (r: Option<Symbol>)
      reads this
      requires 0 <= id
      ensures r.None? <==> id >= |id2sym|
      ensures Valid() && r.Some? ==> r.value.GetId() == id && r.value in alphabet
    {
      if id < |id2sym| then
        assert id2sym[id] in multiset(alphabet) <== Valid();
        Some(id2sym[id])
      else None
    }

    /** size(): the length of the sorted list. */
    function Size(): (n: int)
      reads this
      ensures Valid() ==> n == |id2sym|
    {
      if Valid() then
        SameStrings(alphabet, id2sym, []);
        |alphabet|
      else |alphabet|
    }

    /** getSymbols: the strings in id order. */
    function GetSymbols(): (r: seq<string>)
      reads this
      ensures |r| == |id2sym|
      ensures forall i :: 0 <= i < |r| ==> GetSymbolById(i) == Some(id2sym[i]) && r[i] == id2sym[i].AsString()
    {
      Strings(id2sym)
    }

    /** idOf: the id of the symbol found by the search, -1 when contains fails; nothing is added. */
    function IdOf(symbol: string): (r: int)
      reads this
      ensures Valid() && |symbol| > 0 ==> (r == -1 <==> symbol !in Strings(id2sym))
      ensures Valid() && |symbol| > 0 && r != -1 ==> 0 <= r < |id2sym| && id2sym[r].AsString() == symbol
    {
      var i := BinarySearch(alphabet, AString(symbol));
      if i >= 0 then
        if Valid() && |symbol| > 0 then
          StringSearchSpec(alphabet, symbol);
          SameStrings(alphabet, id2sym, symbol);
          assert alphabet[i] in multiset(id2sym);
          alphabet[i].GetId()
        else alphabet[i].GetId()
      else
        if Valid() && |symbol| > 0 then
          StringSearchSpec(alphabet, symbol);
          SameStrings(alphabet, id2sym, symbol);
          -1
        else -1
    }

    /** The private addSymbol(symbol, i): insert a new symbol at sorted index i with the next id. */
    method AddSymbolAt(symbol: string, i: int) returns (s: Symbol)
      modifies this
      requires 0 <= i <= |alphabet|
      ensures s == CreateSymbol(symbol, |old(id2sym)|)
      ensures alphabet == old(alphabet)[..i] + [s] + old(alphabet)[i..]
      ensures id2sym == old(id2sym) + [s]
    {
      var id := |id2sym|;
      s := CreateSymbol(symbol, id);
      alphabet := alphabet[..i] + [s] + alphabet[i..];
      id2sym := id2sym + [s];
    }

    /**
     * getSymbol(String): the symbol the search finds, or a new one inserted
     * at the insertion point.  On a valid alphabet and a non-empty string
     * this is addSymbol of the live table on the strings in id order.
     */
    method GetSymbol(symbol: string) returns (r: Symbol)
      modifies this
      ensures Added(old(alphabet), old(id2sym), alphabet, id2sym, symbol)
      ensures var i := BinarySearch(old(alphabet), AString(symbol));
        r == if i >= 0 then old(alphabet)[i] else CreateSymbol(symbol, |old(id2sym)|)
      ensures old(Valid()) && |symbol| > 0 ==>
        (Valid() && r.AsString() == symbol && r in id2sym &&
         Strings(id2sym) == SymbolTable.Intern(Strings(old(id2sym)), symbol).0)
    {
      var i := BinarySearch(alphabet, AString(symbol));
      if i < 0 {
        r := AddSymbolAt(symbol, -(i + 1));
      } else {
        r := alphabet[i];
      }
      if old(Valid()) && |symbol| > 0 {
        GetSymbolValid(old(alphabet), old(id2sym), alphabet, id2sym, symbol, r);
      }
    }

    /** addSymbol(String): getSymbol with the result dropped. */
    method AddSymbol(symbol: string)
      modifies this
      ensures Added(old(alphabet), old(id2sym), alphabet, id2sym, symbol)
      ensures old(Valid()) && |symbol| > 0 ==>
        (Valid() && Strings(id2sym) == SymbolTable.Intern(Strings(old(id2sym)), symbol).0)
    {
      var _ := GetSymbol(symbol);
    }

    /** addSymbols(String[]): the k-th null entry is added as "NULL" + k. */
    method AddSymbols(symbols: seq<Option<string>>)
      modifies this
      ensures old(Valid()) && (forall i :: 0 <= i < |symbols| && symbols[i].Some? ==> |symbols[i].value| > 0) ==>
        Valid() && Strings(id2sym) == SymbolTable.InternAll(Strings(old(id2sym)), SymbolTable.ArrayNames(symbols, 0))
    {
      ghost var good := Valid() && (forall i :: 0 <= i < |symbols| && symbols[i].Some? ==> |symbols[i].value| > 0);
      var i := 0;
      var k := 0;
      while k < |symbols|
        invariant 0 <= k <= |symbols|
        invariant good ==> Valid() && (forall j :: k <= j < |symbols| && symbols[j].Some? ==> |symbols[j].value| > 0)
        invariant good ==>
          SymbolTable.InternAll(Strings(old(id2sym)), SymbolTable.ArrayNames(symbols, 0)) ==
          SymbolTable.InternAll(Strings(id2sym), SymbolTable.ArrayNames(symbols[k..], i))
      {
        assert symbols[k..][0] == symbols[k] && symbols[k..][1..] == symbols[k + 1..];
        var name := if symbols[k].None? then "NULL" + SymbolTable.Decimal(i) else symbols[k].value;
        assert SymbolTable.ArrayNames(symbols[k..], i) ==
          [name] + SymbolTable.ArrayNames(symbols[k + 1..], if symbols[k].None? then i + 1 else i);
        AddSymbol(name);
        if symbols[k].None? {
          i := i + 1;
        }
        k := k + 1;
      }
    }

    /** addSymbols(Iterable<String>): every null entry is added as "NULL". */
    method AddSymbolList(symbols: seq<Option<string>>)
      modifies this
      ensures old(Valid()) && (forall i :: 0 <= i < |symbols| && symbols[i].Some? ==> |symbols[i].value| > 0) ==>
        Valid() && Strings(id2sym) == SymbolTable.InternAll(Strings(old(id2sym)), SymbolTable.ListNames(symbols))
    {
      ghost var good := Valid() && (forall i :: 0 <= i < |symbols| && symbols[i].Some? ==> |symbols[i].value| > 0);
      var k := 0;
      while k < |symbols|
        invariant 0 <= k <= |symbols|
        invariant good ==> Valid() && (forall j :: k <= j < |symbols| && symbols[j].Some? ==> |symbols[j].value| > 0)
        invariant good ==>
          SymbolTable.InternAll(Strings(old(id2sym)), SymbolTable.ListNames(symbols)) ==
          SymbolTable.InternAll(Strings(id2sym), SymbolTable.ListNames(symbols[k..]))
      {
        var name := if symbols[k].None? then "NULL" else symbols[k].value;
        SymbolTable.InternListStep(Strings(id2sym), symbols, k);
        AddSymbol(name);
        k := k + 1;
      }
    }

    /**
     * The private setSymbol: beyond the last id it adds the symbol;
     * otherwise the entry under id and the entry the search finds for the
     * old symbol are overwritten in place, without re-sorting.  thrown
     * reports the two exceptions: a negative id makes id2sym.get throw
     * before anything changes, and a search that misses (CharSearchMisses
     * shows one on a valid alphabet) makes alphabet.set throw after id2sym
     * has already been overwritten.
     */
    method SetSymbol(id: int, symbol: string) returns (thrown: bool)
      modifies this
      requires 0 <= id < |id2sym| ==> Comparable(alphabet, ASymbol(id2sym[id]))
      ensures thrown <==> id < 0 || (id < |old(id2sym)| && BinarySearch(old(alphabet), ASymbol(old(id2sym)[id])) < 0)
      ensures id < 0 ==> id2sym == old(id2sym) && alphabet == old(alphabet)
      ensures id >= |old(id2sym)| ==> Added(old(alphabet), old(id2sym), alphabet, id2sym, symbol)
      ensures 0 <= id < |old(id2sym)| ==>
        var i := BinarySearch(old(alphabet), ASymbol(old(id2sym)[id]));
        id2sym == old(id2sym)[id := CreateSymbol(symbol, id)] &&
        (i < 0 ==> alphabet == old(alphabet)) &&
        (i >= 0 ==> alphabet == old(alphabet)[i := CreateSymbol(symbol, id)] &&
                    (old(Valid()) ==> old(alphabet)[i] == old(id2sym)[id]))
    {
      thrown := false;
      if id >= |id2sym| {
        AddSymbol(symbol);
      } else if id < 0 {
        thrown := true;
      } else {
        var sym := id2sym[id];
        var i := BinarySearch(alphabet, ASymbol(sym));
        if i >= 0 && Valid() {
          FoundIsOwnEntry(alphabet, id2sym, id, i);
        }
        var newSym := CreateSymbol(symbol, id);
        id2sym := id2sym[id := newSym];
        if i < 0 {
          thrown := true;
        } else {
          alphabet := alphabet[i := newSym];
        }
      }
    }

    /** getPrefixes: skip to the first symbol starting with s[start], then keep the block's symbols that occur at start. */
    method GetPrefixes(s: string, start: int) returns (prefixes: seq<Symbol>)
      requires 0 <= start < |s|
      ensures prefixes == ScanPrefixes(alphabet, s, start)
    {
      var c := s[start];
      var i := 0;
      while i < |alphabet| && !alphabet[i].StartsWith(c)
        invariant 0 <= i <= |alphabet|
        invariant SkipTo(alphabet, c, 0) == SkipTo(alphabet, c, i)
      {
        i := i + 1;
      }
      prefixes := [];
      var j := i;
      while j < |alphabet| && alphabet[j].StartsWith(c)
        invariant i <= j <= |alphabet|
        invariant Block(alphabet, c, s, start, i) == prefixes + Block(alphabet, c, s, start, j)
      {
        var sym := alphabet[j];
        if sym.PrefixOf(s, start) {
          prefixes := prefixes + [sym];
        }
        j := j + 1;
      }
    }
  }
}
