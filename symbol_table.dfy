/**
 * The symbol table of the live generation (symbol.Alphabet): strings are
 * interned to dense ids.  The TreeMap sym2id becomes a map whose key order
 * is JStrings.Less; the ArrayList id2sym a sequence.  Ids 0, 1 and 2 hold
 * the reserved strings for epsilon, the unknown identity and the unknown
 * symbol.
 */
module SymbolTable {
  import opened JStrings
  import opened Options

  const EPSILON_STRING: string := [0 as char]
  const UNKNOWN_IDENTITY_STRING: string := [1 as char]
  const UNKNOWN_STRING: string := [2 as char]

  /** The table a fresh alphabet starts from. */
  const RESERVED: seq<string> := [EPSILON_STRING, UNKNOWN_IDENTITY_STRING, UNKNOWN_STRING]

  predicate Distinct(table: seq<string>)
  {
    forall i, j :: 0 <= i < j < |table| ==> table[i] != table[j]
  }

  /** The id of s in an id-ordered table, or -1. */
  function IndexOf(table: seq<string>, s: string): (i: int)
    ensures i == -1 <==> s !in table
    ensures 0 <= i ==> i < |table| && table[i] == s && s !in table[..i]
  {
    if |table| == 0 then -1
    else if table[|table| - 1] == s && s !in table[..|table| - 1] then |table| - 1
    else
      var i := IndexOf(table[..|table| - 1], s);
      assert table == table[..|table| - 1] + [table[|table| - 1]];
      if i >= 0 then
        assert table[..i] == table[..|table| - 1][..i];
        i
      else -1
  }

  /** addSymbol on the id-ordered table: the existing id, or the next id for a new string. */
  function Intern(table: seq<string>, s: string): (seq<string>, int)
  {
    if s in table then (table, IndexOf(table, s)) else (table + [s], |table|)
  }

  /** addSymbol applied to each string in turn. */
  function InternAll(table: seq<string>, ss: seq<string>): seq<string>
    decreases |ss|
  {
    if |ss| == 0 then table else InternAll(Intern(table, ss[0]).0, ss[1..])
  }

  /** Integer.toString for a non-negative int. */
  function Decimal(n: nat): (r: string)
    ensures |r| >= 1
  {
    if n < 10 then [('0' as int + n) as char] else Decimal(n / 10) + [('0' as int + n % 10) as char]
  }

  /** addSymbols(String[]): the k-th null entry stands for "NULL" + k. */
  function ArrayNames(symbols: seq<Option<string>>, k: nat): seq<string>
  {
    if |symbols| == 0 then []
    else match symbols[0]
      case None => ["NULL" + Decimal(k)] + ArrayNames(symbols[1..], k + 1)
      case Some(s) => [s] + ArrayNames(symbols[1..], k)
  }

  /** addSymbols(Iterable): every null entry stands for "NULL". */
  function ListNames(symbols: seq<Option<string>>): seq<string>
  {
    if |symbols| == 0 then []
    else match symbols[0]
      case None => ["NULL"] + ListNames(symbols[1..])
      case Some(s) => [s] + ListNames(symbols[1..])
  }

  /** Interning the names of symbols[k..] is interning the k-th name, then the rest. */
  lemma InternListStep(table: seq<string>, symbols: seq<Option<string>>, k: int)
    requires 0 <= k < |symbols|
    ensures InternAll(table, ListNames(symbols[k..])) ==
      InternAll(Intern(table, if symbols[k].None? then "NULL" else symbols[k].value).0, ListNames(symbols[k + 1..]))
  {
    assert symbols[k..][0] == symbols[k] && symbols[k..][1..] == symbols[k + 1..];
  }

  /** The symbols found by getPrefixes, in the order of the sorted keys. */
  function PrefixesAt(keys: seq<string>, s: string, start: int): seq<string>
  {
    if |keys| == 0 then []
    else if |keys[0]| > 0 && StartsWithAt(s, keys[0], start) then [keys[0]] + PrefixesAt(keys[1..], s, start)
    else PrefixesAt(keys[1..], s, start)
  }

  // ---------------------------------------------------------------------
  // Properties of the table operations

  /** A fresh alphabet holds exactly the three reserved strings, with ids 0, 1 and 2. */
  lemma FreshTable()
    ensures InternAll([], RESERVED) == RESERVED
    ensures IndexOf(RESERVED, EPSILON_STRING) == 0
    ensures IndexOf(RESERVED, UNKNOWN_IDENTITY_STRING) == 1
    ensures IndexOf(RESERVED, UNKNOWN_STRING) == 2
  {
    assert Distinct(RESERVED);
    IndexOfUnique(RESERVED, EPSILON_STRING, 0);
    IndexOfUnique(RESERVED, UNKNOWN_IDENTITY_STRING, 1);
    IndexOfUnique(RESERVED, UNKNOWN_STRING, 2);
    var e, i, u := EPSILON_STRING, UNKNOWN_IDENTITY_STRING, UNKNOWN_STRING;
    assert e != i && e != u && i != u by {
      assert e[0] != i[0] && e[0] != u[0] && i[0] != u[0];
    }
    assert Intern([], e).0 == [e];
    assert Intern([e], i).0 == [e, i];
    assert Intern([e, i], u).0 == RESERVED;
    assert RESERVED[1..] == [i, u] && RESERVED[1..][1..] == [u];
    var none: seq<string> := [];
    assert [u][1..] == none;
    calc {
      InternAll([], RESERVED);
      InternAll([e], [i, u]);
      InternAll([e, i], [u]);
      InternAll(RESERVED, none);
    }
  }

  /**
   * Interning a present string changes nothing and returns its id; a new
   * string gets the next id.  Either way the old ids keep their strings and
   * the string is found under the returned id.
   */
  lemma InternSpec(table: seq<string>, s: string)
    requires Distinct(table)
    ensures var (t, id) := Intern(table, s);
      && Distinct(t)
      && table <= t && |t| <= |table| + 1
      && 0 <= id < |t| && t[id] == s && IndexOf(t, s) == id
      && (s in table <==> t == table)
      && (s !in table ==> id == |table| && |t| == |table| + 1)
  {
    var (t, id) := Intern(table, s);
    if s !in table {
      assert t[..|table|] == table;
      IndexOfUnique(t, s, |table|);
    }
  }

  lemma IndexOfUnique(table: seq<string>, s: string, k: int)
    requires Distinct(table) && 0 <= k < |table| && table[k] == s
    ensures IndexOf(table, s) == k
  {
  }

  /** addSymbol is idempotent. */
  lemma InternIdempotent(table: seq<string>, s: string)
    requires Distinct(table)
    ensures Intern(Intern(table, s).0, s) == Intern(table, s)
  {
    InternSpec(table, s);
  }

  /** Interning a list keeps every old id and ends with every listed string present. */
  lemma {:induction false} InternAllSpec(table: seq<string>, ss: seq<string>)
    requires Distinct(table)
    ensures Distinct(InternAll(table, ss)) && table <= InternAll(table, ss)
    ensures forall s :: s in ss ==> s in InternAll(table, ss)
    ensures forall s :: s in InternAll(table, ss) ==> s in table || s in ss
    decreases |ss|
  {
    if |ss| > 0 {
      InternSpec(table, ss[0]);
      var t := Intern(table, ss[0]).0;
      InternAllSpec(t, ss[1..]);
      assert ss == [ss[0]] + ss[1..];
    }
  }

  /** With n null entries, addSymbols(String[]) names them NULL0 .. NULL(n-1). */
  lemma {:induction false} ArrayNamesCount(symbols: seq<Option<string>>, k: nat)
    ensures |ArrayNames(symbols, k)| == |symbols|
    ensures forall i :: 0 <= i < |symbols| && symbols[i].Some? ==> ArrayNames(symbols, k)[i] == symbols[i].value
  {
    if |symbols| > 0 {
      ArrayNamesCount(symbols[1..], if symbols[0].None? then k + 1 else k);
    }
  }

  lemma {:induction false} ListNamesSpec(symbols: seq<Option<string>>)
    ensures |ListNames(symbols)| == |symbols|
    ensures forall i :: 0 <= i < |symbols| ==>
      ListNames(symbols)[i] == (if symbols[i].Some? then symbols[i].value else "NULL")
  {
    if |symbols| > 0 {
      ListNamesSpec(symbols[1..]);
    }
  }

  /** Interning strings that are all new and distinct appends them in order. */
  lemma {:induction false} InternAllFresh(table: seq<string>, ss: seq<string>)
    requires Distinct(table + ss)
    ensures InternAll(table, ss) == table + ss
    decreases |ss|
  {
    if |ss| > 0 {
      forall k | 0 <= k < |table|
        ensures table[k] != ss[0]
      {
        assert (table + ss)[k] == table[k] && (table + ss)[|table|] == ss[0];
      }
      assert table + [ss[0]] + ss[1..] == table + ss;
      InternAllFresh(table + [ss[0]], ss[1..]);
    }
  }

  /** Interning strings that are already present changes nothing. */
  lemma {:induction false} InternAllPresent(table: seq<string>, ss: seq<string>, rest: seq<string>)
    requires forall s :: s in ss ==> s in table
    ensures InternAll(table, ss + rest) == InternAll(table, rest)
    decreases |ss|
  {
    if |ss| > 0 {
      assert (ss + rest)[0] == ss[0] && (ss + rest)[1..] == ss[1..] + rest;
      assert Intern(table, ss[0]).0 == table;
      assert InternAll(table, ss + rest) == InternAll(table, ss[1..] + rest);
      InternAllPresent(table, ss[1..], rest);
    } else {
      assert ss + rest == rest;
    }
  }

  /**
   * new Alphabet(a.getSymbols()) rebuilds a's table: the reserved strings
   * come first and are found again, every later string is new.
   */
  lemma CopyTable(table: seq<string>)
    requires Distinct(table) && RESERVED <= table
    ensures InternAll(RESERVED, ListNames(Somes(table))) == table
  {
    ListNamesSpec(Somes(table));
    assert ListNames(Somes(table)) == table;
    assert table == RESERVED + table[3..];
    InternAllPresent(RESERVED, RESERVED, table[3..]);
    InternAllFresh(RESERVED, table[3..]);
  }

  /** A list of strings with no null entry. */
  function Somes(ss: seq<string>): (r: seq<Option<string>>)
    ensures |r| == |ss| && forall i :: 0 <= i < |ss| ==> r[i] == Some(ss[i])
  {
    seq(|ss|, i requires 0 <= i < |ss| => Some(ss[i]))
  }

  /** getPrefixes keeps exactly the non-empty keys that occur at start, in key order. */
  lemma {:induction false} PrefixesAtSpec(keys: seq<string>, s: string, start: int)
    ensures forall k :: k in PrefixesAt(keys, s, start) <==> k in keys && |k| > 0 && StartsWithAt(s, k, start)
    ensures Ascending(keys) ==> Ascending(PrefixesAt(keys, s, start))
  {
    if |keys| > 0 {
      PrefixesAtSpec(keys[1..], s, start);
      assert keys == [keys[0]] + keys[1..];
      if Ascending(keys) {
        assert Ascending(keys[1..]);
        var r := PrefixesAt(keys, s, start);
        if |keys[0]| > 0 && StartsWithAt(s, keys[0], start) {
          forall i, j | 0 <= i < j < |r|
            ensures Less(r[i], r[j])
          {
            if i == 0 {
              assert r[j] in keys[1..];
            }
          }
        }
      }
    }
  }

  /** All symbols found at one position are prefixes of the rest of s, so key order is length order. */
  lemma PrefixesByLengthAt(keys: seq<string>, s: string, start: int, i: int, j: int)
    requires 0 <= i < |PrefixesAt(keys, s, start)| && 0 <= j < |PrefixesAt(keys, s, start)|
    requires 0 <= start <= |s|
    ensures Less(PrefixesAt(keys, s, start)[i], PrefixesAt(keys, s, start)[j])
        <==> |PrefixesAt(keys, s, start)[i]| < |PrefixesAt(keys, s, start)[j]|
  {
    var r := PrefixesAt(keys, s, start);
    PrefixesAtSpec(keys, s, start);
    assert r[i] in r && r[j] in r;
    StartsWithAtPrefix(s, r[i], start);
    StartsWithAtPrefix(s, r[j], start);
    PrefixesByLength(r[i], r[j], s[start..]);
  }

  // ---------------------------------------------------------------------
  // Facts about the one-character tail key

  lemma BelowKey(k: string, c: char)
    requires Less(k, [c])
    ensures |k| == 0 || k[0] < c
  {
    assert [c][1..] == [];
  }

  lemma AtOrAboveKey(k: string, c: char)
    requires !Less(k, [c])
    ensures |k| > 0 && k[0] >= c
  {
  }

  lemma StaysAbove(a: string, b: string, key: string)
    requires !Less(a, key) && Less(a, b)
    ensures !Less(b, key)
  {
    LessTotal(a, key);
    if Less(b, key) {
      LessTransitive(a, b, key);
    }
  }

  lemma FirstCharMonotone(a: string, b: string)
    requires Less(a, b) && |a| > 0
    ensures |b| > 0 && a[0] <= b[0]
  {
  }

  /** TreeMap.tailMap(key): the index of the first sorted key that is not less than key. */
  function TailStart(keys: seq<string>, key: string): (i: nat)
    ensures i <= |keys|
    ensures forall j :: 0 <= j < i ==> Less(keys[j], key)
    ensures i < |keys| ==> !Less(keys[i], key)
  {
    if |keys| == 0 || !Less(keys[0], key) then 0 else 1 + TailStart(keys[1..], key)
  }

  // ---------------------------------------------------------------------
  // The object

  /** A map and an id-ordered table that are mutually inverse over the dense ids. */
  predicate InverseTables(sym2id: map<string, int>, id2sym: seq<string>)
  {
    (forall i :: 0 <= i < |id2sym| ==> id2sym[i] in sym2id && sym2id[id2sym[i]] == i)
    && (forall k :: k in sym2id ==> 0 <= sym2id[k] < |id2sym| && id2sym[sym2id[k]] == k)
  }

  lemma InverseExtend(sym2id: map<string, int>, id2sym: seq<string>, s: string)
    requires InverseTables(sym2id, id2sym) && s !in sym2id
    ensures InverseTables(sym2id[s := |id2sym|], id2sym + [s])
  {
    var m, t := sym2id[s := |id2sym|], id2sym + [s];
    forall i | 0 <= i < |t|
      ensures t[i] in m && m[t[i]] == i
    {
      if i < |id2sym| {
        assert t[i] == id2sym[i] != s;
      }
    }
  }

  class Alphabet {
    var sym2id: map<string, int>
    var id2sym: seq<string>
    var epsIdx: int
    var idIdx: int
    var unknIdx: int

    /** sym2id and id2sym are mutually inverse over the dense ids 0 .. size-1. */
    predicate Inverse()
      reads this
    {
      InverseTables(sym2id, id2sym)
    }

    /** The inverse tables plus the reserved ids. */
    predicate Valid()
      reads this
    {
      Inverse() && RESERVED <= id2sym && epsIdx == 0 && idIdx == 1 && unknIdx == 2
    }

    constructor ()
      ensures Valid() && id2sym == RESERVED
      ensures sym2id == map[EPSILON_STRING := 0, UNKNOWN_IDENTITY_STRING := 1, UNKNOWN_STRING := 2]
    {
      sym2id := map[];
      id2sym := [];
      new;
      var e := AddSymbol(EPSILON_STRING);
      var i := AddSymbol(UNKNOWN_IDENTITY_STRING);
      var u := AddSymbol(UNKNOWN_STRING);
      assert id2sym == [EPSILON_STRING] + [UNKNOWN_IDENTITY_STRING] + [UNKNOWN_STRING];
    }

    /** Alphabet(String[]) */
    constructor FromArray(symbols: seq<Option<string>>)
      ensures Valid() && id2sym == InternAll(RESERVED, ArrayNames(symbols, 0))
    {
      sym2id := map[];
      id2sym := [];
      new;
      var e := AddSymbol(EPSILON_STRING);
      var i := AddSymbol(UNKNOWN_IDENTITY_STRING);
      var u := AddSymbol(UNKNOWN_STRING);
      assert id2sym == [EPSILON_STRING] + [UNKNOWN_IDENTITY_STRING] + [UNKNOWN_STRING] == RESERVED;
      AddSymbols(symbols);
    }

    /** Alphabet(Iterable<String>) */
    constructor FromList(symbols: seq<Option<string>>)
      ensures Valid() && id2sym == InternAll(RESERVED, ListNames(symbols))
    {
      sym2id := map[];
      id2sym := [];
      new;
      var e := AddSymbol(EPSILON_STRING);
      var i := AddSymbol(UNKNOWN_IDENTITY_STRING);
      var u := AddSymbol(UNKNOWN_STRING);
      assert id2sym == [EPSILON_STRING] + [UNKNOWN_IDENTITY_STRING] + [UNKNOWN_STRING] == RESERVED;
      AddSymbolList(symbols);
    }

    lemma DistinctTable()
      requires Inverse()
      ensures Distinct(id2sym)
    {
    }

    /** The map holds exactly the table's strings, each under its table id. */
    lemma MapIsIndex()
      requires Inverse()
      ensures sym2id.Keys == set s | s in id2sym
      ensures forall s :: s in sym2id ==> sym2id[s] == IndexOf(id2sym, s)
    {
      forall s | s in sym2id
        ensures sym2id[s] == IndexOf(id2sym, s)
      {
        IndexOfUnique(id2sym, s, sym2id[s]);
      }
    }

    predicate Contains(symbol: string)
      reads this
    {
      symbol in sym2id
    }

    function EpsilonId(): int
      reads this
    {
      epsIdx
    }

    predicate Epsilon(id: int)
      reads this
    {
      id == epsIdx
    }

    function IdentityId(): int
      reads this
    {
      idIdx
    }

    predicate Identity(id: int)
      reads this
    {
      id == idIdx
    }

    function UnknownId(): int
      reads this
    {
      unknIdx
    }

    predicate Unknown(id: int)
      reads this
    {
      id == unknIdx
    }

    /** getSymbol(int): the string with that id, null at or beyond the size (a negative id throws). */
    function GetSymbol(id: int): (r: Option<string>)
      reads this
      requires Inverse() && 0 <= id
      ensures r.Some? <==> id < |id2sym|
      ensures r.Some? ==> r.value in sym2id && sym2id[r.value] == id
    {
      if id < |id2sym| then Some(id2sym[id]) else None
    }

    /** getId: the id of the symbol, -1 exactly when it is absent. */
    function GetId(symbol: string): (r: int)
      reads this
      requires Inverse()
      ensures r == -1 <==> symbol !in id2sym
      ensures r != -1 ==> 0 <= r < |id2sym| && id2sym[r] == symbol
    {
      if symbol in sym2id then sym2id[symbol] else -1
    }

    /** size() is the number of keys, which equals the number of ids. */
    function Size(): (n: int)
      reads this
      requires Inverse()
      ensures n == |id2sym|
    {
      MapIsIndex();
      DistinctTable();
      DistinctCard(id2sym);
      |sym2id|
    }

    /** getSymbols: the strings in id order, each at the id getSymbol gives it; the ones contains accepts. */
    function GetSymbols(): (r: seq<string>)
      reads this
      ensures Inverse() ==> forall id :: 0 <= id < |r| ==> GetSymbol(id) == Some(r[id])
      ensures Inverse() ==> forall symbol :: symbol in r <==> Contains(symbol)
    {
      id2sym
    }

    method AddSymbol(symbol: string) returns (id: int)
      modifies this
      requires Inverse()
      ensures Inverse()
      ensures (id2sym, id) == Intern(old(id2sym), symbol)
      ensures symbol in old(sym2id) ==> sym2id == old(sym2id) && unchanged(this)
      ensures symbol !in old(sym2id) ==> sym2id == old(sym2id)[symbol := id]
      ensures epsIdx == (if symbol !in old(sym2id) && symbol == EPSILON_STRING then id else old(epsIdx))
      ensures idIdx == (if symbol !in old(sym2id) && symbol == UNKNOWN_IDENTITY_STRING then id else old(idIdx))
      ensures unknIdx == (if symbol !in old(sym2id) && symbol == UNKNOWN_STRING then id else old(unknIdx))
      ensures old(Valid()) ==> Valid()
    {
      MapIsIndex();
      if symbol in sym2id {
        id := sym2id[symbol];
      } else {
        if Valid() {
          assert id2sym[0] == EPSILON_STRING && id2sym[1] == UNKNOWN_IDENTITY_STRING && id2sym[2] == UNKNOWN_STRING;
          assert symbol != EPSILON_STRING && symbol != UNKNOWN_IDENTITY_STRING && symbol != UNKNOWN_STRING;
        }
        InverseExtend(sym2id, id2sym, symbol);
        id := |id2sym|;
        if symbol == EPSILON_STRING {
          epsIdx := id;
        } else if symbol == UNKNOWN_IDENTITY_STRING {
          idIdx := id;
        } else if symbol == UNKNOWN_STRING {
          unknIdx := id;
        }
        sym2id := sym2id[symbol := id];
        id2sym := id2sym + [symbol];
      }
    }

    /** getIdOrCreate, with computeIfAbsent as the Map interface defines it. */
    method GetIdOrCreate(symbol: string) returns (id: int)
      modifies this
      requires Inverse()
      ensures Inverse()
      ensures (id2sym, id) == Intern(old(id2sym), symbol)
      ensures old(Valid()) ==> Valid()
    {
      if symbol in sym2id {
        id := sym2id[symbol];
        MapIsIndex();
      } else {
        id := AddSymbol(symbol);
      }
    }

    method AddSymbols(symbols: seq<Option<string>>)
      modifies this
      requires Inverse()
      ensures Inverse()
      ensures id2sym == InternAll(old(id2sym), ArrayNames(symbols, 0))
      ensures old(Valid()) ==> Valid()
    {
      var i := 0;
      var k := 0;
      while k < |symbols|
        invariant 0 <= k <= |symbols| && Inverse()
        invariant InternAll(old(id2sym), ArrayNames(symbols, 0)) == InternAll(id2sym, ArrayNames(symbols[k..], i))
        invariant old(Valid()) ==> Valid()
      {
        assert symbols[k..] == [symbols[k]] + symbols[k + 1..];
        var name := if symbols[k].None? then "NULL" + Decimal(i) else symbols[k].value;
        var _ := AddSymbol(name);
        if symbols[k].None? {
          i := i + 1;
        }
        k := k + 1;
      }
    }

    method AddSymbolList(symbols: seq<Option<string>>)
      modifies this
      requires Inverse()
      ensures Inverse()
      ensures id2sym == InternAll(old(id2sym), ListNames(symbols))
      ensures old(Valid()) ==> Valid()
    {
      var k := 0;
      while k < |symbols|
        invariant 0 <= k <= |symbols| && Inverse()
        invariant InternAll(old(id2sym), ListNames(symbols)) == InternAll(id2sym, ListNames(symbols[k..]))
        invariant old(Valid()) ==> Valid()
      {
        assert symbols[k..] == [symbols[k]] + symbols[k + 1..];
        var name := if symbols[k].None? then "NULL" else symbols[k].value;
        var _ := AddSymbol(name);
        k := k + 1;
      }
    }

    /**
     * getPrefixes: walk the keys from the one-character key s[start]
     * upwards while they begin with that character, keeping those that
     * occur in s at start.
     */
    method GetPrefixes(s: string, start: int) returns (prefixes: seq<string>)
      requires Inverse() && 0 <= start < |s|
      ensures prefixes == PrefixesAt(Sort(id2sym), s, start)
    {
      var c := s[start];
      var keys := Sort(id2sym);
      DistinctTable();
      SortDistinct(id2sym);
      var i := TailStart(keys, [c]);
      SkipBelow(keys, s, start, i);
      prefixes := ScanPrefixes(keys, s, start, i);
    }
  }

  /**
   * The for loop of getPrefixes: from the first key not below the
   * character s[start], keep the keys occurring in s at start until one no
   * longer begins with that character.
   */
  method ScanPrefixes(keys: seq<string>, s: string, start: int, i0: int) returns (prefixes: seq<string>)
    requires Ascending(keys) && 0 <= start < |s| && 0 <= i0 <= |keys|
    requires i0 < |keys| ==> !Less(keys[i0], [s[start]])
    ensures prefixes == PrefixesAt(keys[i0..], s, start)
  {
    var c := s[start];
    var i := i0;
    prefixes := [];
    while i < |keys|
      invariant i0 <= i <= |keys|
      invariant i < |keys| ==> !Less(keys[i], [c])
      invariant PrefixesAt(keys[i0..], s, start) == prefixes + PrefixesAt(keys[i..], s, start)
    {
      var sym := keys[i];
      AtOrAboveKey(sym, c);
      if sym[0] != c {
        SkipAbove(keys, s, start, i);
        break;
      }
      PrefixesStep(keys, s, start, i);
      if StartsWithAt(s, sym, start) {
        AppendAssoc(prefixes, [sym], PrefixesAt(keys[i + 1..], s, start));
        prefixes := prefixes + [sym];
      }
      i := i + 1;
      if i < |keys| {
        StaysAbove(sym, keys[i], [c]);
      }
    }
  }

  lemma {:induction false} DistinctCard(table: seq<string>)
    requires Distinct(table)
    ensures |set s | s in table| == |table|
  {
    if |table| > 0 {
      var last := table[|table| - 1];
      var init := table[..|table| - 1];
      DistinctCard(init);
      assert (set s | s in table) == (set s | s in init) + {last};
      assert last !in init;
    }
  }

  /** The keys before the tail start cannot occur at start: they are empty or begin below s[start]. */
  lemma {:induction false} SkipBelow(keys: seq<string>, s: string, start: int, i: int)
    requires 0 <= start < |s| && 0 <= i <= |keys|
    requires forall j :: 0 <= j < i ==> Less(keys[j], [s[start]])
    ensures PrefixesAt(keys, s, start) == PrefixesAt(keys[i..], s, start)
  {
    if i > 0 {
      BelowKey(keys[0], s[start]);
      SkipBelow(keys[1..], s, start, i - 1);
      assert keys[1..][i - 1..] == keys[i..];
    }
  }

  lemma AppendAssoc(a: seq<string>, b: seq<string>, c: seq<string>)
    ensures a + (b + c) == a + b + c
  {
  }

  /** One key further down the ascending keys. */
  lemma PrefixesStep(keys: seq<string>, s: string, start: int, i: int)
    requires 0 <= i < |keys| && |keys[i]| > 0
    ensures StartsWithAt(s, keys[i], start) ==> PrefixesAt(keys[i..], s, start) == [keys[i]] + PrefixesAt(keys[i + 1..], s, start)
    ensures !StartsWithAt(s, keys[i], start) ==> PrefixesAt(keys[i..], s, start) == PrefixesAt(keys[i + 1..], s, start)
  {
    assert keys[i..][1..] == keys[i + 1..];
  }

  /** Once a sorted key begins above s[start], no later key can occur at start. */
  lemma SkipAbove(keys: seq<string>, s: string, start: int, i: int)
    requires Ascending(keys) && 0 <= start < |s| && 0 <= i < |keys|
    requires |keys[i]| > 0 && keys[i][0] > s[start]
    ensures PrefixesAt(keys[i..], s, start) == []
  {
    NoneAbove(keys[i..], s, start, keys[i][0]);
  }

  lemma {:induction false} NoneAbove(keys: seq<string>, s: string, start: int, d: char)
    requires Ascending(keys) && 0 <= start < |s| && d > s[start]
    requires |keys| > 0 ==> |keys[0]| > 0 && keys[0][0] >= d
    ensures PrefixesAt(keys, s, start) == []
  {
    if |keys| > 0 {
      if |keys| > 1 {
        FirstCharMonotone(keys[0], keys[1]);
      }
      NoneAbove(keys[1..], s, start, d);
    }
  }
}
