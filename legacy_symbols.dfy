/**
 * The symbol objects of the legacy generation (alphabet.CharSymbol and
 * alphabet.MulticharSymbol).  A symbol is an immutable value: one char or a
 * string, together with its id.  compareTo takes any object; the operand
 * kinds it distinguishes are listed in Operand.
 */
module LegacySymbols {
  import opened JStrings

  const EPSILON_CHAR: char := 0 as char
  const EPSILON_STRING: string := [EPSILON_CHAR]
  const IDENTITY_CHAR: char := 1 as char
  const IDENTITY_STRING: string := [IDENTITY_CHAR]

  /** What compareTo(Object) and equals(Object) may be handed. */
  datatype Operand = ASymbol(sym: Symbol) | AChar(c: char) | AString(s: string) | AnotherObject

  /** The string an operand that is a char, a string or a symbol stands for. */
  function KeyString(o: Operand): string
  {
    match o
    case ASymbol(sym) => sym.AsString()
    case AChar(c) => [c]
    case AString(s) => s
    case AnotherObject => []
  }

  /** The operand is a Character or a CharSymbol. */
  predicate CharLike(o: Operand)
  {
    o.AChar? || (o.ASymbol? && o.sym.CharSymbol?)
  }

  /** The operand is a String or a MulticharSymbol. */
  predicate StringLike(o: Operand)
  {
    o.AString? || (o.ASymbol? && o.sym.MulticharSymbol?)
  }

  function Sign(x: int): int
  {
    if x < 0 then -1 else if x == 0 then 0 else 1
  }

  datatype Symbol = CharSymbol(symbol: char, id: int) | MulticharSymbol(text: string, id: int)
  {
    function GetId(): int
    {
      id
    }

    predicate IsEpsilon()
    {
      CharSymbol? && symbol == EPSILON_CHAR
    }

    /** asString: the char or the string itself, epsilon included. */
    function AsString(): string
    {
      if CharSymbol? then [symbol] else text
    }

    /** toString: like asString, but the epsilon char prints as the empty string. */
    function ToString(): (r: string)
      ensures r == [] <==> IsEpsilon() || (MulticharSymbol? && text == [])
      ensures !IsEpsilon() ==> r == AsString()
    {
      if IsEpsilon() then [] else AsString()
    }

    /** length: the number of chars the symbol stands for, 0 for epsilon. */
    function Length(): (r: int)
      ensures r == |ToString()|
      ensures r == 0 <==> ToString() == []
    {
      if CharSymbol? then (if IsEpsilon() then 0 else 1) else |text|
    }

    /** appendTo on the contents of a StringBuilder. */
    function AppendTo(b: string): (r: string)
      ensures r == b + ToString()
      ensures |r| == |b| + Length()
    {
      if CharSymbol? then (if IsEpsilon() then b else b + [symbol]) else b + text
    }

    /** prependTo on the contents of a StringBuilder. */
    function PrependTo(b: string): (r: string)
      ensures r == ToString() + b
      ensures |r| == |b| + Length()
    {
      if CharSymbol? then (if IsEpsilon() then b else [symbol] + b) else text + b
    }

    predicate EquivalentToChar(c: char)
    {
      if CharSymbol? then symbol == c else |text| == 1 && text[0] == c
    }

    predicate EquivalentTo(s: string)
    {
      if CharSymbol? then (IsEpsilon() && |s| == 0) || (|s| == 1 && s[0] == symbol)
      else text == s
    }

    /**
     * prefixOf(s, start).  For a char symbol a negative start reaches
     * charAt and throws; String.startsWith answers false for it.
     */
    predicate PrefixOf(s: string, start: int)
      requires CharSymbol? ==> 0 <= start
    {
      if CharSymbol? then |s| > start && s[start] == symbol
      else StartsWithAt(s, text, start)
    }

    predicate PrefixOfString(s: string)
    {
      PrefixOf(s, 0)
    }

    predicate StartsWith(c: char)
    {
      if CharSymbol? then symbol == c else |text| > 0 && text[0] == c
    }

    /** equals: same kind and same char or string; the id is ignored. */
    predicate Equals(other: Operand)
    {
      other.ASymbol? &&
      (if CharSymbol? then other.sym.CharSymbol? && other.sym.symbol == symbol
       else other.sym.MulticharSymbol? && other.sym.text == text)
    }

    /**
     * compareTo(Object).  A multichar symbol compared with a char reads its
     * own first char, which throws for the empty string.
     */
    function CompareTo(other: Operand): int
      requires MulticharSymbol? && CharLike(other) ==> |text| > 0
    {
      if CharSymbol? then
        if CharLike(other) then symbol as int - KeyString(other)[0] as int
        else if StringLike(other) && |KeyString(other)| > 0 then
          var o := KeyString(other);
          var d := symbol as int - o[0] as int;
          if d == 0 && |o| > 1 then d - 1 else d
        else -1
      else
        if StringLike(other) then JStrings.CompareTo(text, KeyString(other))
        else if CharLike(other) then
          var d := text[0] as int - KeyString(other)[0] as int;
          if |text| == 1 || d > 0 then d else -1
        else -1
    }

    /**
     * compareTo as it is evidently meant: a longer string that begins with
     * the char comes after it.
     */
    function CompareToCorrected(other: Operand): int
      requires MulticharSymbol? && CharLike(other) ==> |text| > 0
    {
      if MulticharSymbol? && CharLike(other) then
        var d := text[0] as int - KeyString(other)[0] as int;
        if |text| == 1 || d != 0 then d else 1
      else CompareTo(other)
    }
  }

  /** alphabet.createSymbol: a one-char string becomes a char symbol, anything else a multichar symbol. */
  function CreateSymbol(s: string, id: int): (r: Symbol)
    ensures r.AsString() == s && r.GetId() == id
    ensures r.CharSymbol? <==> |s| == 1
  {
    if |s| == 1 then CharSymbol(s[0], id) else MulticharSymbol(s, id)
  }

  /** A symbol as createSymbol builds it: multichar symbols never hold exactly one char. */
  predicate Created(x: Symbol)
  {
    x.MulticharSymbol? ==> |x.text| != 1
  }

  // ---------------------------------------------------------------------
  // The string view of each operation

  lemma EquivalentToCharSpec(x: Symbol, c: char)
    ensures x.EquivalentToChar(c) <==> x.AsString() == [c]
  {
  }

  /** equivalentTo(String) holds for the symbol's toString and for its asString, and for nothing else. */
  lemma EquivalentToSpec(x: Symbol, s: string)
    ensures x.EquivalentTo(s) <==> s == x.ToString() || s == x.AsString()
  {
    if x.CharSymbol? && |s| == 1 && s[0] == x.symbol {
      assert s == [x.symbol];
    }
  }

  /** prefixOf(s, start) matches the symbol's string at start. */
  lemma PrefixOfSpec(x: Symbol, s: string, start: int)
    requires x.CharSymbol? ==> 0 <= start
    ensures x.PrefixOf(s, start) <==> StartsWithAt(s, x.AsString(), start)
  {
    if x.CharSymbol? && start < |s| {
      assert s[start..start + 1] == [s[start]];
    }
  }

  lemma PrefixOfStringSpec(x: Symbol, s: string)
    ensures x.PrefixOfString(s) <==> IsPrefix(x.AsString(), s)
  {
    PrefixOfSpec(x, s, 0);
    if |x.AsString()| <= |s| {
      assert s[0..|x.AsString()|] == s[..|x.AsString()|];
    }
  }

  lemma StartsWithSpec(x: Symbol, c: char)
    ensures x.StartsWith(c) <==> |x.AsString()| > 0 && x.AsString()[0] == c
  {
  }

  /** equals ignores the id and compares the kind and the string. */
  lemma EqualsSpec(x: Symbol, y: Symbol)
    ensures x.Equals(ASymbol(y)) <==> x.CharSymbol? == y.CharSymbol? && x.AsString() == y.AsString()
    ensures x.Equals(ASymbol(y)) <==> y.Equals(ASymbol(x))
  {
    if x.CharSymbol? && y.CharSymbol? && x.AsString() == y.AsString() {
      assert x.AsString()[0] == y.AsString()[0];
    }
  }

  // ---------------------------------------------------------------------
  // compareTo against the string order

  /**
   * Where compareTo agrees with String.compareTo on the two strings: every
   * case except a char symbol against the empty string and a longer
   * multichar symbol against its own first char.
   */
  predicate Agrees(x: Symbol, o: Operand)
  {
    (CharLike(o) || StringLike(o)) &&
    (x.CharSymbol? && StringLike(o) ==> |KeyString(o)| > 0) &&
    (x.MulticharSymbol? && CharLike(o) ==> |x.text| > 0 && !(|x.text| > 1 && x.text[0] == KeyString(o)[0]))
  }

  lemma {:induction false} CompareToAgrees(x: Symbol, o: Operand)
    requires Agrees(x, o)
    ensures Sign(x.CompareTo(o)) == Sign(JStrings.CompareTo(x.AsString(), KeyString(o)))
  {
    var a, b := x.AsString(), KeyString(o);
    if x.CharSymbol? && CharLike(o) {
      assert |a| == 1 && |b| == 1;
      if a[0] == b[0] {
        assert JStrings.CompareTo(a, b) == JStrings.CompareTo(a[1..], b[1..]);
      }
    } else if x.CharSymbol? {
      if a[0] == b[0] {
        assert JStrings.CompareTo(a, b) == JStrings.CompareTo(a[1..], b[1..]);
        assert |a[1..]| == 0;
      }
    } else if CharLike(o) {
      assert |b| == 1;
      if a[0] == b[0] {
        assert |a| == 1;
        assert JStrings.CompareTo(a, b) == JStrings.CompareTo(a[1..], b[1..]);
      }
    }
  }

  /** A char symbol ranks before the empty string, which the string order puts first. */
  lemma CharBeforeEmpty(x: Symbol)
    requires x.CharSymbol?
    ensures x.CompareTo(AString([])) == -1
    ensures JStrings.CompareTo(x.AsString(), []) == 1
  {
  }

  /** A longer multichar symbol ranks before its own first char, where the string order puts it after. */
  lemma MulticharBeforeItsFirstChar(x: Symbol, c: char)
    requires x.MulticharSymbol? && |x.text| > 1 && x.text[0] == c
    ensures x.CompareTo(AChar(c)) == -1
    ensures JStrings.CompareTo(x.AsString(), [c]) > 0
  {
    assert JStrings.CompareTo(x.text, [c]) == JStrings.CompareTo(x.text[1..], []);
  }

  /** "ab" and 'a' each rank before the other: compareTo is not antisymmetric. */
  lemma NotAntisymmetric()
    ensures MulticharSymbol("ab", 1).CompareTo(ASymbol(CharSymbol('a', 0))) == -1
    ensures CharSymbol('a', 0).CompareTo(ASymbol(MulticharSymbol("ab", 1))) == -1
  {
  }

  /** The corrected compareTo agrees with the string order on every non-empty key. */
  lemma {:induction false} CompareToCorrectedAgrees(x: Symbol, o: Operand)
    requires CharLike(o) || (StringLike(o) && |KeyString(o)| > 0)
    requires x.MulticharSymbol? && CharLike(o) ==> |x.text| > 0
    ensures Sign(x.CompareToCorrected(o)) == Sign(JStrings.CompareTo(x.AsString(), KeyString(o)))
  {
    if x.MulticharSymbol? && CharLike(o) {
      var a, b := x.text, KeyString(o);
      if a[0] == b[0] {
        assert JStrings.CompareTo(a, b) == JStrings.CompareTo(a[1..], b[1..]);
      }
    } else {
      CompareToAgrees(x, o);
    }
  }
}
