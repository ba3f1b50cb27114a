/**
 * The toolkits an AT&T file may come from, and how each one's spelling of
 * epsilon, the unknown symbol, the unknown identity and the space is
 * translated into the strings the live symbol table reserves.
 */
module FstProducers {
  import opened SymbolTable

  datatype FstProducer = HFST_INTERNAL | HFST_ATT | SFST | JFST
  {
    function Epsilon(): string
    {
      match this
      case HFST_INTERNAL => "@_EPSILON_SYMBOL_@"
      case HFST_ATT => "@0@"
      case SFST => "<>"
      case JFST => EPSILON_STRING
    }

    function Unknown(): string
    {
      match this
      case HFST_INTERNAL => "@_UNKNOWN_SYMBOL_@"
      case HFST_ATT => "@_UNKNOWN_SYMBOL_@"
      case SFST => ""
      case JFST => UNKNOWN_STRING
    }

    function Identity(): string
    {
      match this
      case HFST_INTERNAL => "@_IDENTITY_SYMBOL_@"
      case HFST_ATT => "@_IDENTITY_SYMBOL_@"
      case SFST => ""
      case JFST => UNKNOWN_IDENTITY_STRING
    }

    function Space(): string
    {
      match this
      case HFST_INTERNAL => "@_SPACE_@"
      case HFST_ATT => "@_SPACE_@"
      case SFST => " "
      case JFST => " "
    }

    /** convert: the spellings are checked in the order epsilon, unknown, identity, space. */
    function Convert(s: string): (r: string)
      ensures r == s || r in [EPSILON_STRING, UNKNOWN_STRING, UNKNOWN_IDENTITY_STRING, " "]
    {
      if s == Epsilon() then EPSILON_STRING
      else if s == Unknown() then UNKNOWN_STRING
      else if s == Identity() then UNKNOWN_IDENTITY_STRING
      else if s == Space() then " "
      else s
    }
  }

  /** The four spellings a producer translates. */
  predicate Spelled(p: FstProducer, s: string)
  {
    s == p.Epsilon() || s == p.Unknown() || s == p.Identity() || s == p.Space()
  }

  /**
   * Each spelling goes to its internal string and every other string is
   * kept; only SFST's identity spelling is taken by the unknown test.
   */
  lemma ConvertSpec(p: FstProducer, s: string)
    ensures s == p.Epsilon() ==> p.Convert(s) == EPSILON_STRING
    ensures s == p.Unknown() ==> p.Convert(s) == UNKNOWN_STRING
    ensures s == p.Identity() && p != SFST ==> p.Convert(s) == UNKNOWN_IDENTITY_STRING
    ensures s == p.Space() ==> p.Convert(s) == " "
    ensures !Spelled(p, s) ==> p.Convert(s) == s
    ensures Spelled(p, s) ==> p.Convert(s) in [EPSILON_STRING, UNKNOWN_STRING, UNKNOWN_IDENTITY_STRING, " "]
  {
    assert EPSILON_STRING[0] == 0 as char && UNKNOWN_STRING[0] == 2 as char && UNKNOWN_IDENTITY_STRING[0] == 1 as char;
  }

  /** SFST spells both the unknown symbol and the identity as "", and the unknown test comes first. */
  lemma SfstEmptyIsUnknown()
    ensures SFST.Unknown() == SFST.Identity() == ""
    ensures SFST.Convert("") == UNKNOWN_STRING
  {
  }

  /** JFST files already use the internal strings. */
  lemma JfstConvertIsIdentity(s: string)
    ensures JFST.Convert(s) == s
  {
  }

  lemma ConvertIdempotent(p: FstProducer, s: string)
    ensures p.Convert(p.Convert(s)) == p.Convert(s)
  {
    ConvertSpec(p, s);
    ConvertSpec(p, p.Convert(s));
  }

  /** The two HFST variants differ in the epsilon spelling only. */
  lemma HfstVariants(s: string)
    ensures HFST_INTERNAL.Epsilon() != HFST_ATT.Epsilon()
    ensures HFST_INTERNAL.Unknown() == HFST_ATT.Unknown()
    ensures HFST_INTERNAL.Identity() == HFST_ATT.Identity()
    ensures HFST_INTERNAL.Space() == HFST_ATT.Space()
    ensures s != HFST_INTERNAL.Epsilon() && s != HFST_ATT.Epsilon() ==> HFST_INTERNAL.Convert(s) == HFST_ATT.Convert(s)
  {
    assert HFST_INTERNAL.Epsilon()[1] != HFST_ATT.Epsilon()[1];
  }
}

/**
 * The producers of the legacy generation: only epsilon and the space are
 * translated, into the strings of the legacy symbols.
 */
module LegacyProducers {
  import opened LegacySymbols

  datatype FSTProducer = HFST | SFST | JFST
  {
    function Epsilon(): string
    {
      match this
      case HFST => "@0@"
      case SFST => "<>"
      case JFST => EPSILON_STRING
    }

    function Identity(): string
    {
      match this
      case HFST => "@_IDENTITY_SYMBOL_@"
      case SFST => ""
      case JFST => IDENTITY_STRING
    }

    function Space(): string
    {
      match this
      case HFST => "@_SPACE_@"
      case SFST => " "
      case JFST => " "
    }

    function Convert(s: string): (r: string)
      ensures r == s || r in [EPSILON_STRING, " "]
    {
      if s == Epsilon() then EPSILON_STRING
      else if s == Space() then " "
      else s
    }
  }

  /** Epsilon and space are translated; everything else, the identity spelling included, is kept. */
  lemma LegacyConvertSpec(p: FSTProducer, s: string)
    ensures s == p.Epsilon() ==> p.Convert(s) == EPSILON_STRING
    ensures s == p.Space() ==> p.Convert(s) == " "
    ensures p.Convert(s) != s <==> (s == p.Epsilon() && p != JFST) || (s == p.Space() && s != " ")
    ensures p.Convert(p.Identity()) == p.Identity()
  {
    assert p.Identity() != p.Epsilon() by {
      if p == JFST {
        assert p.Identity()[0] != p.Epsilon()[0];
      }
    }
  }

  lemma LegacyJfstConvertIsIdentity(s: string)
    ensures JFST.Convert(s) == s
  {
  }

  lemma LegacyConvertIdempotent(p: FSTProducer, s: string)
    ensures p.Convert(p.Convert(s)) == p.Convert(s)
  {
    LegacyConvertSpec(p, s);
    LegacyConvertSpec(p, p.Convert(s));
    assert EPSILON_STRING[0] == 0 as char;
  }
}
