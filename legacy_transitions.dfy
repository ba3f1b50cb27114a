/**
 * The two transition objects of the legacy generation (fst.CompactTransition
 * and fst.Transition).  They repeat the packing layout of the live word, so
 * both are written over the one definition in Packing; neither has invert,
 * getSymPair or an epsilon test.
 */
module LegacyTransitions {
  import opened JavaWords
  import opened Packing

  /** What the legacy compareTo(Object) / equals(Object) may be handed. */
  datatype Operand = ACompactTransition(c: CompactTransition) | ABoxedLong(v: Long) | ATransition(t: Transition) | AnotherObject

  class CompactTransition {
    var transition: Long

    constructor (inSym: Int, outSym: Int, toId: Int)
      ensures transition == MakeTransition(inSym, outSym, toId)
      ensures -MAX_IN_ID - 1 <= inSym <= MAX_IN_ID && 0 <= outSym < TWO16 && 0 <= toId ==>
                GetInSym() == inSym && GetOutSym() == outSym && GetToState() == toId
    {
      transition := MakeTransition(inSym, outSym, toId);
      if 0 <= inSym <= MAX_IN_ID && 0 <= outSym < TWO16 && 0 <= toId {
        UnpackMake(inSym, outSym, toId);
      } else if -MAX_IN_ID - 1 <= inSym < 0 && 0 <= outSym < TWO16 && 0 <= toId {
        UnpackMakeNegative(inSym, outSym, toId);
      }
    }

    function GetInSym(): Int
      reads this
    {
      InId(transition)
    }

    function GetOutSym(): Int
      reads this
    {
      OutId(transition)
    }

    function GetToState(): Int
      reads this
    {
      ToId(transition)
    }

    predicate Identity(idIdx: int)
      reads this
    {
      IsIdentityTransition(transition, idIdx)
    }

    method SetInSym(inSym: Int)
      modifies this
      ensures transition == WithInSym(old(transition), inSym)
      ensures 0 <= inSym <= MAX_IN_ID ==> GetInSym() == inSym
      ensures 0 <= inSym < TWO16 ==> GetOutSym() == old(GetOutSym()) && GetToState() == old(GetToState())
    {
      transition := WithInSym(transition, inSym);
      if 0 <= inSym < TWO16 {
        SetInSymFrame(old(transition), inSym);
      }
    }

    method SetOutSym(outSym: Int)
      modifies this
      ensures transition == WithOutSym(old(transition), outSym)
      ensures 0 <= outSym < TWO16 ==> GetOutSym() == outSym
      ensures 0 <= outSym < TWO16 ==> GetInSym() == old(GetInSym()) && GetToState() == old(GetToState())
    {
      transition := WithOutSym(transition, outSym);
      if 0 <= outSym < TWO16 {
        SetOutSymFrame(old(transition), outSym);
      }
    }

    method SetToState(toState: Int)
      modifies this
      ensures transition == WithToState(old(transition), toState)
      ensures 0 <= toState ==> GetToState() == toState
      ensures 0 <= toState ==> GetInSym() == old(GetInSym()) && GetOutSym() == old(GetOutSym())
    {
      transition := WithToState(transition, toState);
      if 0 <= toState {
        SetToStateFrame(old(transition), toState);
      }
    }

    /** Long.compare against another CompactTransition or a boxed Long; -1 for anything else, a Transition included. */
    function CompareTo(other: Operand): (r: int)
      reads this, if other.ACompactTransition? then {other.c} else {}
      ensures other.ACompactTransition? ==> (r < 0 <==> transition < other.c.transition) && (r == 0 <==> transition == other.c.transition)
      ensures other.ABoxedLong? ==> (r < 0 <==> transition < other.v) && (r == 0 <==> transition == other.v)
      ensures other.ATransition? || other.AnotherObject? ==> r == -1
    {
      match other
      case ACompactTransition(c) => LongCompare(transition, c.transition)
      case ABoxedLong(v) => LongCompare(transition, v)
      case _ => -1
    }

    predicate Equals(other: Operand)
      reads this, if other.ACompactTransition? then {other.c} else {}
      ensures Equals(other) ==> other.ACompactTransition?
      ensures other.ACompactTransition? ==> (Equals(other) <==> other.c.transition == transition)
    {
      other.ACompactTransition? && transition == other.c.transition
    }
  }

  class Transition {
    var transition: Long

    constructor (inSym: Int, outSym: Int, toId: Int)
      ensures transition == MakeTransition(inSym, outSym, toId)
      ensures -MAX_IN_ID - 1 <= inSym <= MAX_IN_ID && 0 <= outSym < TWO16 && 0 <= toId ==>
                GetInSym() == inSym && GetOutSym() == outSym && GetToState() == toId
    {
      transition := MakeTransition(inSym, outSym, toId);
      if 0 <= inSym <= MAX_IN_ID && 0 <= outSym < TWO16 && 0 <= toId {
        UnpackMake(inSym, outSym, toId);
      } else if -MAX_IN_ID - 1 <= inSym < 0 && 0 <= outSym < TWO16 && 0 <= toId {
        UnpackMakeNegative(inSym, outSym, toId);
      }
    }

    function GetInSym(): Int
      reads this
    {
      InId(transition)
    }

    function GetOutSym(): Int
      reads this
    {
      OutId(transition)
    }

    function GetToState(): Int
      reads this
    {
      ToId(transition)
    }

    predicate Identity(idIdx: int)
      reads this
    {
      IsIdentityTransition(transition, idIdx)
    }

    method SetInSym(inSym: Int)
      modifies this
      ensures transition == WithInSym(old(transition), inSym)
      ensures 0 <= inSym <= MAX_IN_ID ==> GetInSym() == inSym
      ensures 0 <= inSym < TWO16 ==> GetOutSym() == old(GetOutSym()) && GetToState() == old(GetToState())
    {
      transition := WithInSym(transition, inSym);
      if 0 <= inSym < TWO16 {
        SetInSymFrame(old(transition), inSym);
      }
    }

    method SetOutSym(outSym: Int)
      modifies this
      ensures transition == WithOutSym(old(transition), outSym)
      ensures 0 <= outSym < TWO16 ==> GetOutSym() == outSym
      ensures 0 <= outSym < TWO16 ==> GetInSym() == old(GetInSym()) && GetToState() == old(GetToState())
    {
      transition := WithOutSym(transition, outSym);
      if 0 <= outSym < TWO16 {
        SetOutSymFrame(old(transition), outSym);
      }
    }

    method SetToState(toState: Int)
      modifies this
      ensures transition == WithToState(old(transition), toState)
      ensures 0 <= toState ==> GetToState() == toState
      ensures 0 <= toState ==> GetInSym() == old(GetInSym()) && GetOutSym() == old(GetOutSym())
    {
      transition := WithToState(transition, toState);
      if 0 <= toState {
        SetToStateFrame(old(transition), toState);
      }
    }

    /** compareTo(Transition) is Long.compare of the two words. */
    function CompareTo(other: Transition): (r: int)
      reads this, other
      ensures r < 0 <==> transition < other.transition
      ensures r == 0 <==> transition == other.transition
    {
      LongCompare(transition, other.transition)
    }

    predicate Equals(other: Operand)
      reads this, if other.ATransition? then {other.t} else {}
      ensures Equals(other) ==> other.ATransition?
      ensures other.ATransition? ==> (Equals(other) <==> other.t.transition == transition)
    {
      other.ATransition? && transition == other.t.transition
    }
  }
}
