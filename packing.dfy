/**
 * The packed transition word shared by both generations of transducers:
 * one Java long holding the input symbol id in bits 48..63, the output
 * symbol id in bits 32..47 and the to-state in bits 0..31.
 *
 * The operations are written as the Java expressions they model, over the
 * operators of JavaWords; the lemmas read them back through the three raw
 * fields of the 64-bit pattern (InField, OutField, ToField).
 */
module Packing {
  import opened JavaWords

  const GET_IN_SYM: Long := -TWO48          // 0xffff000000000000L
  const GET_OUT_SYM: Long := 0xffff_0000_0000
  const GET_TO_STATE: Long := 0xffff_ffff

  /** The largest input id that survives packing: decoding shifts arithmetically. */
  const MAX_IN_ID: int := 0x7fff

  // ---------------------------------------------------------------------
  // The Java expressions

  /** makeTransition: (((in << 16) | out) << 32) | to, the int arguments widened to long. */
  function MakeTransition(inSym: Int, outSym: Int, toId: Int): Long
  {
    Or(Shl(Or(Shl(inSym, 16), outSym), 32), toId)
  }

  /** inIdFromTransition: (int) ((t & GET_IN_SYM) >> 48) */
  function InId(t: Long): Int
  {
    IntCast(Sar(And(t, GET_IN_SYM), 48))
  }

  /** outIdFromTransition: (int) ((t & GET_OUT_SYM) >> 32) */
  function OutId(t: Long): Int
  {
    IntCast(Sar(And(t, GET_OUT_SYM), 32))
  }

  /** toIdFromTransition: (int) (t & GET_TO_STATE) */
  function ToId(t: Long): Int
  {
    IntCast(And(t, GET_TO_STATE))
  }

  /** setInSym: (t & ~GET_IN_SYM) | ((long) inSym << 48) */
  function WithInSym(t: Long, inSym: Int): Long
  {
    Or(And(t, Not(GET_IN_SYM)), Shl(inSym, 48))
  }

  /** setOutSym: (t & ~GET_OUT_SYM) | ((long) outSym << 32) */
  function WithOutSym(t: Long, outSym: Int): Long
  {
    Or(And(t, Not(GET_OUT_SYM)), Shl(outSym, 32))
  }

  /** setToState: (t & ~GET_TO_STATE) | (long) toState */
  function WithToState(t: Long, toState: Int): Long
  {
    Or(And(t, Not(GET_TO_STATE)), toState)
  }

  /** invert: remember the input id, set the input to the output, then the output to the old input. */
  function Inverted(t: Long): Long
  {
    WithOutSym(WithInSym(t, OutId(t)), InId(t))
  }

  /** getSymPair: (int) ((t >> 32) & GET_TO_STATE) */
  function SymPair(t: Long): Int
  {
    IntCast(And(Sar(t, 32), GET_TO_STATE))
  }

  predicate IsIdentityTransition(t: Long, idIdx: int)
  {
    InId(t) == idIdx
  }

  predicate IsEpsilonTransition(t: Long, epsIdx: int)
  {
    InId(t) == epsIdx && OutId(t) == epsIdx
  }

  // ---------------------------------------------------------------------
  // The field view

  function InField(t: Long): nat
  {
    Bits(t) / TWO48
  }

  function OutField(t: Long): nat
  {
    (Bits(t) / TWO32) % TWO16
  }

  function ToField(t: Long): nat
  {
    Bits(t) % TWO32
  }

  /** A 64-bit pattern assembled from its three fields. */
  function Pat(i: nat, o: nat, to: nat): nat
  {
    i * 0x1_0000_0000_0000 + o * 0x1_0000_0000 + to
  }

  /** The word with the given fields. */
  function Word(i: nat, o: nat, to: nat): Long
    requires i < TWO16 && o < TWO16 && to < TWO32
  {
    FromBits(Pat(i, o, to))
  }

  /** How the 16-bit input field reads once shifted arithmetically. */
  function SignedIn(i: nat): int
  {
    if i <= MAX_IN_ID then i else i - TWO16
  }

  /** How the 32-bit to-state field reads once narrowed to int. */
  function SignedTo(to: nat): int
  {
    if to < TWO31 then to else to - TWO32
  }

  lemma Decompose(u: nat)
    requires u < TWO64
    ensures u / TWO48 < TWO16
    ensures u == Pat(u / TWO48, (u / TWO32) % TWO16, u % TWO32)
  {
    var i, r := u / TWO48, u % TWO48;
    var o, to := r / TWO32, r % TWO32;
    assert u == (i * TWO16 + o) * TWO32 + to;
    ModUnique(u, TWO32, i * TWO16 + o, to);
    ModUnique(i * TWO16 + o, TWO16, i, o);
  }

  lemma PatBits(t: Long)
    ensures InField(t) < TWO16 && OutField(t) < TWO16 && ToField(t) < TWO32
    ensures Bits(t) == Pat(InField(t), OutField(t), ToField(t))
  {
    Decompose(Bits(t));
  }

  lemma WordFields(i: nat, o: nat, to: nat)
    requires i < TWO16 && o < TWO16 && to < TWO32
    ensures InField(Word(i, o, to)) == i && OutField(Word(i, o, to)) == o && ToField(Word(i, o, to)) == to
  {
    var u := Pat(i, o, to);
    assert Bits(Word(i, o, to)) == u;
    ModUnique(u, TWO32, i * TWO16 + o, to);
    ModUnique(i * TWO16 + o, TWO16, i, o);
    ModUnique(u, TWO48, i, o * TWO32 + to);
  }

  /** A word is determined by its fields. */
  lemma FieldsDetermine(s: Long, t: Long)
    requires InField(s) == InField(t) && OutField(s) == OutField(t) && ToField(s) == ToField(t)
    ensures s == t
  {
    PatBits(s);
    PatBits(t);
    assert FromBits(Bits(s)) == s;
  }

  // ---------------------------------------------------------------------
  // Bitwise and / or act field by field on assembled patterns

  lemma PatSplit(i: nat, o: nat, to: nat)
    ensures Pat(i, o, to) == (i * TWO16 + o) * TWO32 + to
  {
  }

  lemma AndFields(i1: nat, o1: nat, t1: nat, i2: nat, o2: nat, t2: nat)
    requires i1 < TWO16 && o1 < TWO16 && t1 < TWO32 && i2 < TWO16 && o2 < TWO16 && t2 < TWO32
    ensures AndBits(Pat(i1, o1, t1), Pat(i2, o2, t2), 64)
         == Pat(AndBits(i1, i2, 16), AndBits(o1, o2, 16), AndBits(t1, t2, 32))
  {
    Pow2Values();
    var x1, x2 := i1 * TWO16 + o1, i2 * TWO16 + o2;
    PatSplit(i1, o1, t1);
    PatSplit(i2, o2, t2);
    AndSplit(Pat(i1, o1, t1), Pat(i2, o2, t2), x1, t1, x2, t2, 32, 64, TWO32);
    AndSplit(x1, x2, i1, o1, i2, o2, 16, 32, TWO16);
    PatSplit(AndBits(i1, i2, 16), AndBits(o1, o2, 16), AndBits(t1, t2, 32));
  }

  lemma OrFields(i1: nat, o1: nat, t1: nat, i2: nat, o2: nat, t2: nat)
    requires i1 < TWO16 && o1 < TWO16 && t1 < TWO32 && i2 < TWO16 && o2 < TWO16 && t2 < TWO32
    ensures OrBits(Pat(i1, o1, t1), Pat(i2, o2, t2), 64)
         == Pat(OrBits(i1, i2, 16), OrBits(o1, o2, 16), OrBits(t1, t2, 32))
  {
    Pow2Values();
    var x1, x2 := i1 * TWO16 + o1, i2 * TWO16 + o2;
    PatSplit(i1, o1, t1);
    PatSplit(i2, o2, t2);
    OrSplit(Pat(i1, o1, t1), Pat(i2, o2, t2), x1, t1, x2, t2, 32, 64, TWO32);
    OrSplit(x1, x2, i1, o1, i2, o2, 16, 32, TWO16);
    PatSplit(OrBits(i1, i2, 16), OrBits(o1, o2, 16), OrBits(t1, t2, 32));
  }

  /** Within one field: and with all ones or with zero, or with zero. */
  lemma FieldOps(x: nat, n: nat, P: nat)
    requires P == Pow2(n) && x < P
    ensures AndBits(x, P - 1, n) == x && AndBits(x, 0, n) == 0 && AndBits(0, x, n) == 0
    ensures OrBits(x, 0, n) == x && OrBits(0, x, n) == x
  {
    AndLowMask(x, n, n);
    AndZero(x, n);
    AndZeroLeft(x, n);
    OrZero(x, n);
    OrComm(x, 0, n);
    ModSmall(x, P);
  }

  lemma {:induction false} AndZeroLeft(a: nat, n: nat)
    ensures AndBits(0, a, n) == 0
  {
    if n > 0 {
      AndZeroLeft(a / 2, n - 1);
    }
  }

  lemma Sixteen(x: nat)
    requires x < TWO16
    ensures AndBits(x, TWO16 - 1, 16) == x && AndBits(x, 0, 16) == 0 && AndBits(0, x, 16) == 0
    ensures OrBits(x, 0, 16) == x && OrBits(0, x, 16) == x
  {
    Pow2Values();
    FieldOps(x, 16, TWO16);
  }

  lemma ThirtyTwo(x: nat)
    requires x < TWO32
    ensures AndBits(x, TWO32 - 1, 32) == x && AndBits(x, 0, 32) == 0 && AndBits(0, x, 32) == 0
    ensures OrBits(x, 0, 32) == x && OrBits(0, x, 32) == x
  {
    Pow2Values();
    FieldOps(x, 32, TWO32);
  }

  // ---------------------------------------------------------------------
  // The masks

  lemma MaskIn(t: Long)
    ensures Bits(And(t, GET_IN_SYM)) == Pat(InField(t), 0, 0)
  {
    PatBits(t);
    var i, o, to := InField(t), OutField(t), ToField(t);
    assert Bits(GET_IN_SYM) == Pat(TWO16 - 1, 0, 0);
    AndFields(i, o, to, TWO16 - 1, 0, 0);
    Sixteen(i);
    Sixteen(o);
    ThirtyTwo(to);
  }

  lemma MaskOut(t: Long)
    ensures Bits(And(t, GET_OUT_SYM)) == Pat(0, OutField(t), 0)
  {
    PatBits(t);
    var i, o, to := InField(t), OutField(t), ToField(t);
    assert Bits(GET_OUT_SYM) == Pat(0, TWO16 - 1, 0);
    AndFields(i, o, to, 0, TWO16 - 1, 0);
    Sixteen(i);
    Sixteen(o);
    ThirtyTwo(to);
  }

  lemma MaskTo(t: Long)
    ensures Bits(And(t, GET_TO_STATE)) == Pat(0, 0, ToField(t))
  {
    PatBits(t);
    var i, o, to := InField(t), OutField(t), ToField(t);
    assert Bits(GET_TO_STATE) == Pat(0, 0, TWO32 - 1);
    AndFields(i, o, to, 0, 0, TWO32 - 1);
    Sixteen(i);
    Sixteen(o);
    ThirtyTwo(to);
  }

  lemma ClearIn(t: Long)
    ensures Bits(And(t, Not(GET_IN_SYM))) == Pat(0, OutField(t), ToField(t))
  {
    PatBits(t);
    var i, o, to := InField(t), OutField(t), ToField(t);
    assert Bits(Not(GET_IN_SYM)) == Pat(0, TWO16 - 1, TWO32 - 1);
    AndFields(i, o, to, 0, TWO16 - 1, TWO32 - 1);
    Sixteen(i);
    Sixteen(o);
    ThirtyTwo(to);
  }

  lemma ClearOut(t: Long)
    ensures Bits(And(t, Not(GET_OUT_SYM))) == Pat(InField(t), 0, ToField(t))
  {
    PatBits(t);
    var i, o, to := InField(t), OutField(t), ToField(t);
    assert Bits(Not(GET_OUT_SYM)) == Pat(TWO16 - 1, 0, TWO32 - 1);
    AndFields(i, o, to, TWO16 - 1, 0, TWO32 - 1);
    Sixteen(i);
    Sixteen(o);
    ThirtyTwo(to);
  }

  lemma ClearTo(t: Long)
    ensures Bits(And(t, Not(GET_TO_STATE))) == Pat(InField(t), OutField(t), 0)
  {
    PatBits(t);
    var i, o, to := InField(t), OutField(t), ToField(t);
    assert Bits(Not(GET_TO_STATE)) == Pat(TWO16 - 1, TWO16 - 1, 0);
    AndFields(i, o, to, TWO16 - 1, TWO16 - 1, 0);
    Sixteen(i);
    Sixteen(o);
    ThirtyTwo(to);
  }

  // ---------------------------------------------------------------------
  // Decoding

  /** The getters read the fields; the input id is sign-extended by the arithmetic shift. */
  lemma Decode(t: Long)
    ensures InId(t) == SignedIn(InField(t))
    ensures OutId(t) == OutField(t)
    ensures ToId(t) == SignedTo(ToField(t))
  {
    DecodeIn(t);
    DecodeOut(t);
    DecodeTo(t);
  }

  lemma DecodeIn(t: Long)
    ensures InId(t) == SignedIn(InField(t))
  {
    Pow2Values();
    MaskIn(t);
    PatBits(t);
    var i := InField(t);
    var m := And(t, GET_IN_SYM);
    var q := SignedIn(i);
    assert m == q * TWO48;
    SarExact(m, 48, TWO48, q);
    IntCastSmall(q);
  }

  lemma DecodeOut(t: Long)
    ensures OutId(t) == OutField(t)
  {
    Pow2Values();
    MaskOut(t);
    PatBits(t);
    var m := And(t, GET_OUT_SYM);
    assert m == OutField(t) * TWO32;
    SarExact(m, 32, TWO32, OutField(t));
    IntCastSmall(OutField(t));
  }

  /** Shifting a multiple of 2^k right by k divides exactly. */
  lemma SarExact(m: Long, k: nat, P: nat, q: int)
    requires k < 64 && P == Pow2(k) && m == q * P
    ensures Sar(m, k) == q
  {
    ModUnique(m, P, q, 0);
  }

  lemma DecodeTo(t: Long)
    ensures ToId(t) == SignedTo(ToField(t))
  {
    var to := ToField(t);
    MaskTo(t);
    assert to < TWO32 by { PatBits(t); }
    assert Pat(0, 0, to) == to;
    var m := And(t, GET_TO_STATE);
    assert m == to;
    ModSmall(m, TWO32);
  }

  /** The input id is the signed value of the word shifted right by 48. */
  lemma InIdIsHighPart(t: Long)
    ensures InId(t) == t / TWO48
  {
    DecodeIn(t);
    PatBits(t);
    var u := Bits(t);
    if t >= 0 {
      assert u == t;
    } else {
      assert u == t + TWO64;
      assert u / TWO48 == t / TWO48 + TWO16;
    }
  }

  // ---------------------------------------------------------------------
  // Encoding

  /** (in << 16) | out places the two symbol ids side by side. */
  lemma SymbolHalf(inSym: Int, outSym: Int)
    requires 0 <= inSym < TWO16 && 0 <= outSym < TWO16
    ensures Or(Shl(inSym, 16), outSym) == inSym * TWO16 + outSym
  {
    Pow2Values();
    ShlSmall(inSym, 16, TWO16);
    var hi := Shl(inSym, 16);
    assert Bits(hi) == inSym * TWO16 + 0;
    assert Bits(outSym) == 0 * TWO16 + outSym;
    OrSplit(inSym * TWO16, outSym, inSym, 0, 0, outSym, 16, 64, TWO16);
    OrZero(inSym, 48);
    ModUnique(inSym, Pow2(48), 0, inSym);
    Sixteen(outSym);
  }

  lemma MakeWord(inSym: Int, outSym: Int, toId: Int)
    requires 0 <= inSym < TWO16 && 0 <= outSym < TWO16 && 0 <= toId
    ensures MakeTransition(inSym, outSym, toId) == Word(inSym, outSym, toId)
  {
    Pow2Values();
    SymbolHalf(inSym, outSym);
    var mid := Or(Shl(inSym, 16), outSym);
    ShlSmall(mid, 32, TWO32);
    assert Bits(Shl(mid, 32)) == Pat(inSym, outSym, 0);
    JoinTo(Shl(mid, 32), inSym, outSym, toId);
  }

  /** Or-ing a non-negative to-state id into a word whose low 32 bits are clear fills the to-state field. */
  lemma JoinTo(hi: Long, i: nat, o: nat, toId: Int)
    requires i < TWO16 && o < TWO16 && 0 <= toId && Bits(hi) == Pat(i, o, 0)
    ensures Or(hi, toId) == Word(i, o, toId)
  {
    Pow2Values();
    assert Bits(toId) == Pat(0, 0, toId);
    OrFields(i, o, 0, 0, 0, toId);
    Sixteen(i);
    Sixteen(o);
    ThirtyTwo(toId);
  }

  /**
   * A negative input id, widened to long, fills the input field with its
   * two's complement: (in << 16) sheds the sign bits above bit 63, leaving
   * in + 2^16 in the top sixteen bits.
   */
  lemma MakeWordNegative(inSym: Int, outSym: Int, toId: Int)
    requires -MAX_IN_ID - 1 <= inSym < 0 && 0 <= outSym < TWO16 && 0 <= toId
    ensures MakeTransition(inSym, outSym, toId) == Word(inSym + TWO16, outSym, toId)
  {
    Pow2Values();
    NegativeSymbolShift(inSym, outSym);
    JoinTo(Shl(Or(Shl(inSym, 16), outSym), 32), inSym + TWO16, outSym, toId);
  }

  /** Shifting that symbol half into bits 32..63 leaves the input field holding in + 2^16. */
  lemma NegativeSymbolShift(inSym: Int, outSym: Int)
    requires -MAX_IN_ID - 1 <= inSym < 0 && 0 <= outSym < TWO16
    ensures Bits(Shl(Or(Shl(inSym, 16), outSym), 32)) == Pat(inSym + TWO16, outSym, 0)
  {
    Pow2Values();
    var m := (TWO48 + inSym) * TWO16 + outSym;
    NegativeSymbolHalf(inSym, outSym);
    assert m * TWO32 == (TWO32 - 1) * TWO64 + Pat(inSym + TWO16, outSym, 0);
    ModUnique(m * TWO32, TWO64, TWO32 - 1, Pat(inSym + TWO16, outSym, 0));
  }

  /** The symbol half (in << 16) | out of a negative input id: the sign bits above bit 63 shed, in + 2^48 above out. */
  lemma NegativeSymbolHalf(inSym: Int, outSym: Int)
    requires -MAX_IN_ID - 1 <= inSym < 0 && 0 <= outSym < TWO16
    ensures Bits(Or(Shl(inSym, 16), outSym)) == (TWO48 + inSym) * TWO16 + outSym
  {
    Pow2Values();
    var h := TWO48 + inSym;
    assert Bits(inSym) == inSym + TWO64;
    assert Bits(inSym) * TWO16 == (TWO16 - 1) * TWO64 + h * TWO16;
    ModUnique(Bits(inSym) * TWO16, TWO64, TWO16 - 1, h * TWO16);
    assert Bits(Shl(inSym, 16)) == h * TWO16;
    OrSplit(h * TWO16, outSym, h, 0, 0, outSym, 16, 64, TWO16);
    OrZero(h, 48);
    ModSmall(h, TWO48);
    Sixteen(outSym);
  }

  /** Unpacking a word made from a negative input id gives back all three arguments. */
  lemma UnpackMakeNegative(inSym: Int, outSym: Int, toId: Int)
    requires -MAX_IN_ID - 1 <= inSym < 0 && 0 <= outSym < TWO16 && 0 <= toId
    ensures InId(MakeTransition(inSym, outSym, toId)) == inSym
    ensures OutId(MakeTransition(inSym, outSym, toId)) == outSym
    ensures ToId(MakeTransition(inSym, outSym, toId)) == toId
  {
    MakeWordNegative(inSym, outSym, toId);
    WordFields(inSym + TWO16, outSym, toId);
    Decode(MakeTransition(inSym, outSym, toId));
  }

  /**
   * Unpacking gives back the arguments of makeTransition when the input id
   * is below 2^15, the output id below 2^16 and the to-state non-negative.
   */
  lemma UnpackMake(inSym: Int, outSym: Int, toId: Int)
    requires 0 <= inSym <= MAX_IN_ID && 0 <= outSym < TWO16 && 0 <= toId
    ensures InId(MakeTransition(inSym, outSym, toId)) == inSym
    ensures OutId(MakeTransition(inSym, outSym, toId)) == outSym
    ensures ToId(MakeTransition(inSym, outSym, toId)) == toId
    ensures MakeTransition(inSym, outSym, toId) == Pat(inSym, outSym, toId)
  {
    MakeWord(inSym, outSym, toId);
    WordFields(inSym, outSym, toId);
    Decode(MakeTransition(inSym, outSym, toId));
  }

  /** An input id from 2^15 up comes back negative: the shift by 48 propagates the top bit. */
  lemma UnpackMakeHighIn(inSym: Int, outSym: Int, toId: Int)
    requires MAX_IN_ID < inSym < TWO16 && 0 <= outSym < TWO16 && 0 <= toId
    ensures InId(MakeTransition(inSym, outSym, toId)) == inSym - TWO16 < 0
    ensures OutId(MakeTransition(inSym, outSym, toId)) == outSym
    ensures ToId(MakeTransition(inSym, outSym, toId)) == toId
  {
    MakeWord(inSym, outSym, toId);
    WordFields(inSym, outSym, toId);
    Decode(MakeTransition(inSym, outSym, toId));
  }

  // ---------------------------------------------------------------------
  // Setters

  lemma SetInWord(t: Long, x: Int)
    requires 0 <= x < TWO16
    ensures WithInSym(t, x) == Word(x, OutField(t), ToField(t))
  {
    Pow2Values();
    PatBits(t);
    var o, to := OutField(t), ToField(t);
    ClearIn(t);
    ShlSmall(x, 48, TWO48);
    assert Bits(Shl(x, 48)) == Pat(x, 0, 0);
    OrFields(0, o, to, x, 0, 0);
    Sixteen(x);
    Sixteen(o);
    ThirtyTwo(to);
  }

  lemma SetOutWord(t: Long, x: Int)
    requires 0 <= x < TWO16
    ensures WithOutSym(t, x) == Word(InField(t), x, ToField(t))
  {
    Pow2Values();
    PatBits(t);
    var i, to := InField(t), ToField(t);
    ClearOut(t);
    ShlSmall(x, 32, TWO32);
    assert Bits(Shl(x, 32)) == Pat(0, x, 0);
    OrFields(i, 0, to, 0, x, 0);
    Sixteen(x);
    Sixteen(i);
    ThirtyTwo(to);
  }

  lemma SetToWord(t: Long, x: Int)
    requires 0 <= x
    ensures WithToState(t, x) == Word(InField(t), OutField(t), x)
  {
    PatBits(t);
    var i, o := InField(t), OutField(t);
    ClearTo(t);
    assert Bits(x) == Pat(0, 0, x);
    OrFields(i, o, 0, 0, 0, x);
    Sixteen(i);
    Sixteen(o);
    ThirtyTwo(x);
  }

  /** setInSym changes the input field only. */
  lemma SetInSymFrame(t: Long, x: Int)
    requires 0 <= x < TWO16
    ensures InId(WithInSym(t, x)) == SignedIn(x)
    ensures OutId(WithInSym(t, x)) == OutId(t) && ToId(WithInSym(t, x)) == ToId(t)
  {
    SetInWord(t, x);
    PatBits(t);
    WordFields(x, OutField(t), ToField(t));
    Decode(t);
    Decode(WithInSym(t, x));
  }

  /** setOutSym changes the output field only. */
  lemma SetOutSymFrame(t: Long, x: Int)
    requires 0 <= x < TWO16
    ensures OutId(WithOutSym(t, x)) == x
    ensures InId(WithOutSym(t, x)) == InId(t) && ToId(WithOutSym(t, x)) == ToId(t)
  {
    SetOutWord(t, x);
    PatBits(t);
    WordFields(InField(t), x, ToField(t));
    Decode(t);
    Decode(WithOutSym(t, x));
  }

  /** setToState changes the to-state field only. */
  lemma SetToStateFrame(t: Long, x: Int)
    requires 0 <= x
    ensures ToId(WithToState(t, x)) == x
    ensures InId(WithToState(t, x)) == InId(t) && OutId(WithToState(t, x)) == OutId(t)
  {
    SetToWord(t, x);
    PatBits(t);
    WordFields(InField(t), OutField(t), x);
    Decode(t);
    Decode(WithToState(t, x));
  }

  // ---------------------------------------------------------------------
  // invert, getSymPair, ordering, tests

  /** For a word whose input id is non-negative, invert swaps the two symbol fields. */
  lemma InvertedWord(t: Long)
    requires InField(t) <= MAX_IN_ID
    ensures Inverted(t) == Word(OutField(t), InField(t), ToField(t))
  {
    PatBits(t);
    Decode(t);
    var i, o, to := InField(t), OutField(t), ToField(t);
    SetInWord(t, o);
    var t1 := WithInSym(t, o);
    WordFields(o, o, to);
    SetOutWord(t1, i);
    WordFields(o, i, to);
  }

  /**
   * invert swaps the input and output ids and keeps the to-state; for ids
   * below 2^15 inverting twice restores the word.
   */
  lemma InvertSwaps(t: Long)
    requires InField(t) <= MAX_IN_ID && OutField(t) <= MAX_IN_ID
    ensures InId(Inverted(t)) == OutId(t) && OutId(Inverted(t)) == InId(t)
    ensures ToId(Inverted(t)) == ToId(t)
    ensures Inverted(Inverted(t)) == t
  {
    PatBits(t);
    Decode(t);
    var i, o, to := InField(t), OutField(t), ToField(t);
    InvertedWord(t);
    WordFields(o, i, to);
    Decode(Inverted(t));
    InvertedWord(Inverted(t));
    WordFields(i, o, to);
    FieldsDetermine(Inverted(Inverted(t)), t);
  }

  /** getSymPair is the signed high half of the word: in * 2^16 + out when the input id is below 2^15. */
  lemma SymPairValue(t: Long)
    ensures SymPair(t) == t / TWO32
    ensures InField(t) <= MAX_IN_ID ==> SymPair(t) == InId(t) * TWO16 + OutId(t)
  {
    SymPairHigh(t);
    PatBits(t);
    Decode(t);
    if InField(t) <= MAX_IN_ID {
      assert t == Bits(t);
      ModUnique(t, TWO32, InField(t) * TWO16 + OutField(t), ToField(t));
    }
  }

  lemma SymPairHigh(t: Long)
    ensures SymPair(t) == t / TWO32
  {
    Pow2Values();
    assert Sar(t, 32) == t / TWO32;
    DivBound(t);
    IntMask(t / TWO32);
  }

  /** (int) (v & 0xffffffffL) == v for a long within the int range. */
  lemma IntMask(v: Long)
    requires -TWO31 <= v < TWO31
    ensures IntCast(And(v, GET_TO_STATE)) == v
  {
    MaskTo(v);
    PatBits(v);
    var m := And(v, GET_TO_STATE);
    assert m == Bits(v) % TWO32;
    if v >= 0 {
      ModUnique(v, TWO32, 0, v);
      assert m == v;
    } else {
      ModShift(v, TWO32, TWO32);
      ModUnique(v, TWO32, -1, v + TWO32);
      assert m == v + TWO32;
    }
    ModUnique(m, TWO32, 0, m);
  }

  lemma DivBound(t: Long)
    ensures -TWO31 <= t / TWO32 < TWO31
  {
    var q, r := t / TWO32, t % TWO32;
    assert t == q * TWO32 + r;
    if q >= TWO31 {
      MulSign(q - TWO31, TWO32);
    }
    if q < -TWO31 {
      MulSign(q + TWO31, TWO32);
    }
  }

  /**
   * Within the packing bounds, the signed order of words is the
   * lexicographic order of (input id, output id, to-state).
   */
  lemma OrderIsLexicographic(i1: Int, o1: Int, t1: Int, i2: Int, o2: Int, t2: Int)
    requires 0 <= i1 <= MAX_IN_ID && 0 <= o1 < TWO16 && 0 <= t1
    requires 0 <= i2 <= MAX_IN_ID && 0 <= o2 < TWO16 && 0 <= t2
    ensures MakeTransition(i1, o1, t1) < MakeTransition(i2, o2, t2)
        <==> (i1 < i2 || (i1 == i2 && (o1 < o2 || (o1 == o2 && t1 < t2))))
    ensures MakeTransition(i1, o1, t1) == MakeTransition(i2, o2, t2)
        <==> (i1 == i2 && o1 == o2 && t1 == t2)
  {
    UnpackMake(i1, o1, t1);
    UnpackMake(i2, o2, t2);
  }

  /** The identity test looks at the input id only; the epsilon test needs both ids. */
  lemma TransitionTests(inSym: Int, outSym: Int, toId: Int, idx: int)
    requires 0 <= inSym <= MAX_IN_ID && 0 <= outSym < TWO16 && 0 <= toId
    ensures IsIdentityTransition(MakeTransition(inSym, outSym, toId), idx) <==> inSym == idx
    ensures IsEpsilonTransition(MakeTransition(inSym, outSym, toId), idx) <==> inSym == idx && outSym == idx
  {
    UnpackMake(inSym, outSym, toId);
  }

  // ---------------------------------------------------------------------
  // Lookup keys: the words of one input id form a contiguous block

  /** The search key (long) id << 48 of the transition iterators. */
  function Key(id: Int): Long
  {
    Shl(id, 48)
  }

  /**
   * The key of a symbol id below 2^16 is the word with that input field
   * and nothing else; from 2^15 up it is negative, and its input id reads
   * back as id - 2^16.
   */
  lemma KeyValue(id: Int)
    requires 0 <= id < TWO16
    ensures Key(id) == SignedIn(id) * TWO48
    ensures Key(id) == MakeTransition(SignedIn(id), 0, 0)
    ensures InId(Key(id)) == SignedIn(id) && OutId(Key(id)) == 0 && ToId(Key(id)) == 0
  {
    if id <= MAX_IN_ID {
      Pow2Values();
      ShlSmall(id, 48, TWO48);
      UnpackMake(id, 0, 0);
    } else {
      KeyHigh(id);
      MakeWordNegative(id - TWO16, 0, 0);
      UnpackMakeNegative(id - TWO16, 0, 0);
    }
  }

  /** From 2^15 up the key's bit pattern is id * 2^48 with the sign bit set. */
  lemma KeyHigh(id: Int)
    requires MAX_IN_ID < id < TWO16
    ensures Key(id) == (id - TWO16) * TWO48 && Key(id) == Word(id, 0, 0)
  {
    Pow2Values();
    ModSmall(id * TWO48, TWO64);
    assert Bits(Key(id)) == id * TWO48;
  }

  /**
   * The iterators' membership test (t & GET_IN_SYM) == id << 48 holds
   * exactly for the words whose input field is id, that is whose input id
   * reads back as SignedIn(id); such words lie at or above the key and
   * below the next key in signed order.
   */
  lemma KeyBlock(t: Long, id: Int)
    requires 0 <= id < TWO16
    ensures And(t, GET_IN_SYM) == Key(id) <==> InId(t) == SignedIn(id)
    ensures InId(t) == SignedIn(id) <==> Key(id) <= t < Key(id) + TWO48
    ensures InId(t) < SignedIn(id) <==> t < Key(id)
  {
    KeyValue(id);
    InIdIsHighPart(t);
    DecodeIn(t);
    MaskIn(t);
    PatBits(t);
    var i := InField(t);
    var m := And(t, GET_IN_SYM);
    if i <= MAX_IN_ID {
      assert m == i * TWO48;
    } else {
      assert m == (i - TWO16) * TWO48;
    }
  }
}

/**
 * The CompactTransition object of the live generation: one mutable packed
 * word with getters, package-private setters, invert and the Comparable /
 * equals protocol.
 */
module CompactTransitions {
  import opened JavaWords
  import opened Packing

  /** What compareTo and equals may be handed: another transition, a boxed Long, or any other object. */
  datatype Operand = ATransition(t: CompactTransition) | ABoxedLong(v: Long) | AnotherObject

  class CompactTransition {
    var transition: Long

    constructor (inSym: Int, outSym: Int, toId: Int)
      ensures transition == MakeTransition(inSym, outSym, toId)
      ensures -MAX_IN_ID - 1 <= inSym <= MAX_IN_ID && 0 <= outSym < TWO16 && 0 <= toId ==>
                GetInSym() == inSym && GetOutSym() == outSym && GetToState() == toId
    {
      transition := MakeTransition(inSym, outSym, toId);
      if 0 <= inSym <= MAX_IN_ID && 0 <= outSym < TWO16 && 0 <= toId {
        UnpackMake(inSym, outSym, toId);
      } else if -MAX_IN_ID - 1 <= inSym < 0 && 0 <= outSym < TWO16 && 0 <= toId {
        UnpackMakeNegative(inSym, outSym, toId);
      }
    }

    constructor FromWord(t: Long)
      ensures transition == t
    {
      transition := t;
    }

    function GetInSym(): Int
      reads this
    {
      InId(transition)
    }

    function GetOutSym(): Int
      reads this
    {
      OutId(transition)
    }

    function GetToState(): Int
      reads this
    {
      ToId(transition)
    }

    function GetSymPair(): Int
      reads this
    {
      SymPair(transition)
    }

    function GetInternalRepresentation(): Long
      reads this
    {
      transition
    }

    predicate Epsilon(epsIdx: int)
      reads this
    {
      IsEpsilonTransition(transition, epsIdx)
    }

    predicate Identity(idIdx: int)
      reads this
    {
      IsIdentityTransition(transition, idIdx)
    }

    method SetInSym(inSym: Int)
      modifies this
      ensures transition == WithInSym(old(transition), inSym)
      ensures 0 <= inSym < TWO16 ==> GetInSym() == SignedIn(inSym)
      ensures 0 <= inSym < TWO16 ==> GetOutSym() == old(GetOutSym()) && GetToState() == old(GetToState())
    {
      transition := WithInSym(transition, inSym);
      if 0 <= inSym < TWO16 {
        SetInSymFrame(old(transition), inSym);
      }
    }

    method SetOutSym(outSym: Int)
      modifies this
      ensures transition == WithOutSym(old(transition), outSym)
      ensures 0 <= outSym < TWO16 ==> GetOutSym() == outSym
      ensures 0 <= outSym < TWO16 ==> GetInSym() == old(GetInSym()) && GetToState() == old(GetToState())
    {
      transition := WithOutSym(transition, outSym);
      if 0 <= outSym < TWO16 {
        SetOutSymFrame(old(transition), outSym);
      }
    }

    method SetToState(toState: Int)
      modifies this
      ensures transition == WithToState(old(transition), toState)
      ensures 0 <= toState ==> GetToState() == toState
      ensures 0 <= toState ==> GetInSym() == old(GetInSym()) && GetOutSym() == old(GetOutSym())
    {
      transition := WithToState(transition, toState);
      if 0 <= toState {
        SetToStateFrame(old(transition), toState);
      }
    }

    method Invert()
      modifies this
      ensures transition == Inverted(old(transition))
      ensures InField(old(transition)) <= MAX_IN_ID && OutField(old(transition)) <= MAX_IN_ID ==>
                GetInSym() == old(GetOutSym()) && GetOutSym() == old(GetInSym()) && GetToState() == old(GetToState())
    {
      var oldInSym := GetInSym();
      SetInSym(GetOutSym());
      SetOutSym(oldInSym);
      if InField(old(transition)) <= MAX_IN_ID && OutField(old(transition)) <= MAX_IN_ID {
        InvertSwaps(old(transition));
      }
    }

    /** compareTo(Object): Long.compare against a transition's word or a boxed Long, -1 for anything else. */
    function CompareTo(other: Operand): (r: int)
      reads this, if other.ATransition? then {other.t} else {}
      ensures other.ATransition? ==> (r < 0 <==> transition < other.t.transition) && (r == 0 <==> transition == other.t.transition)
      ensures other.ABoxedLong? ==> (r < 0 <==> transition < other.v) && (r == 0 <==> transition == other.v)
      ensures other.AnotherObject? ==> r == -1
      ensures -1 <= r <= 1
    {
      match other
      case ATransition(t) => LongCompare(transition, t.transition)
      case ABoxedLong(v) => LongCompare(transition, v)
      case AnotherObject => -1
    }

    /** equals(Object): only another transition with the same word is equal; a boxed Long never is. */
    predicate Equals(other: Operand)
      reads this, if other.ATransition? then {other.t} else {}
      ensures Equals(other) <==> other.ATransition? && other.t.transition == transition
    {
      other.ATransition? && transition == other.t.transition
    }
  }
}
