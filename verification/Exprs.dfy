/** Expressions over Bool, Int and bit-vector types, and their meaning under a valuation.
    Every node kind of the expression classes outside floats, arrays and tuples is present. */
module Exprs {
  import opened BitVectors

  datatype Type = BoolType | IntType | BvType(width: nat)

  datatype Value = BoolVal(b: bool) | IntVal(i: int) | BvVal(width: nat, bits: nat) {
    predicate IsTrue() { BoolVal? && b }
    function AsInt(): int { if IntVal? then i else 0 }
    function AsBits(): nat { if BvVal? then bits else 0 }
    function Width(): nat { if BvVal? then width else 0 }

    predicate HasType(t: Type) {
      match t
      case BoolType => BoolVal?
      case IntType => IntVal?
      case BvType(w) => BvVal? && width == w && bits < Pow2(w)
    }
  }

  function Default(t: Type): (r: Value)
    ensures r.HasType(t)
  {
    match t
    case BoolType => BoolVal(false)
    case IntType => IntVal(0)
    case BvType(w) => BvVal(w, 0)
  }

  /** A variable is known by its identity; the name it prints as plays no part. */
  datatype Variable = Variable(id: nat, typ: Type)

  type Valuation = map<Variable, Value>

  /** The value stored into a variable of type `t`. */
  function Fit(value: Value, t: Type): (r: Value)
    ensures r.HasType(t)
    ensures value.HasType(t) ==> r == value
  {
    if value.HasType(t) then value else Default(t)
  }

  /** Reading a variable always gives a value of the variable's own type. */
  function Get(v: Valuation, x: Variable): (r: Value)
    ensures r.HasType(x.typ)
  {
    if x in v then Fit(v[x], x.typ) else Default(x.typ)
  }

  datatype ArithmeticKind = Add | Sub | Mul | Div | Mod | Rem
  datatype BitKind = BvSDiv | BvUDiv | BvSRem | BvURem | Shl | LShr | AShr | BvAnd | BvOr | BvXor
  datatype CompareKind =
    | Eq | NotEq | Lt | LtEq | Gt | GtEq
    | BvSLt | BvSLtEq | BvSGt | BvSGtEq | BvULt | BvULtEq | BvUGt | BvUGtEq

  datatype BinaryKind = Arithmetic(arith: ArithmeticKind) | Bitwise(bit: BitKind) | BvConcat | Imply | Compare(cmp: CompareKind)

  datatype Expr =
    | Lit(value: Value)
    | Undef(typ: Type)
    | VarRef(variable: Variable)
    | Not(op: Expr)
    | Extend(signed: bool, op: Expr, width: nat)
    | Extract(op: Expr, offset: nat, width: nat)
    | Binary(kind: BinaryKind, left: Expr, right: Expr)
    | And(ops: seq<Expr>)
    | Or(ops: seq<Expr>)
    | Select(cond: Expr, thn: Expr, els: Expr)

  function True(): Expr { Lit(BoolVal(true)) }
  function False(): Expr { Lit(BoolVal(false)) }
  function IntLit(i: int): Expr { Lit(IntVal(i)) }

  // ---- Meaning ----

  function EvalArithmetic(kind: ArithmeticKind, x: int, y: int): int {
    match kind
    case Add => x + y
    case Sub => x - y
    case Mul => x * y
    case Div => if y == 0 then 0 else x / y
    case Mod => if y == 0 then 0 else x % y
    case Rem => if y == 0 then 0 else x % y
  }

  function EvalBitwise(kind: BitKind, w: nat, a: nat, b: nat): nat {
    match kind
    case BvSDiv => SDiv(w, a, b)
    case BvUDiv => UDiv(w, a, b)
    case BvSRem => SRem(w, a, b)
    case BvURem => URem(w, a, b)
    case Shl => BitVectors.Shl(w, a, b)
    case LShr => BitVectors.LShr(w, a, b)
    case AShr => BitVectors.AShr(w, a, b)
    case BvAnd => BitAnd(a, b)
    case BvOr => BitOr(a, b)
    case BvXor => BitXor(a, b)
  }

  function EvalCompare(kind: CompareKind, a: Value, b: Value): bool {
    var w := a.Width();
    match kind
    case Eq => a == b
    case NotEq => a != b
    case Lt => a.AsInt() < b.AsInt()
    case LtEq => a.AsInt() <= b.AsInt()
    case Gt => a.AsInt() > b.AsInt()
    case GtEq => a.AsInt() >= b.AsInt()
    case BvSLt => Signed(w, a.AsBits()) < Signed(w, b.AsBits())
    case BvSLtEq => Signed(w, a.AsBits()) <= Signed(w, b.AsBits())
    case BvSGt => Signed(w, a.AsBits()) > Signed(w, b.AsBits())
    case BvSGtEq => Signed(w, a.AsBits()) >= Signed(w, b.AsBits())
    case BvULt => a.AsBits() < b.AsBits()
    case BvULtEq => a.AsBits() <= b.AsBits()
    case BvUGt => a.AsBits() > b.AsBits()
    case BvUGtEq => a.AsBits() >= b.AsBits()
  }

  function EvalBinary(kind: BinaryKind, a: Value, b: Value): Value {
    match kind
    case Arithmetic(k) =>
      if a.BvVal? then BvVal(a.width, Truncate(a.width, EvalArithmetic(k, a.bits, b.AsBits())))
      else IntVal(EvalArithmetic(k, a.AsInt(), b.AsInt()))
    case Bitwise(k) => BvVal(a.Width(), EvalBitwise(k, a.Width(), a.AsBits(), b.AsBits()))
    case BvConcat => BvVal(a.Width() + b.Width(), a.AsBits() * Pow2(b.Width()) + b.AsBits())
    case Imply => BoolVal(a.IsTrue() ==> b.IsTrue())
    case Compare(k) => BoolVal(EvalCompare(k, a, b))
  }

  function EvalExtend(signed: bool, a: Value, width: nat): Value {
    BvVal(width, Truncate(width, if signed then Signed(a.Width(), a.AsBits()) else a.AsBits()))
  }

  function EvalExtract(a: Value, offset: nat, width: nat): Value {
    BvVal(width, Truncate(width, a.AsBits() / Pow2(offset)))
  }

  /** An undefined subexpression reads as the default of its type; assigning `Undef` outright is
      a nondeterministic choice, made by the transition relation. */
  function Eval(e: Expr, v: Valuation): Value
    decreases e
  {
    match e
    case Lit(value) => value
    case Undef(t) => Default(t)
    case VarRef(x) => Get(v, x)
    case Not(op) => BoolVal(!Eval(op, v).IsTrue())
    case Extend(signed, op, w) => EvalExtend(signed, Eval(op, v), w)
    case Extract(op, offset, w) => EvalExtract(Eval(op, v), offset, w)
    case Binary(kind, l, r) => EvalBinary(kind, Eval(l, v), Eval(r, v))
    case And(ops) => BoolVal(forall o | o in ops :: Eval(o, v).IsTrue())
    case Or(ops) => BoolVal(exists o | o in ops :: Eval(o, v).IsTrue())
    case Select(c, t, f) => if Eval(c, v).IsTrue() then Eval(t, v) else Eval(f, v)
  }

  predicate Holds(e: Expr, v: Valuation) { Eval(e, v).IsTrue() }

  // ---- Variables of an expression ----

  function VarsOfAll(ops: seq<Expr>): set<Variable>
    decreases ops, 0
  {
    set o, x | o in ops && x in Vars(o) :: x
  }

  function Vars(e: Expr): set<Variable>
    decreases e, 1
  {
    match e
    case Lit(_) => {}
    case Undef(_) => {}
    case VarRef(x) => {x}
    case Not(op) => Vars(op)
    case Extend(_, op, _) => Vars(op)
    case Extract(op, _, _) => Vars(op)
    case Binary(_, l, r) => Vars(l) + Vars(r)
    case And(ops) => VarsOfAll(ops)
    case Or(ops) => VarsOfAll(ops)
    case Select(c, t, f) => Vars(c) + Vars(t) + Vars(f)
  }

  lemma VarsOfOperand(ops: seq<Expr>, o: Expr)
    requires o in ops
    ensures Vars(o) <= VarsOfAll(ops)
  {
  }

  /** Two valuations that give each variable of `xs` the same value. */
  ghost predicate Same(v: Valuation, w: Valuation, xs: set<Variable>) {
    forall x | x in xs :: Get(v, x) == Get(w, x)
  }

  /** The value of an expression depends on its own variables only. */
  lemma {:induction false} EvalCongruence(e: Expr, v: Valuation, w: Valuation)
    requires Same(v, w, Vars(e))
    ensures Eval(e, v) == Eval(e, w)
    decreases e
  {
    match e
    case Lit(_) =>
    case Undef(_) =>
    case VarRef(x) => assert x in Vars(e);
    case Not(op) => EvalCongruence(op, v, w);
    case Extend(_, op, _) => EvalCongruence(op, v, w);
    case Extract(op, _, _) => EvalCongruence(op, v, w);
    case Binary(_, l, r) => EvalCongruence(l, v, w); EvalCongruence(r, v, w);
    case And(ops) => forall o | o in ops ensures Eval(o, v) == Eval(o, w) { VarsOfOperand(ops, o); EvalCongruence(o, v, w); }
    case Or(ops) => forall o | o in ops ensures Eval(o, v) == Eval(o, w) { VarsOfOperand(ops, o); EvalCongruence(o, v, w); }
    case Select(c, t, f) => EvalCongruence(c, v, w); EvalCongruence(t, v, w); EvalCongruence(f, v, w);
  }

  // ---- Typing ----

  function BinaryType(kind: BinaryKind, l: Type, r: Type): Type {
    match kind
    case Compare(_) => BoolType
    case BvConcat => if l.BvType? && r.BvType? then BvType(l.width + r.width) else l
    case _ => l
  }

  predicate BinaryTyped(kind: BinaryKind, l: Type, r: Type) {
    match kind
    case Arithmetic(k) => l == r && (l.IntType? || (l.BvType? && (k.Add? || k.Sub? || k.Mul?)))
    case Bitwise(_) => l == r && l.BvType?
    case BvConcat => l.BvType? && r.BvType?
    case Imply => l == r == BoolType
    case Compare(k) => l == r && (k.Eq? || k.NotEq? || (if k.Lt? || k.LtEq? || k.Gt? || k.GtEq? then l.IntType? else l.BvType?))
  }

  function TypeOf(e: Expr): Type
    decreases e
  {
    match e
    case Lit(BoolVal(_)) => BoolType
    case Lit(IntVal(_)) => IntType
    case Lit(BvVal(w, _)) => BvType(w)
    case Undef(t) => t
    case VarRef(x) => x.typ
    case Not(_) => BoolType
    case Extend(_, _, w) => BvType(w)
    case Extract(_, _, w) => BvType(w)
    case Binary(kind, l, r) => BinaryType(kind, TypeOf(l), TypeOf(r))
    case And(_) => BoolType
    case Or(_) => BoolType
    case Select(_, t, _) => TypeOf(t)
  }

  predicate WellTyped(e: Expr)
    decreases e
  {
    match e
    case Lit(value) => value.HasType(TypeOf(e))
    case Undef(_) => true
    case VarRef(_) => true
    case Not(op) => WellTyped(op) && TypeOf(op).BoolType?
    case Extend(_, op, w) => WellTyped(op) && TypeOf(op).BvType? && TypeOf(op).width < w
    case Extract(op, offset, w) => WellTyped(op) && TypeOf(op).BvType? && w > 0 && offset + w <= TypeOf(op).width
    case Binary(kind, l, r) => WellTyped(l) && WellTyped(r) && BinaryTyped(kind, TypeOf(l), TypeOf(r))
    case And(ops) => forall o | o in ops :: WellTyped(o) && TypeOf(o).BoolType?
    case Or(ops) => forall o | o in ops :: WellTyped(o) && TypeOf(o).BoolType?
    case Select(c, t, f) => WellTyped(c) && WellTyped(t) && WellTyped(f) && TypeOf(c).BoolType? && TypeOf(t) == TypeOf(f)
  }

  predicate IsFormula(e: Expr) { WellTyped(e) && TypeOf(e).BoolType? }

  lemma {:induction false} BinarySound(kind: BinaryKind, a: Value, b: Value, l: Type, r: Type)
    requires a.HasType(l) && b.HasType(r) && BinaryTyped(kind, l, r)
    ensures EvalBinary(kind, a, b).HasType(BinaryType(kind, l, r))
  {
    match kind
    case Bitwise(k) => BitwiseSound(k, a.width, a.bits, b.bits); hide EvalBitwise;
    case BvConcat => ConcatBound(a.bits, b.bits, a.width, b.width);
    case _ => hide EvalArithmetic, EvalCompare;
  }

  lemma {:induction false} BitwiseSound(k: BitKind, w: nat, a: nat, b: nat)
    requires a < Pow2(w) && b < Pow2(w)
    ensures EvalBitwise(k, w, a, b) < Pow2(w)
  {
    BitwiseBounds(w, a, b);
    hide Pow2, BitAnd, BitOr, BitXor, Truncate;
  }

  /** A well-typed expression evaluates to a value of its type. */
  lemma {:induction false} TypeSoundness(e: Expr, v: Valuation)
    requires WellTyped(e)
    ensures Eval(e, v).HasType(TypeOf(e))
    decreases e
  {
    match e
    case Binary(kind, l, r) =>
      TypeSoundness(l, v);
      TypeSoundness(r, v);
      BinarySound(kind, Eval(l, v), Eval(r, v), TypeOf(l), TypeOf(r));
    case Select(_, t, f) => TypeSoundness(t, v); TypeSoundness(f, v);
    case _ =>
  }
}
