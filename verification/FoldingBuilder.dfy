/** The constant-folding expression builder (src/Core/Expr/FoldingExprBuilder.cpp): each rule of
    the builder, and for each operation the exact inputs on which the built expression has the
    value of the plain node under a given valuation. */
module FoldingBuilder {
  import opened BitVectors
  import opened Exprs

  predicate IsBoolLit(e: Expr) { e.Lit? && e.value.BoolVal? }
  predicate IsIntLit(e: Expr) { e.Lit? && e.value.IntVal? }
  predicate IsBvLit(e: Expr) { e.Lit? && e.value.BvVal? }

  // ---- And, Or: flatten, drop neutral literals, stop at an absorbing one ----

  /** The operands that survive: neutral literals dropped, nested operators of the same kind spliced. */
  function Conjuncts(ops: seq<Expr>): seq<Expr> {
    if ops == [] then [] else
      Conjuncts(ops[..|ops| - 1])
      + var o := ops[|ops| - 1]; if IsBoolLit(o) then [] else if o.And? then o.ops else [o]
  }

  function Disjuncts(ops: seq<Expr>): seq<Expr> {
    if ops == [] then [] else
      Disjuncts(ops[..|ops| - 1])
      + var o := ops[|ops| - 1]; if IsBoolLit(o) then [] else if o.Or? then o.ops else [o]
  }

  function BuildAnd(ops: seq<Expr>): Expr {
    var newOps := Conjuncts(ops);
    if False() in ops then False()
    else if newOps == [] then True()
    else if |newOps| == 1 then newOps[0] else And(newOps)
  }

  function BuildOr(ops: seq<Expr>): Expr {
    var newOps := Disjuncts(ops);
    if True() in ops then True()
    else if newOps == [] then False()
    else if |newOps| == 1 then newOps[0] else Or(newOps)
  }

  /** The loop of `And`, growing the operand vector and leaving early on a false literal. */
  method FlattenAnd(vector: seq<Expr>) returns (r: Expr)
    ensures r == BuildAnd(vector)
  {
    var newOps := [];
    for i := 0 to |vector|
      invariant newOps == Conjuncts(vector[..i])
      invariant False() !in vector[..i]
    {
      var op := vector[i];
      assert vector[..i + 1][..i] == vector[..i];
      if IsBoolLit(op) {
        if !op.value.b {
          return False();
        }
      } else if op.And? {
        newOps := newOps + op.ops;
      } else {
        newOps := newOps + [op];
      }
    }
    assert vector[..|vector|] == vector;
    r := if newOps == [] then True() else if |newOps| == 1 then newOps[0] else And(newOps);
  }

  /** The loop of `Or`. */
  method FlattenOr(vector: seq<Expr>) returns (r: Expr)
    ensures r == BuildOr(vector)
  {
    var newOps := [];
    for i := 0 to |vector|
      invariant newOps == Disjuncts(vector[..i])
      invariant True() !in vector[..i]
    {
      var op := vector[i];
      assert vector[..i + 1][..i] == vector[..i];
      if IsBoolLit(op) {
        if op.value.b {
          return True();
        }
      } else if op.Or? {
        newOps := newOps + op.ops;
      } else {
        newOps := newOps + [op];
      }
    }
    assert vector[..|vector|] == vector;
    r := if newOps == [] then False() else if |newOps| == 1 then newOps[0] else Or(newOps);
  }

  ghost predicate AllFormulas(ops: seq<Expr>) { forall o | o in ops :: IsFormula(o) }

  lemma {:induction false} ConjunctsSound(ops: seq<Expr>, v: Valuation)
    requires AllFormulas(ops) && False() !in ops
    ensures AllFormulas(Conjuncts(ops))
    ensures (forall o | o in Conjuncts(ops) :: Holds(o, v)) <==> (forall o | o in ops :: Holds(o, v))
  {
    if ops != [] {
      var n := |ops| - 1;
      assert ops == ops[..n] + [ops[n]];
      ConjunctsSound(ops[..n], v);
      assert IsFormula(ops[n]);
      var last := if IsBoolLit(ops[n]) then [] else if ops[n].And? then ops[n].ops else [ops[n]];
      assert AllFormulas(last) && (Holds(ops[n], v) <==> forall o | o in last :: Holds(o, v));
      hide Eval, WellTyped;
      assert Conjuncts(ops) == Conjuncts(ops[..n]) + last;
    }
  }

  lemma {:induction false} DisjunctsSound(ops: seq<Expr>, v: Valuation)
    requires AllFormulas(ops) && True() !in ops
    ensures AllFormulas(Disjuncts(ops))
    ensures (exists o | o in Disjuncts(ops) :: Holds(o, v)) <==> (exists o | o in ops :: Holds(o, v))
  {
    if ops != [] {
      var n := |ops| - 1;
      assert ops == ops[..n] + [ops[n]];
      DisjunctsSound(ops[..n], v);
      assert IsFormula(ops[n]);
      var last := if IsBoolLit(ops[n]) then [] else if ops[n].Or? then ops[n].ops else [ops[n]];
      assert AllFormulas(last) && (Holds(ops[n], v) <==> exists o | o in last :: Holds(o, v));
      hide Eval, WellTyped;
      assert Disjuncts(ops) == Disjuncts(ops[..n]) + last;
    }
  }

  lemma {:induction false} NaryMeaning(ops: seq<Expr>, v: Valuation)
    requires AllFormulas(ops)
    ensures IsFormula(And(ops)) && Eval(And(ops), v) == BoolVal(forall o | o in ops :: Holds(o, v))
    ensures IsFormula(Or(ops)) && Eval(Or(ops), v) == BoolVal(exists o | o in ops :: Holds(o, v))
  {
  }

  lemma {:induction false} LiteralMeaning(b: bool, v: Valuation)
    ensures IsFormula(Lit(BoolVal(b))) && Eval(Lit(BoolVal(b)), v) == BoolVal(b)
  {
  }

  /** A formula is its own truth value. */
  lemma {:induction false} FormulaMeaning(o: Expr, v: Valuation)
    requires IsFormula(o)
    ensures Eval(o, v) == BoolVal(Holds(o, v))
  {
    TypeSoundness(o, v);
  }

  lemma {:induction false} AndSound(ops: seq<Expr>, v: Valuation)
    requires AllFormulas(ops)
    ensures IsFormula(BuildAnd(ops)) && Eval(BuildAnd(ops), v) == Eval(And(ops), v)
  {
    hide Eval, WellTyped, TypeOf, Conjuncts;
    NaryMeaning(ops, v);
    LiteralMeaning(true, v);
    LiteralMeaning(false, v);
    if False() !in ops {
      var newOps := Conjuncts(ops);
      ConjunctsSound(ops, v);
      NaryMeaning(newOps, v);
      if |newOps| == 1 {
        assert newOps[0] in newOps;
        FormulaMeaning(newOps[0], v);
      }
    }
  }

  lemma {:induction false} OrSound(ops: seq<Expr>, v: Valuation)
    requires AllFormulas(ops)
    ensures IsFormula(BuildOr(ops)) && Eval(BuildOr(ops), v) == Eval(Or(ops), v)
  {
    hide Eval, WellTyped, TypeOf, Disjuncts;
    NaryMeaning(ops, v);
    LiteralMeaning(true, v);
    LiteralMeaning(false, v);
    if True() !in ops {
      var newOps := Disjuncts(ops);
      DisjunctsSound(ops, v);
      NaryMeaning(newOps, v);
      if |newOps| == 1 {
        assert newOps[0] in newOps;
        FormulaMeaning(newOps[0], v);
      }
    }
  }

  lemma {:induction false} AndPairSound(a: Expr, b: Expr, v: Valuation)
    requires IsFormula(a) && IsFormula(b)
    ensures var r := BuildAnd([a, b]); IsFormula(r) && (Holds(r, v) <==> Holds(a, v) && Holds(b, v)) && Eval(r, v).BoolVal?
  {
    AndSound([a, b], v);
    assert a in [a, b] && b in [a, b];
  }

  lemma {:induction false} OrPairSound(a: Expr, b: Expr, v: Valuation)
    requires IsFormula(a) && IsFormula(b)
    ensures var r := BuildOr([a, b]); IsFormula(r) && (Holds(r, v) <==> Holds(a, v) || Holds(b, v)) && Eval(r, v).BoolVal?
  {
    OrSound([a, b], v);
    assert a in [a, b] && b in [a, b];
  }

  // ---- Not, Imply ----

  /** `Not(Or(Not(X), Y))` becomes `And(X, Not(Y))`, with the negated operand on either side. */
  function BuildNot(op: Expr): Expr
    decreases op
  {
    if IsBoolLit(op) then Lit(BoolVal(!op.value.b))
    else if op.Or? && |op.ops| == 2 && op.ops[0].Not? then BuildAnd([op.ops[0].op, BuildNot(op.ops[1])])
    else if op.Or? && |op.ops| == 2 && op.ops[1].Not? then BuildAnd([op.ops[1].op, BuildNot(op.ops[0])])
    else Not(op)
  }

  lemma {:induction false} NotSound(op: Expr, v: Valuation)
    requires IsFormula(op)
    ensures IsFormula(BuildNot(op)) && Eval(BuildNot(op), v) == Eval(Not(op), v)
    decreases op
  {
    if !IsBoolLit(op) && op.Or? && |op.ops| == 2 && (op.ops[0].Not? || op.ops[1].Not?) {
      var x, y := op.ops[0], op.ops[1];
      assert op.ops == [x, y] && IsFormula(x) && IsFormula(y);
      assert Holds(op, v) <==> Holds(x, v) || Holds(y, v);
      if x.Not? {
        NotSound(y, v);
        AndPairSound(x.op, BuildNot(y), v);
      } else {
        NotSound(x, v);
        AndPairSound(y.op, BuildNot(x), v);
      }
    }
  }

  function BuildImply(left: Expr, right: Expr): Expr {
    if IsBoolLit(left) then (if left.value.b then right else True())
    else if IsBoolLit(right) then (if right.value.b then True() else BuildNot(left))
    else Binary(Imply, left, right)
  }

  lemma {:induction false} ImplySound(left: Expr, right: Expr, v: Valuation)
    requires IsFormula(left) && IsFormula(right)
    ensures IsFormula(BuildImply(left, right)) && Eval(BuildImply(left, right), v) == Eval(Binary(Imply, left, right), v)
  {
    TypeSoundness(right, v);
    NotSound(left, v);
  }

  // ---- Eq, NotEq ----

  function FoldEqLiteral(operand: Expr, literal: Expr): Expr
    requires IsBoolLit(literal)
  {
    if literal.value.b then operand else BuildNot(operand)
  }

  predicate IsLiteralSelect(e: Expr) { e.Select? && e.thn.Lit? && e.els.Lit? }

  /** A select over two literals compared with a literal, the select on either side. */
  function SelectSide(left: Expr, right: Expr): Expr { if IsLiteralSelect(left) then left else right }
  function LiteralSide(left: Expr, right: Expr): Expr { if IsLiteralSelect(left) then right else left }

  predicate ComparesThenArm(left: Expr, right: Expr) {
    var s := SelectSide(left, right);
    IsLiteralSelect(s) && LiteralSide(left, right) == s.thn
  }

  predicate ComparesElseArm(left: Expr, right: Expr) {
    var s := SelectSide(left, right);
    IsLiteralSelect(s) && LiteralSide(left, right) == s.els
  }

  /** Equality without the two select rules. */
  function BuildPlainEq(left: Expr, right: Expr): Expr {
    if left == right then True()
    else if left.Lit? && right.Lit? then False()
    else if IsBoolLit(right) then FoldEqLiteral(left, right)
    else if IsBoolLit(left) then FoldEqLiteral(right, left)
    else Binary(Compare(Eq), left, right)
  }

  function BuildEq(left: Expr, right: Expr): Expr {
    var plain := BuildPlainEq(left, right);
    if plain != Binary(Compare(Eq), left, right) then plain
    else if ComparesThenArm(left, right) then SelectSide(left, right).cond
    else if ComparesElseArm(left, right) then BuildNot(SelectSide(left, right).cond)
    else plain
  }

  lemma {:induction false} PlainEqSound(left: Expr, right: Expr, v: Valuation)
    requires WellTyped(left) && WellTyped(right) && TypeOf(left) == TypeOf(right)
    ensures IsFormula(BuildPlainEq(left, right))
    ensures Eval(BuildPlainEq(left, right), v) == Eval(Binary(Compare(Eq), left, right), v)
  {
    assert Eval(Binary(Compare(Eq), left, right), v) == BoolVal(Eval(left, v) == Eval(right, v));
    if IsBoolLit(right) {
      TypeSoundness(left, v);
      NotSound(left, v);
    } else if IsBoolLit(left) {
      TypeSoundness(right, v);
      NotSound(right, v);
    }
  }

  /** The select whose arms coincide, compared with that arm: the rule answers with the condition. */
  predicate EqualArms(left: Expr, right: Expr) {
    && BuildPlainEq(left, right) == Binary(Compare(Eq), left, right)
    && ComparesThenArm(left, right)
    && SelectSide(left, right).thn == SelectSide(left, right).els
  }

  lemma {:induction false} LiteralSelectMeaning(s: Expr, l: Expr, v: Valuation)
    requires IsLiteralSelect(s) && (l == s.thn || l == s.els)
    ensures Eval(Binary(Compare(Eq), s, l), v) == BoolVal((if Holds(s.cond, v) then s.thn else s.els) == l)
  {
    assert Eval(s, v) == if Holds(s.cond, v) then s.thn.value else s.els.value;
    assert Eval(l, v) == l.value;
  }

  /** The folded equality has the value of the plain one exactly when no equal-armed select is
      compared with its arm, or that select's condition is true anyway. */
  lemma {:induction false} EqExact(left: Expr, right: Expr, v: Valuation)
    requires WellTyped(left) && WellTyped(right) && TypeOf(left) == TypeOf(right)
    ensures IsFormula(BuildEq(left, right))
    ensures Eval(BuildEq(left, right), v) == Eval(Binary(Compare(Eq), left, right), v)
            <==> (EqualArms(left, right) ==> Holds(SelectSide(left, right).cond, v))
  {
    PlainEqSound(left, right, v);
    if BuildPlainEq(left, right) == Binary(Compare(Eq), left, right) {
      var s, l := SelectSide(left, right), LiteralSide(left, right);
      if IsLiteralSelect(s) && (l == s.thn || l == s.els) {
        LiteralSelectMeaning(s, l, v);
        assert Eval(Binary(Compare(Eq), left, right), v) == Eval(Binary(Compare(Eq), s, l), v);
        TypeSoundness(s.cond, v);
        NotSound(s.cond, v);
        assert Eval(Not(s.cond), v) == BoolVal(!Holds(s.cond, v));
        hide Eval, WellTyped, BuildNot, BuildPlainEq;
      }
    }
  }

  function BuildNotEq(left: Expr, right: Expr): Expr { BuildNot(BuildEq(left, right)) }

  // ---- Integer comparisons, normalised to LtEq ----

  predicate IsOffset(e: Expr) { e.Binary? && e.kind == Arithmetic(Add) && (IsIntLit(e.left) || IsIntLit(e.right)) }
  predicate IsDecrement(e: Expr) { e.Binary? && e.kind == Arithmetic(Sub) && IsIntLit(e.right) }

  /** The variable part of `X + C1`, `C1 + X` or `X - C1`, and how far it is shifted. */
  function Base(e: Expr): Expr
    requires IsOffset(e) || IsDecrement(e)
  {
    if IsOffset(e) && IsIntLit(e.left) then e.right else e.left
  }

  function Shift(e: Expr): int
    requires IsOffset(e) || IsDecrement(e)
  {
    if IsOffset(e) then (if IsIntLit(e.left) then e.left.value.i else e.right.value.i) else -e.right.value.i
  }

  function SimplifyLtEq(left: Expr, right: Expr): Expr {
    if IsIntLit(right) && (IsOffset(left) || IsDecrement(left)) then
      Binary(Compare(LtEq), Base(left), IntLit(right.value.i - Shift(left)))
    else if !IsIntLit(right) && IsIntLit(left) && (IsOffset(right) || IsDecrement(right)) then
      Binary(Compare(LtEq), IntLit(left.value.i - Shift(right)), Base(right))
    else Binary(Compare(LtEq), left, right)
  }

  function BuildLtEq(left: Expr, right: Expr): Expr {
    if IsIntLit(left) && IsIntLit(right) then Lit(BoolVal(left.value.i <= right.value.i))
    else SimplifyLtEq(left, right)
  }

  function BuildLt(left: Expr, right: Expr): Expr { BuildNot(BuildLtEq(right, left)) }
  function BuildGtEq(left: Expr, right: Expr): Expr { BuildLtEq(right, left) }

  function BuildGt(left: Expr, right: Expr): Expr {
    if IsIntLit(left) && IsIntLit(right) then Lit(BoolVal(left.value.i > right.value.i))
    else if IsIntLit(left) then Binary(Compare(LtEq), right, IntLit(left.value.i - 1))
    else BuildNot(BuildLtEq(left, right))
  }

  ghost predicate AreInts(left: Expr, right: Expr) {
    WellTyped(left) && WellTyped(right) && TypeOf(left) == TypeOf(right) == IntType
  }

  lemma {:induction false} BaseSound(e: Expr, v: Valuation)
    requires (IsOffset(e) || IsDecrement(e)) && WellTyped(e) && TypeOf(e) == IntType
    ensures WellTyped(Base(e)) && TypeOf(Base(e)) == IntType
    ensures Eval(e, v).AsInt() == Eval(Base(e), v).AsInt() + Shift(e)
  {
    TypeSoundness(e.left, v);
    TypeSoundness(e.right, v);
  }

  lemma {:induction false} LtEqNode(left: Expr, right: Expr, v: Valuation)
    requires AreInts(left, right)
    ensures IsFormula(Binary(Compare(LtEq), left, right))
    ensures Eval(Binary(Compare(LtEq), left, right), v) == BoolVal(Eval(left, v).AsInt() <= Eval(right, v).AsInt())
    ensures left.Lit? ==> Eval(left, v) == left.value
    ensures right.Lit? ==> Eval(right, v) == right.value
  {
  }

  lemma {:induction false} LtEqSound(left: Expr, right: Expr, v: Valuation)
    requires AreInts(left, right)
    ensures IsFormula(BuildLtEq(left, right)) && Eval(BuildLtEq(left, right), v) == Eval(Binary(Compare(LtEq), left, right), v)
  {
    LtEqNode(left, right, v);
    if IsIntLit(left) && IsIntLit(right) {
    } else if IsIntLit(right) && (IsOffset(left) || IsDecrement(left)) {
      BaseSound(left, v);
      LtEqNode(Base(left), IntLit(right.value.i - Shift(left)), v);
      hide Eval, Base, Shift, IsOffset, IsDecrement;
    } else if !IsIntLit(right) && IsIntLit(left) && (IsOffset(right) || IsDecrement(right)) {
      BaseSound(right, v);
      LtEqNode(IntLit(left.value.i - Shift(right)), Base(right), v);
      hide Eval, Base, Shift, IsOffset, IsDecrement;
    } else {
      hide Eval, IsOffset, IsDecrement;
    }
  }

  lemma {:induction false} LtSound(left: Expr, right: Expr, v: Valuation)
    requires AreInts(left, right)
    ensures IsFormula(BuildLt(left, right)) && Eval(BuildLt(left, right), v) == Eval(Binary(Compare(Lt), left, right), v)
  {
    LtEqSound(right, left, v);
    NotSound(BuildLtEq(right, left), v);
    hide BuildLtEq, BuildNot;
  }

  lemma {:induction false} GtSound(left: Expr, right: Expr, v: Valuation)
    requires AreInts(left, right)
    ensures IsFormula(BuildGt(left, right)) && Eval(BuildGt(left, right), v) == Eval(Binary(Compare(Gt), left, right), v)
  {
    if IsIntLit(left) && !IsIntLit(right) {
      LtEqNode(right, IntLit(left.value.i - 1), v);
    } else {
      LtEqSound(left, right, v);
      NotSound(BuildLtEq(left, right), v);
    }
    hide BuildLtEq, BuildNot;
  }

  lemma {:induction false} GtEqSound(left: Expr, right: Expr, v: Valuation)
    requires AreInts(left, right)
    ensures IsFormula(BuildGtEq(left, right)) && Eval(BuildGtEq(left, right), v) == Eval(Binary(Compare(GtEq), left, right), v)
  {
    LtEqSound(right, left, v);
    hide BuildLtEq;
  }

  // ---- Select ----

  /** Some rule that precedes the swapped one applies. */
  predicate EarlierSelectRule(c: Expr, t: Expr, e: Expr) {
    || IsBoolLit(c) || t == e
    || IsBoolLit(e) || IsBoolLit(t)
    || c.Not?
    || (t.Select? && t.cond == c)
    || (e.Select? && e.cond == c)
  }

  function BuildSelect(c: Expr, t: Expr, e: Expr): Expr {
    if IsBoolLit(c) then (if c.value.b then t else e)
    else if t == e then t
    else if e == False() then BuildAnd([c, t])
    else if e == True() then BuildOr([BuildNot(c), t])
    else if t == True() then BuildOr([c, e])
    else if t == False() then BuildAnd([BuildNot(c), e])
    else if c.Not? then Select(c.op, e, t)
    else if t.Select? && t.cond == c then Select(c, t.thn, e)
    else if e.Select? && e.cond == c then Select(c, t, e.els)
    else if t.Select? && e == t.thn then Select(BuildAnd([c, BuildNot(t.cond)]), t.thn, t.els)
    else if t.Select? && e == t.els then Select(And([c, t.cond]), t.thn, t.els)
    else if e.Select? && t == e.thn then Select(Or([c, e.cond]), t, e.els)
    else Select(c, t, e)
  }

  /** `Select(C1, Select(C2, E1, E2), E1)`: the builder keeps the arms in the order E1, E2. */
  predicate SwappedArms(c: Expr, t: Expr, e: Expr) {
    !EarlierSelectRule(c, t, e) && t.Select? && e == t.thn
  }

  /** The folded select has the value of the plain one exactly when the nested-select rule that
      leaves its arms in the wrong order does not apply, or the two arms agree anyway. */
  lemma {:induction false} SelectExact(c: Expr, t: Expr, e: Expr, v: Valuation)
    requires WellTyped(Select(c, t, e))
    ensures WellTyped(BuildSelect(c, t, e)) && TypeOf(BuildSelect(c, t, e)) == TypeOf(t)
    ensures Eval(BuildSelect(c, t, e), v) == Eval(Select(c, t, e), v)
            <==> (SwappedArms(c, t, e) ==> Eval(t.thn, v) == Eval(t.els, v))
  {
    if !EarlierSelectRule(c, t, e) {
      NestedSelectExact(c, t, e, v);
      hide Eval, WellTyped, BuildSelect;
    } else if !IsBoolLit(c) && t != e && (IsBoolLit(e) || IsBoolLit(t)) {
      BooleanSelectSound(c, t, e, v);
      hide Eval, WellTyped, BuildSelect;
    } else {
      hide BuildAnd, BuildOr, BuildNot;
    }
  }

  lemma {:induction false} SelectNode(c: Expr, t: Expr, e: Expr, v: Valuation)
    requires IsFormula(c) && WellTyped(t) && WellTyped(e) && TypeOf(t) == TypeOf(e)
    ensures WellTyped(Select(c, t, e)) && TypeOf(Select(c, t, e)) == TypeOf(t)
    ensures Eval(Select(c, t, e), v) == if Holds(c, v) then Eval(t, v) else Eval(e, v)
  {
  }

  lemma {:induction false} SwapShape(c: Expr, t: Expr, v: Valuation)
    requires IsFormula(c) && t.Select? && WellTyped(t)
    ensures var built := Select(BuildAnd([c, BuildNot(t.cond)]), t.thn, t.els);
            && WellTyped(built) && TypeOf(built) == TypeOf(t)
            && (Eval(built, v) == Eval(Select(c, t, t.thn), v) <==> Eval(t.thn, v) == Eval(t.els, v))
  {
    SelectNode(t.cond, t.thn, t.els, v);
    SelectNode(c, t, t.thn, v);
    NotSound(t.cond, v);
    assert Holds(Not(t.cond), v) <==> !Holds(t.cond, v);
    AndPairSound(c, BuildNot(t.cond), v);
    SelectNode(BuildAnd([c, BuildNot(t.cond)]), t.thn, t.els, v);
    hide Eval, WellTyped, BuildAnd, BuildNot;
  }

  /** With the arms in the order of the comment the nested-select rule would keep the value. */
  lemma {:induction false} UnswappedArmsSound(c: Expr, t: Expr, v: Valuation)
    requires IsFormula(c) && t.Select? && WellTyped(t)
    ensures var built := Select(BuildAnd([c, BuildNot(t.cond)]), t.els, t.thn);
            WellTyped(built) && TypeOf(built) == TypeOf(t) && Eval(built, v) == Eval(Select(c, t, t.thn), v)
  {
    SelectNode(t.cond, t.thn, t.els, v);
    SelectNode(c, t, t.thn, v);
    NotSound(t.cond, v);
    assert Holds(Not(t.cond), v) <==> !Holds(t.cond, v);
    AndPairSound(c, BuildNot(t.cond), v);
    SelectNode(BuildAnd([c, BuildNot(t.cond)]), t.els, t.thn, v);
    hide Eval, WellTyped, BuildAnd, BuildNot;
  }

  lemma {:induction false} ThenShape(c: Expr, t: Expr, v: Valuation)
    requires IsFormula(c) && t.Select? && WellTyped(t)
    ensures var built := Select(And([c, t.cond]), t.thn, t.els);
            WellTyped(built) && TypeOf(built) == TypeOf(t) && Eval(built, v) == Eval(Select(c, t, t.els), v)
  {
    PairMeaning(c, t.cond, v);
    SelectNode(And([c, t.cond]), t.thn, t.els, v);
    SelectNode(c, t, t.els, v);
    SelectNode(t.cond, t.thn, t.els, v);
    hide Eval, WellTyped;
  }

  lemma {:induction false} ElseShape(c: Expr, e: Expr, v: Valuation)
    requires IsFormula(c) && e.Select? && WellTyped(e)
    ensures var built := Select(Or([c, e.cond]), e.thn, e.els);
            WellTyped(built) && TypeOf(built) == TypeOf(e) && Eval(built, v) == Eval(Select(c, e.thn, e), v)
  {
    PairMeaning(c, e.cond, v);
    SelectNode(Or([c, e.cond]), e.thn, e.els, v);
    SelectNode(c, e.thn, e, v);
    SelectNode(e.cond, e.thn, e.els, v);
    hide Eval, WellTyped;
  }

  lemma {:induction false} NestedSelectExact(c: Expr, t: Expr, e: Expr, v: Valuation)
    requires WellTyped(Select(c, t, e)) && !EarlierSelectRule(c, t, e)
    ensures WellTyped(BuildSelect(c, t, e)) && TypeOf(BuildSelect(c, t, e)) == TypeOf(t)
    ensures Eval(BuildSelect(c, t, e), v) == Eval(Select(c, t, e), v)
            <==> (SwappedArms(c, t, e) ==> Eval(t.thn, v) == Eval(t.els, v))
  {
    SelectNode(c, t, e, v);
    if t.Select? && e == t.thn {
      SwapShape(c, t, v);
    } else if t.Select? && e == t.els {
      ThenShape(c, t, v);
    } else if e.Select? && t == e.thn {
      ElseShape(c, e, v);
    }
    hide Eval, WellTyped, BuildAnd, BuildNot, BuildOr;
  }

  lemma {:induction false} PairMeaning(a: Expr, b: Expr, v: Valuation)
    requires IsFormula(a) && IsFormula(b)
    ensures IsFormula(And([a, b])) && (Holds(And([a, b]), v) <==> Holds(a, v) && Holds(b, v))
    ensures IsFormula(Or([a, b])) && (Holds(Or([a, b]), v) <==> Holds(a, v) || Holds(b, v))
  {
    assert a in [a, b] && b in [a, b];
  }

  lemma {:induction false} BooleanSelectSound(c: Expr, t: Expr, e: Expr, v: Valuation)
    requires WellTyped(Select(c, t, e)) && !IsBoolLit(c) && t != e && (IsBoolLit(e) || IsBoolLit(t))
    ensures IsFormula(BuildSelect(c, t, e)) && Eval(BuildSelect(c, t, e), v) == Eval(Select(c, t, e), v)
  {
    TypeSoundness(if IsBoolLit(e) then t else e, v);
    if e == False() {
      AndPairSound(c, t, v);
    } else if e == True() {
      NotSound(c, v);
      OrPairSound(BuildNot(c), t, v);
    } else if t == True() {
      OrPairSound(c, e, v);
    } else {
      NotSound(c, v);
      AndPairSound(BuildNot(c), e, v);
    }
    assert Eval(Select(c, t, e), v) == if Holds(c, v) then Eval(t, v) else Eval(e, v);
    assert IsBoolLit(t) ==> Eval(t, v) == t.value;
    assert IsBoolLit(e) ==> Eval(e, v) == e.value;
    assert Holds(Not(c), v) <==> !Holds(c, v);
    hide Eval, BuildAnd, BuildOr, BuildNot, WellTyped;
  }

  // ---- Arithmetic and bit-vector operations ----

  predicate IsCommutative(kind: BinaryKind) {
    match kind
    case Arithmetic(k) => k.Add? || k.Mul?
    case Bitwise(k) => k.BvAnd? || k.BvOr? || k.BvXor?
    case Compare(k) => k.Eq? || k.NotEq?
    case _ => false
  }

  /** The builder methods that try to fold; integer division stays as it is. */
  predicate IsFolded(kind: BinaryKind) {
    (kind.Arithmetic? && (kind.arith.Add? || kind.arith.Sub? || kind.arith.Mul?)) || kind.Bitwise?
  }

  predicate IsNumber(e: Expr, n: nat) {
    e.Lit? && (e.value == IntVal(n) || (e.value.BvVal? && e.value.bits == n))
  }

  predicate IsAllOnes(e: Expr) { IsBvLit(e) && e.value.bits == Pow2(e.value.width) - 1 }

  predicate IsDivision(kind: BinaryKind) { kind.Bitwise? && (kind.bit.BvSDiv? || kind.bit.BvUDiv?) }

  /** `Aborts` stands for a division of literals that the bit-vector library refuses. */
  datatype Folded = None | Some(expr: Expr) | Aborts

  /** The rules for a literal right operand. */
  function FoldRight(kind: BinaryKind, left: Expr, right: Expr): Folded {
    match kind
    case Arithmetic(k) =>
      if (k.Add? || k.Sub?) && IsNumber(right, 0) then Some(left)
      else if k.Mul? && IsNumber(right, 0) then Some(right)
      else if k.Mul? && IsNumber(right, 1) then Some(left)
      else None
    case Bitwise(k) =>
      if (k.BvSDiv? || k.BvUDiv?) && IsNumber(right, 1) then Some(left)
      else if (k.BvSRem? || k.BvURem?) && IsNumber(right, 1) then Some(Lit(BvVal(right.value.Width(), 0)))
      else if k.BvAnd? && IsNumber(right, 0) then Some(right)
      else if k.BvAnd? && IsAllOnes(right) then Some(left)
      else if (k.BvOr? || k.BvXor?) && IsNumber(right, 0) then Some(left)
      else if k.BvOr? && IsAllOnes(right) then Some(right)
      else None
    case _ => None
  }

  /** Zero divided, reduced or shifted by anything folds to zero. */
  predicate FoldsZero(kind: BinaryKind, left: Expr) {
    kind.Bitwise? && !kind.bit.BvAnd? && !kind.bit.BvOr? && !kind.bit.BvXor? && IsBvLit(left) && IsNumber(left, 0)
  }

  function FoldBinary(kind: BinaryKind, left: Expr, right: Expr): Folded {
    if right.Lit? && FoldRight(kind, left, right).Some? then FoldRight(kind, left, right)
    else if !right.Lit? && left.Lit? && IsCommutative(kind) then FoldRight(kind, right, left)
    else if ZeroDivisor(kind, left, right) then Aborts
    else if left.Lit? && right.Lit? then Some(Lit(EvalBinary(kind, left.value, right.value)))
    else if FoldsZero(kind, left) then Some(left)
    else None
  }

  /** A bit-vector literal divided, or reduced, by a literal zero. */
  predicate ZeroDivisor(kind: BinaryKind, left: Expr, right: Expr) {
    && kind.Bitwise? && (kind.bit.BvSDiv? || kind.bit.BvUDiv? || kind.bit.BvSRem? || kind.bit.BvURem?)
    && IsBvLit(left) && IsBvLit(right) && IsNumber(right, 0)
  }

  /** The built expression, unless building it aborts. */
  function BuildArithmetic(kind: BinaryKind, left: Expr, right: Expr): Folded {
    var folded := FoldBinary(kind, left, right);
    if folded.None? then Some(Binary(kind, left, right)) else folded
  }

  /** A zero literal divided by an expression that is not a literal. */
  predicate ZeroDividend(kind: BinaryKind, left: Expr, right: Expr) {
    IsDivision(kind) && FoldsZero(kind, left) && !right.Lit?
  }

  lemma {:induction false} ArithmeticUnits(k: ArithmeticKind, left: Expr, right: Expr, a: Value, t: Type)
    requires right.Lit? && a.HasType(t) && right.value.HasType(t) && !t.BoolType?
    requires FoldRight(Arithmetic(k), left, right).Some?
    ensures var b := right.value; var r := FoldRight(Arithmetic(k), left, right).expr;
            (r == left && EvalBinary(Arithmetic(k), a, b) == a) || (r == right && EvalBinary(Arithmetic(k), a, b) == b)
  {
    var b := right.value;
    var x, y := if a.BvVal? then a.bits else a.i, if a.BvVal? then b.bits else b.i;
    assert (k.Add? || k.Sub?) && y == 0 ==> EvalArithmetic(k, x, y) == x;
    assert k.Mul? && y == 0 ==> EvalArithmetic(k, x, y) == y;
    assert k.Mul? && y == 1 ==> EvalArithmetic(k, x, y) == x;
    if a.BvVal? {
      SignedTruncate(a.width, a.bits);
      SignedTruncate(a.width, b.bits);
    }
    hide Pow2, Truncate, EvalArithmetic;
  }

  lemma ZeroBits(a: nat)
    ensures BitAnd(a, 0) == 0 && BitOr(a, 0) == a && BitXor(a, 0) == a
  {
  }

  lemma {:induction false} BitwiseUnits(k: BitKind, left: Expr, right: Expr, a: Value)
    requires right.Lit? && a.HasType(TypeOf(right)) && right.value.HasType(TypeOf(right))
    requires a.BvVal? && FoldRight(Bitwise(k), left, right).Some?
    ensures var b := right.value; var r := FoldRight(Bitwise(k), left, right).expr;
            || (r == left && EvalBinary(Bitwise(k), a, b) == a)
            || (r == right && EvalBinary(Bitwise(k), a, b) == b)
            || (r == Lit(BvVal(a.width, 0)) && EvalBinary(Bitwise(k), a, b) == BvVal(a.width, 0))
  {
    hide Pow2, UDiv, SDiv, URem, SRem, BitVectors.Shl, BitVectors.LShr, BitVectors.AShr, BitAnd, BitOr, BitXor;
    var b := right.value;
    AllOnes(a.width, a.bits);
    ZeroBits(a.bits);
    if b.bits == 1 {
      DivideByOne(a.width, a.bits);
    }
  }

  lemma {:induction false} FoldRightSound(kind: BinaryKind, left: Expr, right: Expr, v: Valuation)
    requires IsFolded(kind) && WellTyped(Binary(kind, left, right)) && right.Lit?
    requires FoldRight(kind, left, right).Some?
    ensures var r := FoldRight(kind, left, right).expr;
            WellTyped(r) && TypeOf(r) == TypeOf(left) && Eval(r, v) == Eval(Binary(kind, left, right), v)
  {
    TypeSoundness(left, v);
    var a, b := Eval(left, v), right.value;
    assert Eval(Binary(kind, left, right), v) == EvalBinary(kind, a, b);
    assert Eval(right, v) == b && b.HasType(TypeOf(right));
    var zero := Lit(BvVal(b.Width(), 0));
    assert WellTyped(zero) && TypeOf(zero) == BvType(b.Width()) && Eval(zero, v) == BvVal(b.Width(), 0);
    if kind.Arithmetic? {
      ArithmeticUnits(kind.arith, left, right, a, TypeOf(left));
    } else {
      BitwiseUnits(kind.bit, left, right, a);
    }
    hide Eval, EvalBinary, WellTyped, FoldRight;
  }

  lemma {:induction false} FoldCommutes(kind: BinaryKind, a: Value, b: Value, t: Type)
    requires IsFolded(kind) && IsCommutative(kind) && a.HasType(t) && b.HasType(t) && BinaryTyped(kind, t, t)
    ensures EvalBinary(kind, a, b) == EvalBinary(kind, b, a)
  {
    if a.BvVal? {
      BitwiseCommutes(a.bits, b.bits);
      hide Pow2, Truncate, BitAnd, BitOr, BitXor;
    }
  }

  lemma {:induction false} SwappedFoldSound(kind: BinaryKind, left: Expr, right: Expr, v: Valuation)
    requires IsFolded(kind) && WellTyped(Binary(kind, left, right)) && left.Lit? && IsCommutative(kind)
    requires FoldRight(kind, right, left).Some?
    ensures var r := FoldRight(kind, right, left).expr;
            WellTyped(r) && TypeOf(r) == TypeOf(left) && Eval(r, v) == Eval(Binary(kind, left, right), v)
  {
    TypeSoundness(left, v);
    TypeSoundness(right, v);
    FoldCommutes(kind, Eval(left, v), Eval(right, v), TypeOf(left));
    assert Eval(Binary(kind, left, right), v) == EvalBinary(kind, Eval(left, v), Eval(right, v));
    assert Eval(Binary(kind, right, left), v) == EvalBinary(kind, Eval(right, v), Eval(left, v));
    FoldRightSound(kind, right, left, v);
    hide Eval, EvalBinary, WellTyped, FoldRight;
  }

  lemma {:induction false} FoldsZeroExact(k: BitKind, left: Expr, b: Value)
    requires FoldsZero(Bitwise(k), left) && b.HasType(BvType(left.value.width))
    ensures left.value == EvalBinary(Bitwise(k), left.value, b)
            <==> (k.BvSDiv? || k.BvUDiv? ==> b.bits != 0 || left.value.width == 0)
  {
    var w := left.value.width;
    ZeroOnTheLeft(w, b.bits);
    PositivePower(w);
    hide Pow2, UDiv, SDiv, URem, SRem, BitVectors.Shl, BitVectors.LShr, BitVectors.AShr, BitAnd, BitOr, BitXor;
  }

  lemma {:induction false} PositivePower(w: nat)
    ensures Pow2(w) - 1 == 0 <==> w == 0
  {
    if w > 0 {
      assert Pow2(w) == 2 * Pow2(w - 1);
    }
  }

  /** Folding arithmetic gives an expression of the same value exactly when it neither divides a
      literal by a literal zero nor decides `0 / Y` for a divisor that turns out to be zero. */
  lemma {:induction false} ArithmeticExact(kind: BinaryKind, left: Expr, right: Expr, v: Valuation)
    requires IsFolded(kind) && WellTyped(Binary(kind, left, right))
    ensures var built := BuildArithmetic(kind, left, right);
            && (built.Aborts? <==> ZeroDivisor(kind, left, right))
            && (built.Some? ==> WellTyped(built.expr) && TypeOf(built.expr) == TypeOf(left))
            && (built.Some? && Eval(built.expr, v) == Eval(Binary(kind, left, right), v)
                <==> !ZeroDivisor(kind, left, right) && (ZeroDividend(kind, left, right) ==> Eval(right, v).AsBits() != 0 || left.value.width == 0))
  {
    if right.Lit? && FoldRight(kind, left, right).Some? {
      FoldRightSound(kind, left, right, v);
      hide Eval, EvalBinary, WellTyped, FoldRight;
    } else if !right.Lit? && left.Lit? && IsCommutative(kind) {
      if FoldRight(kind, right, left).Some? {
        SwappedFoldSound(kind, left, right, v);
      }
      hide Eval, EvalBinary, WellTyped, FoldRight;
    } else if ZeroDivisor(kind, left, right) {
      hide Eval, EvalBinary, WellTyped, FoldRight;
    } else if left.Lit? && right.Lit? {
      BinarySound(kind, left.value, right.value, TypeOf(left), TypeOf(right));
      hide EvalBinary, FoldRight;
    } else if FoldsZero(kind, left) {
      TypeSoundness(right, v);
      assert Eval(Binary(kind, left, right), v) == EvalBinary(kind, left.value, Eval(right, v));
      FoldsZeroExact(kind.bit, left, Eval(right, v));
      hide EvalBinary, FoldRight;
    } else {
      hide Eval, EvalBinary, WellTyped, FoldRight;
    }
  }

  // ---- Widening, extraction and concatenation ----

  function BuildExtend(signed: bool, op: Expr, w: nat): Expr {
    if IsBvLit(op) then Lit(EvalExtend(signed, op.value, w)) else Extend(signed, op, w)
  }

  function BuildExtract(op: Expr, offset: nat, w: nat): Expr {
    if IsBvLit(op) then Lit(EvalExtract(op.value, offset, w))
    else if op.Undef? then Undef(BvType(w))
    else Extract(op, offset, w)
  }

  /** Literals are widened, the left one is shifted up and the two are or-ed together. */
  function BuildConcat(left: Expr, right: Expr): Expr {
    if IsBvLit(left) && IsBvLit(right) then
      var w := left.value.width + right.value.width;
      Lit(BvVal(w, BitOr(BitVectors.Shl(w, left.value.bits, right.value.width), right.value.bits)))
    else if left.Undef? && right.Undef? && left.typ.BvType? && right.typ.BvType? then
      Undef(BvType(left.typ.width + right.typ.width))
    else Binary(BvConcat, left, right)
  }

  lemma {:induction false} EvenHalves(m: nat)
    ensures (2 * m) / 2 == m && (2 * m) % 2 == 0
  {
  }

  lemma {:induction false} ShiftedOr(a: nat, b: nat, n: nat)
    requires b < Pow2(n)
    ensures BitOr(a * Pow2(n), b) == a * Pow2(n) + b
  {
    if n > 0 && a != 0 && b != 0 {
      var q := Pow2(n - 1);
      var m := a * q;
      assert Pow2(n) == 2 * q;
      assert a * (2 * q) == 2 * m;
      ShiftedOr(a, b / 2, n - 1);
      EvenHalves(m);
      assert m != 0;
      hide Pow2;
    }
  }

  lemma {:induction false} ConcatSound(left: Expr, right: Expr, v: Valuation)
    requires WellTyped(Binary(BvConcat, left, right))
    ensures WellTyped(BuildConcat(left, right)) && TypeOf(BuildConcat(left, right)) == TypeOf(Binary(BvConcat, left, right))
    ensures Eval(BuildConcat(left, right), v) == Eval(Binary(BvConcat, left, right), v)
  {
    hide Pow2, BitOr, Truncate;
    if IsBvLit(left) && IsBvLit(right) {
      ConcatOfLiterals(left.value.width, right.value.width, left.value.bits, right.value.bits);
    }
  }

  lemma {:induction false} ConcatOfLiterals(m: nat, n: nat, a: nat, b: nat)
    requires a < Pow2(m) && b < Pow2(n)
    ensures BitOr(BitVectors.Shl(m + n, a, n), b) == a * Pow2(n) + b < Pow2(m + n)
  {
    hide Pow2, BitOr;
    ConcatBound(a, 0, m, n);
    ConcatBound(a, b, m, n);
    SignedTruncate(m + n, a * Pow2(n));
    ShiftedOr(a, b, n);
  }

  lemma {:induction false} ExtractSound(op: Expr, offset: nat, w: nat, v: Valuation)
    requires WellTyped(Extract(op, offset, w))
    ensures WellTyped(BuildExtract(op, offset, w)) && TypeOf(BuildExtract(op, offset, w)) == BvType(w)
    ensures Eval(BuildExtract(op, offset, w), v) == Eval(Extract(op, offset, w), v)
  {
    if op.Undef? {
      assert 0 / Pow2(offset) == 0;
      SignedTruncate(w, 0);
    }
  }

  // ---- The inexact rules, on concrete inputs ----

  /** `5 / 0` on eight bits is an expression with a value, yet building it aborts. */
  lemma {:induction false} LiteralDivisionAborts()
    ensures var five, zero := Lit(BvVal(8, 5)), Lit(BvVal(8, 0));
            && WellTyped(Binary(Bitwise(BvUDiv), five, zero)) && Eval(Binary(Bitwise(BvUDiv), five, zero), map[]) == BvVal(8, 255)
            && BuildArithmetic(Bitwise(BvUDiv), five, zero).Aborts?
  {
    assert Pow2(8) == 256 by { PowerOfEight(); }
  }

  /** `0 / y` on eight bits folds to 0, but where `y` is 0 its value is another one. */
  lemma {:induction false} ZeroDividendDiffers()
    ensures var k, zero, y := Bitwise(BvUDiv), Lit(BvVal(8, 0)), VarRef(Variable(2, BvType(8)));
            && WellTyped(Binary(k, zero, y)) && BuildArithmetic(k, zero, y) == Some(zero)
            && Eval(Binary(k, zero, y), map[]) != Eval(zero, map[])
  {
    assert Pow2(8) == 256 by { PowerOfEight(); }
    ArithmeticExact(Bitwise(BvUDiv), Lit(BvVal(8, 0)), VarRef(Variable(2, BvType(8))), map[]);
  }

  lemma PowerOfEight()
    ensures Pow2(8) == 256
  {
    assert Pow2(4) == 16;
    assert Pow2(6) == 64;
  }

  const FLAG := Variable(0, BoolType)
  const CHOICE := Variable(1, BoolType)

  /** With C1 and C2 both true, `Select(C1, Select(C2, 1, 2), 1)` is 1 but the built select is 2. */
  lemma {:induction false} SwappedArmsDiffer()
    ensures var c1, c2 := VarRef(FLAG), VarRef(CHOICE);
            var v := map[FLAG := BoolVal(true), CHOICE := BoolVal(true)];
            var inner := Select(c2, IntLit(1), IntLit(2));
            && Eval(Select(c1, inner, IntLit(1)), v) == IntVal(1)
            && Eval(BuildSelect(c1, inner, IntLit(1)), v) == IntVal(2)
  {
    var c1, c2 := VarRef(FLAG), VarRef(CHOICE);
    var v := map[FLAG := BoolVal(true), CHOICE := BoolVal(true)];
    AndPairSound(c1, BuildNot(c2), v);
    NotSound(c2, v);
  }

  /** The builder itself produces an equal-armed select, which `Eq` then takes for its condition. */
  lemma {:induction false} EqualArmsDiffer()
    ensures var c := VarRef(FLAG);
            var v := map[FLAG := BoolVal(false)];
            var s := BuildSelect(c, Select(c, IntLit(1), IntLit(2)), IntLit(1));
            && s == Select(c, IntLit(1), IntLit(1))
            && Eval(Binary(Compare(Eq), s, IntLit(1)), v) == BoolVal(true)
            && Eval(BuildEq(s, IntLit(1)), v) == BoolVal(false)
  {
  }
}
