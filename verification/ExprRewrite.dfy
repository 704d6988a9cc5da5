/** Variable rewriting (src/Core/Expr/ExprRewrite.cpp): an expression is rebuilt bottom-up through
    an expression builder while mapped variables are replaced. Rewriting is simultaneous
    substitution, with the plain builder always and with the folding builder whenever none of its
    inexact rules is met on the way up. */
module ExprRewrite {
  import opened Exprs
  import opened FoldingBuilder

  type Rewriting = map<Variable, Expr>

  datatype Builder = Plain | Folding

  function MakeCompare(b: Builder, k: CompareKind, l: Expr, r: Expr): Expr {
    match k
    case Eq => if b.Plain? then Binary(Compare(Eq), l, r) else BuildEq(l, r)
    case NotEq => if b.Plain? then Not(Binary(Compare(Eq), l, r)) else BuildNotEq(l, r)
    case Lt => if b.Plain? then Binary(Compare(Lt), l, r) else BuildLt(l, r)
    case LtEq => if b.Plain? then Binary(Compare(LtEq), l, r) else BuildLtEq(l, r)
    case Gt => if b.Plain? then Binary(Compare(Gt), l, r) else BuildGt(l, r)
    case GtEq => if b.Plain? then Binary(Compare(GtEq), l, r) else BuildGtEq(l, r)
    case _ => Binary(Compare(k), l, r)
  }

  function MakeBinary(b: Builder, kind: BinaryKind, l: Expr, r: Expr): Expr {
    match kind
    case Compare(k) => MakeCompare(b, k, l, r)
    case Imply => if b.Plain? then Binary(kind, l, r) else BuildImply(l, r)
    case BvConcat => if b.Plain? then Binary(kind, l, r) else BuildConcat(l, r)
    case _ => if b.Plain? || !IsFolded(kind) then Binary(kind, l, r) else ArithmeticResult(kind, l, r)
  }

  /** An aborted build has no result; the walk never gets past it, so what stands here is immaterial. */
  function ArithmeticResult(kind: BinaryKind, l: Expr, r: Expr): Expr {
    var built := BuildArithmetic(kind, l, r);
    if built.Some? then built.expr else Binary(kind, l, r)
  }

  function RewriteAll(b: Builder, ops: seq<Expr>, s: Rewriting): (r: seq<Expr>)
    ensures |r| == |ops|
    ensures forall i | 0 <= i < |ops| :: r[i] == Rewrite(b, ops[i], s)
    decreases ops, 0
  {
    if ops == [] then [] else [Rewrite(b, ops[0], s)] + RewriteAll(b, ops[1..], s)
  }

  /** The post-order walk: operands first, then the node through the builder. */
  function Rewrite(b: Builder, e: Expr, s: Rewriting): Expr
    decreases e, 1
  {
    match e
    case Lit(_) => e
    case Undef(_) => e
    case VarRef(x) => if x in s then s[x] else e
    case Not(op) => if b.Plain? then Not(Rewrite(b, op, s)) else BuildNot(Rewrite(b, op, s))
    case Extend(signed, op, w) => if b.Plain? then Extend(signed, Rewrite(b, op, s), w) else BuildExtend(signed, Rewrite(b, op, s), w)
    case Extract(op, o, w) => if b.Plain? then Extract(Rewrite(b, op, s), o, w) else BuildExtract(Rewrite(b, op, s), o, w)
    case Binary(kind, l, r) => MakeBinary(b, kind, Rewrite(b, l, s), Rewrite(b, r, s))
    case And(ops) => var r := RewriteAll(b, ops, s); if b.Plain? then And(r) else BuildAnd(r)
    case Or(ops) => var r := RewriteAll(b, ops, s); if b.Plain? then Or(r) else BuildOr(r)
    case Select(c, t, f) =>
      var c', t', f' := Rewrite(b, c, s), Rewrite(b, t, s), Rewrite(b, f, s);
      if b.Plain? then Select(c', t', f') else BuildSelect(c', t', f')
  }

  /** What a variable stands for under a rewriting. */
  function Image(s: Rewriting, x: Variable): Expr { if x in s then s[x] else VarRef(x) }

  /** `w` gives the image of each of `xs` the value `v` gives the variable itself. */
  ghost predicate Mirrors(w: Valuation, s: Rewriting, v: Valuation, xs: set<Variable>) {
    forall x | x in xs :: Eval(Image(s, x), w) == Get(v, x)
  }

  /** Rewriting with the plain builder is simultaneous substitution, on every expression. */
  lemma {:induction false} PlainRewrite(e: Expr, s: Rewriting, w: Valuation, v: Valuation)
    requires Mirrors(w, s, v, Vars(e))
    ensures Eval(Rewrite(Plain, e, s), w) == Eval(e, v)
    decreases e
  {
    match e
    case Lit(_) =>
    case Undef(_) =>
    case VarRef(x) => assert x in Vars(e);
    case Not(op) => PlainRewrite(op, s, w, v);
    case Extend(_, op, _) => PlainRewrite(op, s, w, v);
    case Extract(op, _, _) => PlainRewrite(op, s, w, v);
    case Binary(kind, l, r) =>
      PlainRewrite(l, s, w, v);
      PlainRewrite(r, s, w, v);
      PlainBinary(kind, Rewrite(Plain, l, s), Rewrite(Plain, r, s), w);
      hide EvalBinary, MakeBinary;
    case And(ops) =>
      var r := RewriteAll(Plain, ops, s);
      forall i | 0 <= i < |ops| ensures Eval(r[i], w) == Eval(ops[i], v) {
        VarsOfOperand(ops, ops[i]);
        PlainRewrite(ops[i], s, w, v);
      }
      SameVerdicts(r, w, ops, v);
      hide RewriteAll;
    case Or(ops) =>
      var r := RewriteAll(Plain, ops, s);
      forall i | 0 <= i < |ops| ensures Eval(r[i], w) == Eval(ops[i], v) {
        VarsOfOperand(ops, ops[i]);
        PlainRewrite(ops[i], s, w, v);
      }
      SameVerdicts(r, w, ops, v);
      hide RewriteAll;
    case Select(c, t, f) =>
      PlainRewrite(c, s, w, v);
      PlainRewrite(t, s, w, v);
      PlainRewrite(f, s, w, v);
  }

  lemma {:induction false} PlainBinary(kind: BinaryKind, l: Expr, r: Expr, w: Valuation)
    ensures Eval(MakeBinary(Plain, kind, l, r), w) == EvalBinary(kind, Eval(l, w), Eval(r, w))
  {
    if kind == Compare(NotEq) {
      assert Eval(Binary(Compare(Eq), l, r), w) == BoolVal(Eval(l, w) == Eval(r, w));
    }
  }

  lemma {:induction false} AllByIndex(ops: seq<Expr>, v: Valuation)
    ensures Eval(And(ops), v) == BoolVal(forall i | 0 <= i < |ops| :: Holds(ops[i], v))
    ensures Eval(Or(ops), v) == BoolVal(exists i | 0 <= i < |ops| :: Holds(ops[i], v))
  {
    assert Eval(And(ops), v) == BoolVal(forall o | o in ops :: Holds(o, v));
    assert Eval(Or(ops), v) == BoolVal(exists o | o in ops :: Holds(o, v));
    hide Eval;
    if o :| o in ops && Holds(o, v) { var i :| 0 <= i < |ops| && ops[i] == o; }
  }

  lemma {:induction false} SameVerdicts(a: seq<Expr>, w: Valuation, b: seq<Expr>, v: Valuation)
    requires |a| == |b| && forall i | 0 <= i < |a| :: Eval(a[i], w) == Eval(b[i], v)
    ensures Eval(And(a), w) == Eval(And(b), v) && Eval(Or(a), w) == Eval(Or(b), v)
  {
    hide Eval;
    AllByIndex(a, w);
    AllByIndex(b, v);
    assert forall i | 0 <= i < |a| :: Holds(a[i], w) == Holds(b[i], v);
  }

  // ---- The folding builder ----

  ghost predicate TypedRewriting(s: Rewriting) {
    forall x | x in s :: WellTyped(s[x]) && TypeOf(s[x]) == x.typ
  }

  /** Building a node whose operands were already rebuilt neither aborts nor meets an inexact rule. */
  predicate ExactNode(kind: BinaryKind, l: Expr, r: Expr) {
    match kind
    case Compare(Eq) => !EqualArms(l, r)
    case Compare(NotEq) => !EqualArms(l, r)
    case Compare(_) => true
    case Imply => true
    case BvConcat => true
    case _ => IsFolded(kind) ==> !ZeroDividend(kind, l, r) && !ZeroDivisor(kind, l, r)
  }

  predicate Exact(e: Expr, s: Rewriting)
    decreases e
  {
    match e
    case Not(op) => Exact(op, s)
    case Extend(_, op, _) => Exact(op, s)
    case Extract(op, _, _) => Exact(op, s)
    case Binary(kind, l, r) => Exact(l, s) && Exact(r, s) && ExactNode(kind, Rewrite(Folding, l, s), Rewrite(Folding, r, s))
    case And(ops) => forall o | o in ops :: Exact(o, s)
    case Or(ops) => forall o | o in ops :: Exact(o, s)
    case Select(c, t, f) =>
      && Exact(c, s) && Exact(t, s) && Exact(f, s)
      && !SwappedArms(Rewrite(Folding, c, s), Rewrite(Folding, t, s), Rewrite(Folding, f, s))
    case _ => true
  }

  lemma {:induction false} CompareBuilt(k: CompareKind, l: Expr, r: Expr, w: Valuation)
    requires WellTyped(Binary(Compare(k), l, r)) && ExactNode(Compare(k), l, r)
    ensures IsFormula(MakeCompare(Folding, k, l, r))
    ensures Eval(MakeCompare(Folding, k, l, r), w) == Eval(Binary(Compare(k), l, r), w)
  {
    match k
    case Eq => EqExact(l, r, w); hide BuildEq, Eval, WellTyped;
    case NotEq =>
      EqExact(l, r, w);
      NotSound(BuildEq(l, r), w);
      assert Eval(Binary(Compare(Eq), l, r), w) == BoolVal(Eval(l, w) == Eval(r, w));
      assert Eval(Binary(Compare(NotEq), l, r), w) == BoolVal(Eval(l, w) != Eval(r, w));
      assert Eval(Not(BuildEq(l, r)), w) == BoolVal(!Eval(BuildEq(l, r), w).IsTrue());
      hide BuildEq, BuildNot, Eval, WellTyped;
    case Lt => LtSound(l, r, w); hide BuildLt, Eval, WellTyped;
    case LtEq => LtEqSound(l, r, w); hide BuildLtEq, Eval, WellTyped;
    case Gt => GtSound(l, r, w); hide BuildGt, Eval, WellTyped;
    case GtEq => GtEqSound(l, r, w); hide BuildGtEq, Eval, WellTyped;
    case _ => hide Eval;
  }

  lemma {:induction false} BinaryBuilt(kind: BinaryKind, l: Expr, r: Expr, w: Valuation)
    requires WellTyped(Binary(kind, l, r)) && ExactNode(kind, l, r)
    ensures var m := MakeBinary(Folding, kind, l, r);
            WellTyped(m) && TypeOf(m) == TypeOf(Binary(kind, l, r)) && Eval(m, w) == Eval(Binary(kind, l, r), w)
  {
    match kind
    case Compare(k) => CompareBuilt(k, l, r, w); hide Eval, WellTyped, MakeCompare;
    case Imply => ImplySound(l, r, w); hide Eval, BuildImply;
    case BvConcat => ConcatSound(l, r, w); hide Eval, WellTyped, BuildConcat;
    case _ =>
      if IsFolded(kind) {
        ArithmeticExact(kind, l, r, w);
      }
      hide Eval, WellTyped, BuildArithmetic, ZeroDivisor;
  }

  lemma {:induction false} ExtendBuilt(signed: bool, op: Expr, w: nat, v: Valuation)
    requires WellTyped(Extend(signed, op, w))
    ensures var m := BuildExtend(signed, op, w);
            WellTyped(m) && TypeOf(m) == BvType(w) && Eval(m, v) == Eval(Extend(signed, op, w), v)
  {
  }

  ghost predicate SameMeaning(a: Expr, w: Valuation, e: Expr, v: Valuation) {
    WellTyped(a) && TypeOf(a) == TypeOf(e) && Eval(a, w) == Eval(e, v)
  }

  lemma {:induction false} UnaryRebuilt(op': Expr, op: Expr, w: Valuation, v: Valuation)
    requires SameMeaning(op', w, op, v)
    ensures IsFormula(op) ==> SameMeaning(BuildNot(op'), w, Not(op), v)
    ensures forall signed, n | WellTyped(Extend(signed, op, n)) :: SameMeaning(BuildExtend(signed, op', n), w, Extend(signed, op, n), v)
    ensures forall offset, n | WellTyped(Extract(op, offset, n)) :: SameMeaning(BuildExtract(op', offset, n), w, Extract(op, offset, n), v)
  {
    if IsFormula(op) {
      NotSound(op', w);
    }
    forall signed, n | WellTyped(Extend(signed, op, n)) ensures SameMeaning(BuildExtend(signed, op', n), w, Extend(signed, op, n), v) {
      ExtendBuilt(signed, op', n, w);
      hide BuildExtend, EvalExtend;
    }
    forall offset, n | WellTyped(Extract(op, offset, n)) ensures SameMeaning(BuildExtract(op', offset, n), w, Extract(op, offset, n), v) {
      ExtractSound(op', offset, n, w);
      hide BuildExtract, EvalExtract;
    }
    hide BuildNot;
  }

  lemma {:induction false} BinaryRebuilt(kind: BinaryKind, l': Expr, r': Expr, l: Expr, r: Expr, w: Valuation, v: Valuation)
    requires SameMeaning(l', w, l, v) && SameMeaning(r', w, r, v)
    requires WellTyped(Binary(kind, l, r)) && ExactNode(kind, l', r')
    ensures SameMeaning(MakeBinary(Folding, kind, l', r'), w, Binary(kind, l, r), v)
  {
    BinaryBuilt(kind, l', r', w);
    hide MakeBinary, EvalBinary, ExactNode;
  }

  lemma {:induction false} NaryRebuilt(ops': seq<Expr>, ops: seq<Expr>, w: Valuation, v: Valuation)
    requires |ops'| == |ops| && AllFormulas(ops') && forall i | 0 <= i < |ops| :: Eval(ops'[i], w) == Eval(ops[i], v)
    ensures SameMeaning(BuildAnd(ops'), w, And(ops), v) && SameMeaning(BuildOr(ops'), w, Or(ops), v)
  {
    AndSound(ops', w);
    OrSound(ops', w);
    SameVerdicts(ops', w, ops, v);
    hide BuildAnd, BuildOr, Eval;
  }

  lemma {:induction false} SelectRebuilt(c': Expr, t': Expr, f': Expr, c: Expr, t: Expr, f: Expr, w: Valuation, v: Valuation)
    requires SameMeaning(c', w, c, v) && SameMeaning(t', w, t, v) && SameMeaning(f', w, f, v)
    requires WellTyped(Select(c, t, f)) && !SwappedArms(c', t', f')
    ensures SameMeaning(BuildSelect(c', t', f'), w, Select(c, t, f), v)
  {
    SelectExact(c', t', f', w);
    SelectNode(c', t', f', w);
    SelectNode(c, t, f, v);
    hide BuildSelect, SwappedArms, Eval, WellTyped;
  }

  /** Rebuilding any well-typed expression bottom-up with the folding builder, with any typed
      substitution, keeps its type and its value under every valuation. */
  lemma {:induction false} FoldingRewrite(e: Expr, s: Rewriting, w: Valuation, v: Valuation)
    requires WellTyped(e) && TypedRewriting(s) && Exact(e, s) && Mirrors(w, s, v, Vars(e))
    ensures SameMeaning(Rewrite(Folding, e, s), w, e, v)
    decreases e
  {
    match e
    case Lit(_) =>
    case Undef(_) =>
    case VarRef(x) => assert x in Vars(e);
    case Not(op) => FoldingRewrite(op, s, w, v); UnaryRebuilt(Rewrite(Folding, op, s), op, w, v); hide Eval, BuildNot;
    case Extend(_, op, _) => FoldingRewrite(op, s, w, v); UnaryRebuilt(Rewrite(Folding, op, s), op, w, v); hide Eval, BuildExtend;
    case Extract(op, _, _) => FoldingRewrite(op, s, w, v); UnaryRebuilt(Rewrite(Folding, op, s), op, w, v); hide Eval, BuildExtract;
    case Binary(kind, l, r) =>
      FoldingRewrite(l, s, w, v);
      FoldingRewrite(r, s, w, v);
      BinaryRebuilt(kind, Rewrite(Folding, l, s), Rewrite(Folding, r, s), l, r, w, v);
      hide Eval, MakeBinary, ExactNode;
    case And(ops) => RewriteOps(ops, s, w, v); NaryRebuilt(RewriteAll(Folding, ops, s), ops, w, v); hide Eval, BuildAnd, RewriteAll;
    case Or(ops) => RewriteOps(ops, s, w, v); NaryRebuilt(RewriteAll(Folding, ops, s), ops, w, v); hide Eval, BuildOr, RewriteAll;
    case Select(c, t, f) =>
      FoldingRewrite(c, s, w, v);
      FoldingRewrite(t, s, w, v);
      FoldingRewrite(f, s, w, v);
      SelectRebuilt(Rewrite(Folding, c, s), Rewrite(Folding, t, s), Rewrite(Folding, f, s), c, t, f, w, v);
      hide Eval, BuildSelect, SwappedArms;
  }

  lemma {:induction false} RewriteOps(ops: seq<Expr>, s: Rewriting, w: Valuation, v: Valuation)
    requires forall o | o in ops :: IsFormula(o) && Exact(o, s)
    requires TypedRewriting(s) && Mirrors(w, s, v, VarsOfAll(ops))
    ensures AllFormulas(RewriteAll(Folding, ops, s))
    ensures forall i | 0 <= i < |ops| :: Eval(RewriteAll(Folding, ops, s)[i], w) == Eval(ops[i], v)
    decreases ops, 0
  {
    var r := RewriteAll(Folding, ops, s);
    forall i | 0 <= i < |ops| ensures IsFormula(r[i]) && Eval(r[i], w) == Eval(ops[i], v) {
      VarsOfOperand(ops, ops[i]);
      FoldingRewrite(ops[i], s, w, v);
    }
    hide RewriteAll, Eval;
    forall o | o in r ensures IsFormula(o) { var i :| 0 <= i < |r| && r[i] == o; }
  }

  /** The valuation in which every mapped variable has the value of its replacement. */
  function Substituted(v: Valuation, s: Rewriting): Valuation {
    v + map x | x in s :: Eval(s[x], v)
  }

  /** The rewritten expression under `v` has the value of the original under `v` updated, all at
      once, by the values of the mapped expressions. */
  lemma {:induction false} SimultaneousSubstitution(b: Builder, e: Expr, s: Rewriting, v: Valuation)
    requires TypedRewriting(s) && (b.Folding? ==> WellTyped(e) && Exact(e, s))
    ensures Eval(Rewrite(b, e, s), v) == Eval(e, Substituted(v, s))
  {
    forall x | x in Vars(e) ensures Eval(Image(s, x), v) == Get(Substituted(v, s), x) {
      if x in s {
        TypeSoundness(s[x], v);
      }
    }
    hide Rewrite;
    if b.Plain? {
      PlainRewrite(e, s, v, Substituted(v, s));
    } else {
      FoldingRewrite(e, s, v, Substituted(v, s));
    }
  }
}
