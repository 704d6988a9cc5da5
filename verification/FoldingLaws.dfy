/** What the folding builder achieves beyond keeping values: how conjunctions and disjunctions are
    flattened, and that an expression whose variables all stand for literals becomes a literal. */
module FoldingLaws {
  import opened Exprs
  import opened FoldingBuilder
  import opened ExprRewrite

  // ---- Flattening ----

  /** Operands that the flattening loop of `And` takes as they are. */
  predicate NoConjunctions(ops: seq<Expr>) { forall o | o in ops :: !IsBoolLit(o) && !o.And? }
  predicate NoDisjunctions(ops: seq<Expr>) { forall o | o in ops :: !IsBoolLit(o) && !o.Or? }

  lemma {:induction false} ConjunctsSum(a: seq<Expr>, b: seq<Expr>)
    ensures Conjuncts(a + b) == Conjuncts(a) + Conjuncts(b)
    decreases |b|
  {
    if b == [] {
      assert a + b == a;
    } else {
      var n := |b| - 1;
      assert (a + b)[..|a + b| - 1] == a + b[..n];
      ConjunctsSum(a, b[..n]);
    }
  }

  lemma {:induction false} DisjunctsSum(a: seq<Expr>, b: seq<Expr>)
    ensures Disjuncts(a + b) == Disjuncts(a) + Disjuncts(b)
    decreases |b|
  {
    if b == [] {
      assert a + b == a;
    } else {
      var n := |b| - 1;
      assert (a + b)[..|a + b| - 1] == a + b[..n];
      DisjunctsSum(a, b[..n]);
    }
  }

  lemma {:induction false} TakenAsTheyAre(ops: seq<Expr>)
    ensures NoConjunctions(ops) ==> Conjuncts(ops) == ops
    ensures NoDisjunctions(ops) ==> Disjuncts(ops) == ops
    decreases |ops|
  {
    if ops != [] {
      var n := |ops| - 1;
      assert ops == ops[..n] + [ops[n]];
      TakenAsTheyAre(ops[..n]);
    }
  }

  /** Operands in the middle may be exchanged for others that leave the same. */
  lemma {:induction false} SameInTheMiddle(a: seq<Expr>, x: seq<Expr>, y: seq<Expr>, b: seq<Expr>)
    ensures Conjuncts(x) == Conjuncts(y) && (False() in x <==> False() in y) ==> BuildAnd(a + x + b) == BuildAnd(a + y + b)
    ensures Disjuncts(x) == Disjuncts(y) && (True() in x <==> True() in y) ==> BuildOr(a + x + b) == BuildOr(a + y + b)
  {
    hide Conjuncts, Disjuncts;
    ConjunctsSum(a, x);
    ConjunctsSum(a + x, b);
    ConjunctsSum(a, y);
    ConjunctsSum(a + y, b);
    DisjunctsSum(a, x);
    DisjunctsSum(a + x, b);
    DisjunctsSum(a, y);
    DisjunctsSum(a + y, b);
  }

  lemma OneOperand(o: Expr)
    ensures Conjuncts([o]) == if IsBoolLit(o) then [] else if o.And? then o.ops else [o]
    ensures Disjuncts([o]) == if IsBoolLit(o) then [] else if o.Or? then o.ops else [o]
    ensures Conjuncts([]) == Disjuncts([]) == []
  {
    assert Conjuncts([]) == Disjuncts([]) == [];
    assert [o][..0] == [];
  }

  /** Flattening a conjunction: a false literal decides it, a true one may be left out, a nested
      conjunction may be written out in its place; without any of these the operands stay, in order, and
      one alone, or none, needs no conjunction. */
  lemma {:induction false} AndLaws(a: seq<Expr>, b: seq<Expr>, c: seq<Expr>)
    ensures BuildAnd(a + [False()] + b) == False()
    ensures BuildAnd(a + [True()] + b) == BuildAnd(a + [] + b)
    ensures NoConjunctions(c) ==> BuildAnd(a + [And(c)] + b) == BuildAnd(a + c + b)
    ensures NoConjunctions(c) ==> BuildAnd(c) == if c == [] then True() else if |c| == 1 then c[0] else And(c)
  {
    assert False() in a + [False()] + b;
    TakenAsTheyAre(c);
    assert NoConjunctions(c) ==> False() !in c;
    OneOperand(True());
    OneOperand(And(c));
    hide Conjuncts, NoConjunctions;
    SameInTheMiddle(a, [True()], [], b);
    SameInTheMiddle(a, [And(c)], c, b);
  }

  /** The same for disjunctions, with the literals in each other's place. */
  lemma {:induction false} OrLaws(a: seq<Expr>, b: seq<Expr>, c: seq<Expr>)
    ensures BuildOr(a + [True()] + b) == True()
    ensures BuildOr(a + [False()] + b) == BuildOr(a + [] + b)
    ensures NoDisjunctions(c) ==> BuildOr(a + [Or(c)] + b) == BuildOr(a + c + b)
    ensures NoDisjunctions(c) ==> BuildOr(c) == if c == [] then False() else if |c| == 1 then c[0] else Or(c)
  {
    assert True() in a + [True()] + b;
    TakenAsTheyAre(c);
    assert NoDisjunctions(c) ==> True() !in c;
    OneOperand(False());
    OneOperand(Or(c));
    hide Disjuncts, NoDisjunctions;
    SameInTheMiddle(a, [False()], [], b);
    SameInTheMiddle(a, [Or(c)], c, b);
  }

  // ---- Literals only ----

  /** The node kinds that the builder computes when their operands are literals. */
  predicate Computes(kind: BinaryKind) {
    match kind
    case Compare(k) => k.Eq? || k.NotEq? || k.Lt? || k.LtEq? || k.Gt? || k.GtEq?
    case Arithmetic(k) => k.Add? || k.Sub? || k.Mul?
    case _ => true
  }

  /** Every variable stands for a literal, and all nodes are of the kinds above. */
  predicate Constant(e: Expr, s: Rewriting)
    decreases e
  {
    match e
    case Lit(_) => true
    case Undef(_) => false
    case VarRef(x) => x in s && s[x].Lit?
    case Not(op) => Constant(op, s)
    case Extend(_, op, _) => Constant(op, s)
    case Extract(op, _, _) => Constant(op, s)
    case Binary(kind, l, r) => Constant(l, s) && Constant(r, s) && Computes(kind)
    case And(ops) => forall o | o in ops :: Constant(o, s)
    case Or(ops) => forall o | o in ops :: Constant(o, s)
    case Select(c, t, f) => Constant(c, s) && Constant(t, s) && Constant(f, s)
  }

  lemma {:induction false} LiteralOperands(ops: seq<Expr>)
    requires forall o | o in ops :: IsBoolLit(o)
    ensures BuildAnd(ops).Lit? && BuildOr(ops).Lit?
  {
    NothingLeft(ops);
  }

  lemma {:induction false} NothingLeft(ops: seq<Expr>)
    requires forall o | o in ops :: IsBoolLit(o)
    ensures Conjuncts(ops) == [] && Disjuncts(ops) == []
    decreases |ops|
  {
    if ops != [] {
      NothingLeft(ops[..|ops| - 1]);
    }
  }

  lemma {:induction false} LiteralBinary(kind: BinaryKind, l: Expr, r: Expr)
    requires WellTyped(Binary(kind, l, r)) && l.Lit? && r.Lit? && Computes(kind) && ExactNode(kind, l, r)
    ensures MakeBinary(Folding, kind, l, r).Lit?
  {
    match kind
    case Compare(k) => LiteralCompare(k, l, r);
    case Imply =>
    case BvConcat =>
    case _ => hide EvalBinary, WellTyped;
  }

  lemma {:induction false} LiteralCompare(k: CompareKind, l: Expr, r: Expr)
    requires WellTyped(Binary(Compare(k), l, r)) && l.Lit? && r.Lit? && Computes(Compare(k))
    ensures MakeCompare(Folding, k, l, r).Lit?
  {
  }

  /** Rewriting with a literal for every variable leaves the literal that the expression is worth. */
  lemma {:induction false} ConstantsFold(e: Expr, s: Rewriting, v: Valuation)
    requires WellTyped(e) && TypedRewriting(s) && Exact(e, s) && Constant(e, s)
    ensures Rewrite(Folding, e, s) == Lit(Eval(e, Substituted(v, s)))
  {
    FoldsToLiteral(e, s, v);
    SimultaneousSubstitution(Folding, e, s, v);
    hide Rewrite, WellTyped, Exact, Constant;
  }

  lemma {:induction false} FoldsToLiteral(e: Expr, s: Rewriting, v: Valuation)
    requires WellTyped(e) && TypedRewriting(s) && Exact(e, s) && Constant(e, s)
    ensures var r := Rewrite(Folding, e, s); r.Lit? && WellTyped(r) && TypeOf(r) == TypeOf(e)
    decreases e
  {
    Typed(e, s, v);
    match e
    case Lit(_) =>
    case VarRef(x) =>
    case Not(op) => FoldsToLiteral(op, s, v);
    case Extend(_, op, _) => FoldsToLiteral(op, s, v);
    case Extract(op, _, _) => FoldsToLiteral(op, s, v);
    case Binary(kind, l, r) =>
      FoldsToLiteral(l, s, v);
      FoldsToLiteral(r, s, v);
      LiteralNode(kind, l, r, Rewrite(Folding, l, s), Rewrite(Folding, r, s));
    case And(ops) => FoldAllToLiterals(ops, s, v); LiteralOperands(RewriteAll(Folding, ops, s));
    case Or(ops) => FoldAllToLiterals(ops, s, v); LiteralOperands(RewriteAll(Folding, ops, s));
    case Select(c, t, f) =>
      FoldsToLiteral(c, s, v);
      FoldsToLiteral(t, s, v);
      FoldsToLiteral(f, s, v);
  }

  lemma {:induction false} LiteralNode(kind: BinaryKind, l: Expr, r: Expr, l': Expr, r': Expr)
    requires WellTyped(Binary(kind, l, r)) && Computes(kind) && ExactNode(kind, l', r')
    requires l'.Lit? && WellTyped(l') && TypeOf(l') == TypeOf(l) && r'.Lit? && WellTyped(r') && TypeOf(r') == TypeOf(r)
    ensures MakeBinary(Folding, kind, l', r').Lit?
  {
    LiteralBinary(kind, l', r');
    hide MakeBinary;
  }

  lemma {:induction false} Typed(e: Expr, s: Rewriting, v: Valuation)
    requires WellTyped(e) && TypedRewriting(s) && Exact(e, s)
    ensures WellTyped(Rewrite(Folding, e, s)) && TypeOf(Rewrite(Folding, e, s)) == TypeOf(e)
  {
    forall x | x in Vars(e) ensures Eval(Image(s, x), v) == Get(Substituted(v, s), x) {
      if x in s {
        TypeSoundness(s[x], v);
      }
    }
    hide Rewrite, Eval, WellTyped, Exact;
    FoldingRewrite(e, s, v, Substituted(v, s));
  }

  lemma {:induction false} FoldAllToLiterals(ops: seq<Expr>, s: Rewriting, v: Valuation)
    requires TypedRewriting(s) && forall o | o in ops :: IsFormula(o) && Exact(o, s) && Constant(o, s)
    ensures forall o | o in RewriteAll(Folding, ops, s) :: IsBoolLit(o)
    decreases ops, 0
  {
    var r := RewriteAll(Folding, ops, s);
    forall i | 0 <= i < |ops| ensures IsBoolLit(r[i]) {
      assert ops[i] in ops;
      FoldsToLiteral(ops[i], s, v);
    }
    hide RewriteAll;
    forall o | o in r ensures IsBoolLit(o) { var i :| 0 <= i < |r| && r[i] == o; }
  }
}
