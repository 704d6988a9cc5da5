/** Inlining one call of a tail-recursive automaton into the root
    (src/Automaton/RecursiveToCyclicCfa.cpp, `inlineCallIntoRoot`): the new root as a function of
    the old one, and the automata it applies to. */
module TailInlining {
  import opened Exprs
  import opened ExprRewrite
  import opened Automata
  import opened AssignLists

  // ---- The automata this applies to ----

  function VariablesOf(c: Cfa): set<Variable> {
    (set x | x in c.inputs) + (set x | x in c.outputs) + (set x | x in c.locals)
  }

  /** Expressions of an edge are over `xs`, its end points among the first `n` locations. */
  ghost predicate EdgeScoped(e: Transition, n: nat, xs: set<Variable>) {
    match e
    case Disconnected => true
    case Assign(s, t, g, assigns) =>
      s < n && t < n && Vars(g) <= xs && forall a | a in assigns :: a.variable in xs && Vars(a.value) <= xs
    case Call(s, t, g, _, ins, outs) =>
      && s < n && t < n && Vars(g) <= xs
      && (forall a | a in ins :: Vars(a.value) <= xs)
      && (forall a | a in outs :: a.variable in xs)
  }

  /** One argument for each parameter. */
  ghost predicate Supplies(args: seq<Assignment>, params: seq<Variable>) {
    && DistinctTargets(args)
    && (forall a | a in args :: a.variable in params)
    && (forall x | x in params :: exists a :: a in args && a.variable == x)
  }

  /** Each output of the callee is copied into one variable of the caller, no two into the same. */
  ghost predicate Collects(outs: seq<Assignment>, outputs: seq<Variable>) {
    && DistinctTargets(outs)
    && (forall a | a in outs :: a.value.VarRef? && a.value.variable in outputs && a.variable.typ == a.value.variable.typ)
    && (forall i, j | 0 <= i < j < |outs| :: outs[i].value != outs[j].value)
    && (forall o | o in outputs :: exists a :: a in outs && a.value == VarRef(o))
  }

  ghost predicate NoDuplicates(xs: seq<Variable>) {
    forall i, j | 0 <= i < j < |xs| :: xs[i] != xs[j]
  }

  /** A recursive call as loops are translated: unguarded, into the exit, handing on the outputs. */
  ghost predicate SelfCallShape(c: Cfa, e: Transition) {
    && e.Call? && e.target == c.exit && e.guard == True()
    && Supplies(e.inputs, c.inputs) && Collects(e.outputs, c.outputs)
    && forall a | a in e.outputs :: a.value == VarRef(a.variable)
  }

  ghost predicate ClosedCode(e: Expr) { !e.Undef? && Vars(e) == {} && WellTyped(e) && TypeOf(e) == IntType }

  ghost predicate LoopShape(c: Cfa, f: nat) {
    && c.entry < c.numLocations && c.exit < c.numLocations && c.exit !in c.errors
    && NoDuplicates(c.inputs) && (forall x | x in c.inputs :: x !in c.outputs && x !in c.locals)
    && (forall l | l in c.errors :: l < c.numLocations && ClosedCode(c.errors[l]))
    && (forall e | e in c.edges :: EdgeScoped(e, c.numLocations, VariablesOf(c)) && (e.Disconnected? || e.source != c.exit))
    && (forall e | e in c.edges && e.Call? && e.callee == f :: SelfCallShape(c, e))
  }

  // ---- The clone ----

  /** The value of the first argument for `x`. */
  function Argument(args: seq<Assignment>, x: Variable): Expr {
    if args == [] then Undef(x.typ) else if args[0].variable == x then args[0].value else Argument(args[1..], x)
  }

  /** Temporaries receive the recursive arguments, unless that would assign one to itself. */
  function TempArgs(args: seq<Assignment>, inputs: seq<Variable>, temps: seq<Variable>, ren: Renaming): seq<Assignment>
    requires |inputs| == |temps|
  {
    if inputs == [] then [] else
      var n := |inputs| - 1;
      var value := Renamed(Argument(args, inputs[n]), ren);
      TempArgs(args, inputs[..n], temps[..n], ren) + (if VarRef(temps[n]) != value then [Assignment(temps[n], value)] else [])
  }

  function InputArgs(inputs: seq<Variable>, temps: seq<Variable>, ren: Renaming): (r: seq<Assignment>)
    requires |inputs| == |temps|
    ensures |r| == |inputs| && forall i | 0 <= i < |r| :: r[i] == Assignment(Name(ren, inputs[i]), VarRef(temps[i]))
  {
    if inputs == [] then [] else
      var n := |inputs| - 1;
      InputArgs(inputs[..n], temps[..n], ren) + [Assignment(Name(ren, inputs[n]), VarRef(temps[n]))]
  }

  function EntryArgs(args: seq<Assignment>, inputs: seq<Variable>, ren: Renaming): (r: seq<Assignment>)
    ensures |r| == |inputs| && forall i | 0 <= i < |r| :: r[i] == Assignment(Name(ren, inputs[i]), Argument(args, inputs[i]))
  {
    if inputs == [] then [] else
      var n := |inputs| - 1;
      EntryArgs(args, inputs[..n], ren) + [Assignment(Name(ren, inputs[n]), Argument(args, inputs[n]))]
  }

  function BackArgs(args: seq<Assignment>, c: Cfa, temps: seq<Variable>, ren: Renaming): seq<Assignment>
    requires |temps| == |c.inputs|
  {
    TempArgs(args, c.inputs, temps, ren) + InputArgs(c.inputs, temps, ren)
  }

  function CloneEdge(e: Transition, c: Cfa, f: nat, ren: Renaming, temps: seq<Variable>, offset: nat): Transition
    requires |temps| == |c.inputs|
  {
    match e
    case Disconnected => Disconnected
    case Assign(s, t, g, assigns) => Assign(offset + s, offset + t, Renamed(g, ren), RenameAssigns(assigns, ren))
    case Call(s, t, g, callee, ins, outs) =>
      if callee == f then Assign(offset + s, offset + c.entry, g, BackArgs(ins, c, temps, ren))
      else Call(offset + s, offset + t, Renamed(g, ren), callee, RenameInputs(ins, ren), RenameOutputs(outs, ren))
  }

  function CloneEdges(edges: seq<Transition>, c: Cfa, f: nat, ren: Renaming, temps: seq<Variable>, offset: nat): (r: seq<Transition>)
    requires |temps| == |c.inputs|
    ensures |r| == |edges| && forall i | 0 <= i < |r| :: r[i] == CloneEdge(edges[i], c, f, ren, temps, offset)
  {
    if edges == [] then [] else
      var n := |edges| - 1;
      CloneEdges(edges[..n], c, f, ren, temps, offset) + [CloneEdge(edges[n], c, f, ren, temps, offset)]
  }

  function ErrorEdge(c: Cfa, l: Loc, offset: nat, error: Loc, field: Variable): Transition
    requires l in c.errors
  {
    Assign(offset + l, error, True(), [Assignment(field, c.errors[l])])
  }

  /** Edges from the clones of the first `n` locations to the unique error location. */
  function ErrorEdges(c: Cfa, n: nat, offset: nat, error: Loc, field: Variable): (r: seq<Transition>)
    ensures forall l | l in c.errors && l < n :: ErrorEdge(c, l, offset, error, field) in r
    ensures forall e | e in r :: exists l :: l in c.errors && l < n && e == ErrorEdge(c, l, offset, error, field)
  {
    if n == 0 then [] else
      ErrorEdges(c, n - 1, offset, error, field)
      + (if n - 1 in c.errors then [ErrorEdge(c, n - 1, offset, error, field)] else [])
  }

  function EntryEdge(call: Transition, c: Cfa, ren: Renaming, offset: nat): Transition
    requires call.Call?
  {
    Assign(call.source, offset + c.entry, call.guard, EntryArgs(call.inputs, c.inputs, ren))
  }

  function ExitEdge(call: Transition, c: Cfa, offset: nat): Transition
    requires call.Call?
  {
    Assign(offset + c.exit, call.target, True(), [])
  }

  function InlinedEdges(edges: seq<Transition>, at: nat, c: Cfa, ren: Renaming, temps: seq<Variable>, offset: nat,
                        error: Loc, field: Variable): seq<Transition>
    requires at < |edges| && edges[at].Call? && |temps| == |c.inputs|
  {
    var call := edges[at];
    edges[at := Disconnected]
    + ErrorEdges(c, c.numLocations, offset, error, field)
    + CloneEdges(c.edges, c, call.callee, ren, temps, offset)
    + [EntryEdge(call, c, ren, offset), ExitEdge(call, c, offset)]
  }

  // ---- One inlining ----

  datatype Inlining = Inlining(S: System, root: nat, at: nat, ren: Renaming, temps: seq<Variable>,
                               added: seq<Variable>, error: Loc, field: Variable) {

    ghost predicate InRange() {
      && root < |S| && at < |S[root].edges| && S[root].edges[at].Call? && S[root].edges[at].callee < |S|
      && |temps| == |S[S[root].edges[at].callee].inputs|
    }

    ghost function Root(): Cfa requires InRange() { S[root] }
    ghost function Edge(): Transition requires InRange() { S[root].edges[at] }
    ghost function F(): nat requires InRange() { Edge().callee }
    ghost function Callee(): Cfa requires InRange() { S[F()] }
    ghost function Offset(): nat requires InRange() { Root().numLocations }

    ghost function NewRoot(): Cfa
      requires InRange()
    {
      Root().(locals := Root().locals + added,
              numLocations := Offset() + Callee().numLocations,
              edges := InlinedEdges(Root().edges, at, Callee(), ren, temps, Offset(), error, field))
    }

    ghost function Result(): System requires InRange() { S[root := NewRoot()] }

    ghost function Clone(e: Transition): Transition requires InRange() { CloneEdge(e, Callee(), F(), ren, temps, Offset()) }

    /** The root has one error location to aim at, whose code is the error field. */
    ghost predicate RootShape()
      requires InRange()
    {
      var xs := VariablesOf(Root());
      && (forall e | e in Root().edges :: EdgeScoped(e, Offset(), xs) && (e.Disconnected? || e.source != error))
      && Root().entry < Offset()
      && (forall l | l in Root().errors :: l < Offset() && Vars(Root().errors[l]) <= xs)
      && error in Root().errors && Root().errors[error] == VarRef(field) && field.typ == IntType
    }

    /** Clones of inputs and locals, and the temporaries, are new; outputs stand for the caller's variables. */
    ghost predicate FreshNames()
      requires InRange()
    {
      var xs := VariablesOf(Root());
      && ValidRenaming(ren) && ren.Keys == VariablesOf(Callee())
      && (forall x | x in ren && x !in Callee().outputs :: ren[x] !in xs)
      && (forall a | a in Edge().outputs && a.value.VarRef? && a.value.variable in ren :: ren[a.value.variable] == a.variable)
      && NoDuplicates(temps)
      && (forall i | 0 <= i < |temps| :: temps[i].typ == Callee().inputs[i].typ && temps[i] !in xs && temps[i] !in ren.Values)
      && (forall y | y in added :: y in temps || y in ren.Values)
      && (forall y | y in temps :: y in added)
      && (forall x | x in ren && x !in Callee().outputs :: ren[x] in added)
    }

    ghost predicate Valid()
      requires InRange()
    {
      && F() != root && NeverCalls(S, root)
      && LoopShape(Callee(), F())
      && Supplies(Edge().inputs, Callee().inputs) && Collects(Edge().outputs, Callee().outputs)
      && RootShape() && FreshNames()
    }
  }
}
