/** Control flow automata (include/gazer/Automaton/Cfa.h) and what a system of them can do.
    A configuration is a call stack; runs of the stack machine are shown to be exactly the
    derivation trees `Run` and `Failure`, on which the transformations are proved. */
module Automata {
  import opened Exprs

  type Loc = nat

  datatype Assignment = Assignment(variable: Variable, value: Expr)

  /** `Disconnected` is an edge whose end points were set to null. */
  datatype Transition =
    | Assign(source: Loc, target: Loc, guard: Expr, assigns: seq<Assignment>)
    | Call(source: Loc, target: Loc, guard: Expr, callee: nat, inputs: seq<Assignment>, outputs: seq<Assignment>)
    | Disconnected

  /** Locations are numbered from zero; error locations carry the expression of their error code. */
  datatype Cfa = Cfa(
    inputs: seq<Variable>, outputs: seq<Variable>, locals: seq<Variable>,
    numLocations: nat, entry: Loc, exit: Loc,
    errors: map<Loc, Expr>, edges: seq<Transition>)

  /** Automata of a system are referred to by their position. */
  type System = seq<Cfa>

  // ---- One step ----

  /** One assignment; an undefined value is whatever the step chooses. */
  function AssignOne(a: Assignment, v: Valuation, choices: seq<Value>): Valuation {
    v[a.variable := if !a.value.Undef? then Eval(a.value, v) else if choices == [] then Default(a.variable.typ) else choices[0]]
  }

  function Tail(choices: seq<Value>): seq<Value> { if choices == [] then [] else choices[1..] }

  /** Assignments run in order. */
  function Exec(assigns: seq<Assignment>, v: Valuation, choices: seq<Value>): Valuation {
    if assigns == [] then v else Exec(assigns[1..], AssignOne(assigns[0], v, choices), Tail(choices))
  }

  /** Arguments are passed at once; every other variable of the callee starts arbitrary. */
  ghost predicate Passes(args: seq<Assignment>, v: Valuation, init: Valuation) {
    forall a | a in args && !a.value.Undef? :: Get(init, a.variable) == Fit(Eval(a.value, v), a.variable.typ)
  }

  /** On return the caller's variables receive values computed in the callee. */
  function Returned(outs: seq<Assignment>, v: Valuation, final: Valuation): Valuation {
    if outs == [] then v
    else Returned(outs[1..], v[outs[0].variable := Eval(outs[0].value, final)], final)
  }

  ghost predicate CanTake(S: System, f: nat, l: Loc, v: Valuation, e: Transition) {
    f < |S| && e in S[f].edges && e.Assign? && e.source == l && Holds(e.guard, v)
  }

  ghost predicate CanCall(S: System, f: nat, l: Loc, v: Valuation, e: Transition, init: Valuation) {
    f < |S| && e in S[f].edges && e.Call? && e.source == l && Holds(e.guard, v) && e.callee < |S| && Passes(e.inputs, v, init)
  }

  ghost predicate ErrorAt(S: System, f: nat, l: Loc, v: Valuation, code: Value) {
    f < |S| && l in S[f].errors && Eval(S[f].errors[l], v) == code
  }

  // ---- The stack machine ----

  datatype Frame = Frame(f: nat, loc: Loc, v: Valuation)

  /** A caller waiting for the call edge it took to return. */
  datatype Waiting = Waiting(frame: Frame, edge: Transition)

  datatype Config = Config(top: Frame, callers: seq<Waiting>)

  datatype Move = Take(edge: Transition, choices: seq<Value>) | Enter(edge: Transition, init: Valuation) | Leave

  ghost predicate Enabled(S: System, c: Config, move: Move) {
    match move
    case Take(e, _) => CanTake(S, c.top.f, c.top.loc, c.top.v, e)
    case Enter(e, init) => CanCall(S, c.top.f, c.top.loc, c.top.v, e, init)
    case Leave => c.top.f < |S| && c.top.loc == S[c.top.f].exit && c.callers != [] && c.callers[0].edge.Call?
  }

  function Resume(w: Waiting, final: Valuation): Frame
    requires w.edge.Call?
  {
    Frame(w.frame.f, w.edge.target, Returned(w.edge.outputs, w.frame.v, final))
  }

  ghost function Next(S: System, c: Config, move: Move): Config
    requires Enabled(S, c, move)
  {
    match move
    case Take(e, choices) => c.(top := Frame(c.top.f, e.target, Exec(e.assigns, c.top.v, choices)))
    case Enter(e, init) => Config(Frame(e.callee, S[e.callee].entry, init), [Waiting(c.top, e)] + c.callers)
    case Leave => Config(Resume(c.callers[0], c.top.v), c.callers[1..])
  }

  /** The machine, started in `c`, performs `moves` and then stands at an error with `code`. */
  ghost predicate ReachesError(S: System, c: Config, moves: seq<Move>, code: Value)
    decreases |moves|
  {
    if moves == [] then ErrorAt(S, c.top.f, c.top.loc, c.top.v, code)
    else Enabled(S, c, moves[0]) && ReachesError(S, Next(S, c, moves[0]), moves[1..], code)
  }

  // ---- Derivation trees ----

  /** A stretch of one activation, in which every call has already come back. */
  datatype Run =
    | Stop
    | Step(edge: Transition, choices: seq<Value>, rest: Run)
    | Through(edge: Transition, init: Valuation, body: Run, final: Valuation, rest: Run)

  /** A way for one activation to end in an error, its own or that of a call it is waiting for. */
  datatype Failure =
    | Here
    | After(edge: Transition, choices: seq<Value>, rest: Failure)
    | Past(edge: Transition, init: Valuation, body: Run, final: Valuation, rest: Failure)
    | Inside(edge: Transition, init: Valuation, inner: Failure)

  ghost predicate Leads(S: System, f: nat, l: Loc, v: Valuation, run: Run, l': Loc, w: Valuation)
    decreases run
  {
    match run
    case Stop => l == l' && v == w
    case Step(e, choices, rest) => CanTake(S, f, l, v, e) && Leads(S, f, e.target, Exec(e.assigns, v, choices), rest, l', w)
    case Through(e, init, body, final, rest) =>
      && CanCall(S, f, l, v, e, init)
      && Leads(S, e.callee, S[e.callee].entry, init, body, S[e.callee].exit, final)
      && Leads(S, f, e.target, Returned(e.outputs, v, final), rest, l', w)
  }

  ghost predicate Completes(S: System, f: nat, l: Loc, v: Valuation, run: Run, w: Valuation) {
    f < |S| && Leads(S, f, l, v, run, S[f].exit, w)
  }

  ghost predicate Fails(S: System, f: nat, l: Loc, v: Valuation, fail: Failure, code: Value)
    decreases fail
  {
    match fail
    case Here => ErrorAt(S, f, l, v, code)
    case After(e, choices, rest) => CanTake(S, f, l, v, e) && Fails(S, f, e.target, Exec(e.assigns, v, choices), rest, code)
    case Past(e, init, body, final, rest) =>
      && CanCall(S, f, l, v, e, init)
      && Leads(S, e.callee, S[e.callee].entry, init, body, S[e.callee].exit, final)
      && Fails(S, f, e.target, Returned(e.outputs, v, final), rest, code)
    case Inside(e, init, inner) =>
      CanCall(S, f, l, v, e, init) && Fails(S, e.callee, S[e.callee].entry, init, inner, code)
  }

  // ---- Joining trees ----

  function Append(run: Run, fail: Failure): Failure {
    match run
    case Stop => fail
    case Step(e, choices, rest) => After(e, choices, Append(rest, fail))
    case Through(e, init, body, final, rest) => Past(e, init, body, final, Append(rest, fail))
  }

  function Join(run: Run, next: Run): Run {
    match run
    case Stop => next
    case Step(e, choices, rest) => Step(e, choices, Join(rest, next))
    case Through(e, init, body, final, rest) => Through(e, init, body, final, Join(rest, next))
  }

  lemma {:induction false} AppendFails(S: System, f: nat, l: Loc, v: Valuation, run: Run, l': Loc, w: Valuation, fail: Failure, code: Value)
    requires Leads(S, f, l, v, run, l', w) && Fails(S, f, l', w, fail, code)
    ensures Fails(S, f, l, v, Append(run, fail), code)
    decreases run
  {
    match run
    case Stop =>
    case Step(e, choices, rest) => AppendFails(S, f, e.target, Exec(e.assigns, v, choices), rest, l', w, fail, code);
    case Through(e, _, _, final, rest) => AppendFails(S, f, e.target, Returned(e.outputs, v, final), rest, l', w, fail, code);
  }

  lemma {:induction false} JoinLeads(S: System, f: nat, l: Loc, v: Valuation, run: Run, l': Loc, w: Valuation, next: Run, l'': Loc, u: Valuation)
    requires Leads(S, f, l, v, run, l', w) && Leads(S, f, l', w, next, l'', u)
    ensures Leads(S, f, l, v, Join(run, next), l'', u)
    decreases run
  {
    match run
    case Stop =>
    case Step(e, choices, rest) => JoinLeads(S, f, e.target, Exec(e.assigns, v, choices), rest, l', w, next, l'', u);
    case Through(e, _, _, final, rest) => JoinLeads(S, f, e.target, Returned(e.outputs, v, final), rest, l', w, next, l'', u);
  }

  lemma FailAfter(S: System, f: nat, l: Loc, v: Valuation, e: Transition, choices: seq<Value>, rest: Failure, code: Value)
    requires CanTake(S, f, l, v, e) && Fails(S, f, e.target, Exec(e.assigns, v, choices), rest, code)
    ensures Fails(S, f, l, v, After(e, choices, rest), code)
  {
  }

  /** One level of a failure, spelled out. */
  lemma UnfoldFailure(S: System, f: nat, l: Loc, v: Valuation, fail: Failure, code: Value)
    requires Fails(S, f, l, v, fail, code)
    ensures f < |S|
    ensures match fail
            case Here => ErrorAt(S, f, l, v, code)
            case After(e, choices, rest) =>
              && CanTake(S, f, l, v, e) && e in S[f].edges && e.Assign? && e.source == l && Holds(e.guard, v)
              && Fails(S, f, e.target, Exec(e.assigns, v, choices), rest, code)
            case Past(e, init, body, final, rest) =>
              && CanCall(S, f, l, v, e, init) && e in S[f].edges && e.Call? && e.source == l && e.callee < |S|
              && Leads(S, e.callee, S[e.callee].entry, init, body, S[e.callee].exit, final)
              && Fails(S, f, e.target, Returned(e.outputs, v, final), rest, code)
            case Inside(e, init, inner) =>
              && CanCall(S, f, l, v, e, init) && e in S[f].edges && e.Call? && e.source == l && e.callee < |S|
              && Fails(S, e.callee, S[e.callee].entry, init, inner, code)
  {
  }

  lemma LeadStep(S: System, f: nat, l: Loc, v: Valuation, e: Transition, choices: seq<Value>, rest: Run, l': Loc, w: Valuation)
    requires CanTake(S, f, l, v, e) && Leads(S, f, e.target, Exec(e.assigns, v, choices), rest, l', w)
    ensures Leads(S, f, l, v, Step(e, choices, rest), l', w)
  {
  }

  // ---- Stack machine and derivation trees say the same ----

  /** How a stack run that ends in an error uses its topmost activation: the activation fails, or
      it comes back and a shorter part of the run goes on from its caller. */
  datatype Outcome = Failed(fail: Failure) | CameBack(run: Run, final: Valuation, moves: seq<Move>)

  ghost predicate Explains(S: System, c: Config, moves: seq<Move>, code: Value, o: Outcome) {
    match o
    case Failed(fail) => Fails(S, c.top.f, c.top.loc, c.top.v, fail, code)
    case CameBack(run, final, later) =>
      && Completes(S, c.top.f, c.top.loc, c.top.v, run, final)
      && |later| < |moves| && c.callers != [] && c.callers[0].edge.Call?
      && ReachesError(S, Config(Resume(c.callers[0], final), c.callers[1..]), later, code)
  }

  lemma {:induction false} Explain(S: System, c: Config, moves: seq<Move>, code: Value) returns (o: Outcome)
    requires ReachesError(S, c, moves, code)
    ensures Explains(S, c, moves, code, o)
    decreases |moves|
  {
    if moves == [] {
      return Failed(Here);
    }
    match moves[0]
    case Leave => o := CameBack(Stop, c.top.v, moves[1..]);
    case Take(e, choices) =>
      o := Explain(S, Next(S, c, moves[0]), moves[1..], code);
      o := match o
        case Failed(fail) => Failed(After(e, choices, fail))
        case CameBack(run, final, later) => CameBack(Step(e, choices, run), final, later);
    case Enter(e, init) =>
      var called := Next(S, c, moves[0]);
      o := Explain(S, called, moves[1..], code);
      match o
      case Failed(fail) => o := Failed(Inside(e, init, fail));
      case CameBack(body, final, later) =>
        assert called.callers[1..] == c.callers;
        o := Explain(S, Config(Resume(Waiting(c.top, e), final), c.callers), later, code);
        o := match o
          case Failed(fail) => Failed(Past(e, init, body, final, fail))
          case CameBack(run, final', later') => CameBack(Through(e, init, body, final, run), final', later');
  }

  lemma {:induction false} Perform(S: System, f: nat, l: Loc, v: Valuation, run: Run, l': Loc, w: Valuation,
                                   callers: seq<Waiting>, later: seq<Move>, code: Value) returns (moves: seq<Move>)
    requires Leads(S, f, l, v, run, l', w) && ReachesError(S, Config(Frame(f, l', w), callers), later, code)
    ensures ReachesError(S, Config(Frame(f, l, v), callers), moves, code)
    decreases run
  {
    match run
    case Stop => moves := later;
    case Step(e, choices, rest) =>
      moves := Perform(S, f, e.target, Exec(e.assigns, v, choices), rest, l', w, callers, later, code);
      moves := [Take(e, choices)] + moves;
    case Through(e, init, body, final, rest) =>
      var back := Returned(e.outputs, v, final);
      moves := Perform(S, f, e.target, back, rest, l', w, callers, later, code);
      var inside := [Waiting(Frame(f, l, v), e)] + callers;
      assert inside[1..] == callers;
      assert ([Leave] + moves)[1..] == moves;
      moves := Perform(S, e.callee, S[e.callee].entry, init, body, S[e.callee].exit, final, inside, [Leave] + moves, code);
      moves := [Enter(e, init)] + moves;
  }

  lemma {:induction false} PerformFailure(S: System, f: nat, l: Loc, v: Valuation, fail: Failure, code: Value, callers: seq<Waiting>)
    returns (moves: seq<Move>)
    requires Fails(S, f, l, v, fail, code)
    ensures ReachesError(S, Config(Frame(f, l, v), callers), moves, code)
    decreases fail
  {
    match fail
    case Here => moves := [];
    case After(e, choices, rest) =>
      moves := PerformFailure(S, f, e.target, Exec(e.assigns, v, choices), rest, code, callers);
      moves := [Take(e, choices)] + moves;
    case Past(e, init, body, final, rest) =>
      moves := PerformFailure(S, f, e.target, Returned(e.outputs, v, final), rest, code, callers);
      moves := Perform(S, f, l, v, Through(e, init, body, final, Stop), e.target, Returned(e.outputs, v, final), callers, moves, code);
    case Inside(e, init, inner) =>
      moves := PerformFailure(S, e.callee, S[e.callee].entry, init, inner, code, [Waiting(Frame(f, l, v), e)] + callers);
      moves := [Enter(e, init)] + moves;
  }

  /** Some run of the stack machine from the entry of `f` reaches an error with this code. */
  ghost predicate CanFail(S: System, f: nat, code: Value) {
    f < |S| && exists v, moves :: ReachesError(S, Config(Frame(f, S[f].entry, v), []), moves, code)
  }

  ghost predicate Derivable(S: System, f: nat, code: Value) {
    f < |S| && exists v, fail :: Fails(S, f, S[f].entry, v, fail, code)
  }

  /** An error is reachable by the stack machine exactly when it has a derivation. */
  lemma {:induction false} StackIffDerivation(S: System, f: nat, code: Value)
    ensures CanFail(S, f, code) <==> Derivable(S, f, code)
  {
    if CanFail(S, f, code) {
      var v, moves :| ReachesError(S, Config(Frame(f, S[f].entry, v), []), moves, code);
      var o := Explain(S, Config(Frame(f, S[f].entry, v), []), moves, code);
      assert Fails(S, f, S[f].entry, v, o.fail, code);
    }
    if Derivable(S, f, code) {
      var v, fail :| Fails(S, f, S[f].entry, v, fail, code);
      var moves := PerformFailure(S, f, S[f].entry, v, fail, code, []);
      hide Fails, ReachesError;
      assert ReachesError(S, Config(Frame(f, S[f].entry, v), []), moves, code);
    }
  }

  // ---- Parts of a system that a transformation leaves alone ----

  ghost predicate NeverCalls(S: System, root: nat) {
    forall f, e | 0 <= f < |S| && e in S[f].edges && e.Call? :: e.callee != root
  }

  /** Automata other than `root` run the same when only `root`, which nobody calls, is replaced. */
  lemma {:induction false} RunsElsewhere(S: System, T: System, root: nat, f: nat, l: Loc, v: Valuation, run: Run, l': Loc, w: Valuation)
    requires |S| == |T| && root < |S| && f != root && (forall g | 0 <= g < |S| && g != root :: S[g] == T[g])
    requires NeverCalls(S, root) && Leads(S, f, l, v, run, l', w)
    ensures Leads(T, f, l, v, run, l', w)
    decreases run
  {
    match run
    case Stop =>
    case Step(e, choices, rest) => RunsElsewhere(S, T, root, f, e.target, Exec(e.assigns, v, choices), rest, l', w);
    case Through(e, init, body, final, rest) =>
      RunsElsewhere(S, T, root, e.callee, S[e.callee].entry, init, body, S[e.callee].exit, final);
      RunsElsewhere(S, T, root, f, e.target, Returned(e.outputs, v, final), rest, l', w);
  }

  lemma {:induction false} FailsElsewhere(S: System, T: System, root: nat, f: nat, l: Loc, v: Valuation, fail: Failure, code: Value)
    requires |S| == |T| && root < |S| && f != root && (forall g | 0 <= g < |S| && g != root :: S[g] == T[g])
    requires NeverCalls(S, root) && Fails(S, f, l, v, fail, code)
    ensures Fails(T, f, l, v, fail, code)
    decreases fail
  {
    match fail
    case Here =>
    case After(e, choices, rest) => FailsElsewhere(S, T, root, f, e.target, Exec(e.assigns, v, choices), rest, code);
    case Past(e, init, body, final, rest) =>
      RunsElsewhere(S, T, root, e.callee, S[e.callee].entry, init, body, S[e.callee].exit, final);
      FailsElsewhere(S, T, root, f, e.target, Returned(e.outputs, v, final), rest, code);
    case Inside(e, init, inner) => FailsElsewhere(S, T, root, e.callee, S[e.callee].entry, init, inner, code);
  }
}
