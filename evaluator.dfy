/**
 * The evaluator of peri_interpreter.py:104-134: a tree walk over Number,
 * BinOp, Assign, Print and raw str nodes, with a variables dictionary that
 * Assign updates in place and printed lines that Print emits.  visit is
 * modelled as the Interpreter method it was evidently meant to be, and
 * interpret as the loop over the nodes that it was meant to be.
 */
module Evaluator {
  import opened Wrappers
  import opened Numerals
  import opened Ast

  /** The Python values visit produces: int, str, or None. */
  datatype Value = IntV(i: int) | StrV(s: string) | NoneV

  /** The exceptions evaluation can raise. */
  datatype EvalError =
    | TypeError          // an operator applied to operands Python rejects
    | ZeroDivisionError  // int / 0
    | TrueDivision       // int / non-zero int: a float, which this model does not represent
    | AttributeError     // self.visit on an Interpreter that has no visit (VisitAsWritten)

  /** The interpreter's state: the variables dictionary and the lines printed so far. */
  datatype Env = Env(variables: map<string, Value>, output: seq<string>)

  /** str(v): the line print writes for v. */
  function Show(v: Value): (r: string)
    ensures v.IntV? ==> r == IntToString(v.i) && IntOf(r) == Some(v.i)
    ensures v.StrV? ==> r == v.s
    ensures v.NoneV? ==> r == "None"
  {
    match v
    case IntV(i) => IntRoundTrip(i); IntToString(i)
    case StrV(s) => s
    case NoneV => "None"
  }

  /** s * n for a str s and an int n: n copies of s, none when n <= 0. */
  function Repeat(s: string, n: int): (r: string)
    ensures |r| == if n <= 0 then 0 else n * |s|
    ensures n == 1 ==> r == s
    decreases n
  {
    if n <= 0 then [] else s + Repeat(s, n - 1)
  }

  /** s * (m + n) is s * m followed by s * n, for counts that are not negative. */
  lemma {:induction false} RepeatAdds(s: string, m: nat, n: nat)
    ensures Repeat(s, m + n) == Repeat(s, m) + Repeat(s, n)
    decreases m
  {
    if m > 0 {
      RepeatAdds(s, m - 1, n);
      var rest := Repeat(s, m - 1);
      assert Repeat(s, m) == s + rest;
      assert Repeat(s, m + n) == s + Repeat(s, (m - 1) + n);
      assert s + (rest + Repeat(s, n)) == (s + rest) + Repeat(s, n);
    }
  }

  /** s * (n + 1) is s * n with one more copy of s at the end. */
  lemma RepeatAppendsOneCopy(s: string, n: nat)
    ensures Repeat(s, n + 1) == Repeat(s, n) + s
  {
    RepeatAdds(s, n, 1);
  }

  /** Every character of s * n is the character of s at the same offset within its copy. */
  lemma {:induction false} RepeatCharacters(s: string, n: nat, k: nat, j: nat)
    requires k < n && j < |s|
    ensures k * |s| + j < |Repeat(s, n)|
    ensures Repeat(s, n)[k * |s| + j] == s[j]
    decreases n
  {
    RepeatAppendsOneCopy(s, n - 1);
    var prev := Repeat(s, n - 1);
    assert |prev| == (n - 1) * |s|;
    if k < n - 1 {
      RepeatCharacters(s, n - 1, k, j);
      assert (prev + s)[k * |s| + j] == prev[k * |s| + j];
    } else {
      assert k * |s| == |prev|;
      assert (prev + s)[|prev| + j] == s[j];
    }
  }

  /**
   * left op right as visit computes it (peri_interpreter.py:114-121) with
   * Python's rules for int and str operands; an op other than the four
   * falls through every test and yields None.
   */
  function Apply(op: string, a: Value, b: Value): (r: Result<Value, EvalError>)
    ensures op != "+" && op != "-" && op != "*" && op != "/" ==> r == Success(NoneV)
    ensures (op == "+" || op == "-" || op == "*" || op == "/") && (a.NoneV? || b.NoneV?) ==>
      r == Failure(TypeError)
    ensures a.IntV? && b.IntV? && (op == "+" || op == "-" || op == "*") ==> r.Success? && r.value.IntV?
    ensures op == "+" && a.StrV? && b.StrV? ==> r == Success(StrV(a.s + b.s))
    ensures op == "+" && a.StrV? != b.StrV? ==> r == Failure(TypeError)
    ensures op == "*" && a.StrV? && b.IntV? ==> r == Success(StrV(Repeat(a.s, b.i)))
    ensures op == "*" && a.IntV? && b.StrV? ==> r == Success(StrV(Repeat(b.s, a.i)))
    ensures op == "*" && a.StrV? && b.StrV? ==> r == Failure(TypeError)
    ensures (op == "-" || op == "/") && (a.StrV? || b.StrV?) ==> r == Failure(TypeError)
    ensures op == "/" ==> r.Failure?
    ensures r == Failure(ZeroDivisionError) <==> op == "/" && a.IntV? && b == IntV(0)
  {
    if op == "+" then
      match (a, b)
      case (IntV(x), IntV(y)) => Success(IntV(x + y))
      case (StrV(x), StrV(y)) => Success(StrV(x + y))
      case _ => Failure(TypeError)
    else if op == "-" then
      match (a, b)
      case (IntV(x), IntV(y)) => Success(IntV(x - y))
      case _ => Failure(TypeError)
    else if op == "*" then
      match (a, b)
      case (IntV(x), IntV(y)) => Success(IntV(x * y))
      case (StrV(x), IntV(y)) => Success(StrV(Repeat(x, y)))
      case (IntV(x), StrV(y)) => Success(StrV(Repeat(y, x)))
      case _ => Failure(TypeError)
    else if op == "/" then
      match (a, b)
      case (IntV(x), IntV(y)) => if y == 0 then Failure(ZeroDivisionError) else Failure(TrueDivision)
      case _ => Failure(TypeError)
    else Success(NoneV)
  }

  /**
   * visit(node), as a value: the result (or the exception) and the state
   * afterwards.  Operands are visited left then right; Assign and Print
   * visit their value first; an exception keeps the effects already made.
   */
  function Eval(node: Node, env: Env): (r: (Result<Value, EvalError>, Env))
    ensures r.0 != Failure(AttributeError)
    ensures r.0.Success? && (node.Assign? || node.Print?) ==> r.0.value == NoneV
    decreases node
  {
    match node
    case Number(n) => (Success(IntV(n)), env)
    case BinOp(l, op, r) =>
      var (a, env1) := Eval(l, env);
      if a.Failure? then (Failure(a.error), env1)
      else
        var (b, env2) := Eval(r, env1);
        if b.Failure? then (Failure(b.error), env2)
        else (Apply(op, a.value, b.value), env2)
    case Assign(name, e) =>
      var (v, env1) := Eval(e, env);
      if v.Failure? then (Failure(v.error), env1)
      else (Success(NoneV), env1.(variables := env1.variables[name := v.value]))
    case Print(e) =>
      var (v, env1) := Eval(e, env);
      if v.Failure? then (Failure(v.error), env1)
      else (Success(NoneV), env1.(output := env1.output + [Show(v.value)]))
    case Str(s) => (Success(StrV(s)), env)
  }

  /** interpret(ast), as a value: the nodes visited in order, stopping at the first exception. */
  function Run(prog: seq<Node>, env: Env): (r: (Result<(), EvalError>, Env))
    ensures r.0 != Failure(AttributeError)
    ensures env.output <= r.1.output && env.variables.Keys <= r.1.variables.Keys
    decreases |prog|
  {
    if prog == [] then (Success(()), env)
    else
      EvalOnlyAppends(prog[0], env);
      var (r, env1) := Eval(prog[0], env);
      if r.Failure? then (Failure(r.error), env1) else Run(prog[1..], env1)
  }

  /** Interpreter (peri_interpreter.py:104-106), with stdout as the list of printed lines. */
  class Interpreter {
    var variables: map<string, Value>
    var output: seq<string>

    constructor ()
      ensures variables == map[] && output == []
    {
      variables := map[];
      output := [];
    }

    function State(): Env
      reads this
    {
      Env(variables, output)
    }

    /** visit (peri_interpreter.py:108-130), as a method of the interpreter. */
    method Visit(node: Node) returns (r: Result<Value, EvalError>)
      modifies this
      ensures (r, State()) == Eval(node, old(State()))
      decreases node
    {
      match node
      case Number(n) =>
        r := Success(IntV(n));
      case BinOp(l, op, rt) =>
        var left := Visit(l);
        if left.Failure? {
          return Failure(left.error);
        }
        var right := Visit(rt);
        if right.Failure? {
          return Failure(right.error);
        }
        r := Apply(op, left.value, right.value);
      case Assign(name, e) =>
        var v := Visit(e);
        if v.Failure? {
          return Failure(v.error);
        }
        variables := variables[name := v.value];
        r := Success(NoneV);
      case Print(e) =>
        var v := Visit(e);
        if v.Failure? {
          return Failure(v.error);
        }
        output := output + [Show(v.value)];
        r := Success(NoneV);
      case Str(s) =>
        r := Success(StrV(s));
    }

    /** interpret (peri_interpreter.py:132-134): visit each node in list order. */
    method Interpret(ast: seq<Node>) returns (r: Result<(), EvalError>)
      modifies this
      ensures (r, State()) == Run(ast, old(State()))
    {
      var i := 0;
      while i < |ast|
        invariant 0 <= i <= |ast|
        invariant Run(ast, old(State())) == Run(ast[i..], State())
      {
        ghost var before := State();
        var v := Visit(ast[i]);
        assert ast[i..][1..] == ast[i + 1..];
        if v.Failure? {
          return Failure(v.error);
        }
        i := i + 1;
      }
      r := Success(());
    }
  }

  // ---------------------------------------------------------------------
  // Expressions: no effects, and names are never looked up
  // ---------------------------------------------------------------------

  /** A node built from numbers, raw strings and BinOp only. */
  predicate IsExpr(node: Node) {
    match node
    case Number(_) => true
    case Str(_) => true
    case BinOp(l, _, r) => IsExpr(l) && IsExpr(r)
    case _ => false
  }

  /** The value of an expression, computed without any state. */
  function ExprValue(e: Node): Result<Value, EvalError>
    requires IsExpr(e)
  {
    match e
    case Number(n) => Success(IntV(n))
    case Str(s) => Success(StrV(s))
    case BinOp(l, op, r) =>
      var a := ExprValue(l);
      if a.Failure? then a
      else
        var b := ExprValue(r);
        if b.Failure? then b else Apply(op, a.value, b.value)
  }

  /**
   * An expression changes neither the variables nor the output, and its
   * value does not depend on them: a raw str evaluates to itself even when
   * a variable of that name is bound.
   */
  lemma {:induction false} ExprEvalIsStateless(e: Node, env: Env)
    requires IsExpr(e)
    ensures Eval(e, env) == (ExprValue(e), env)
  {
    match e
    case Number(_) =>
    case Str(_) =>
    case BinOp(l, op, r) =>
      ExprEvalIsStateless(l, env);
      ExprEvalIsStateless(r, env);
  }

  /** +, - and * on two int operands give the sum, the difference and the product. */
  lemma ArithmeticOnInts(l: Node, r: Node, x: int, y: int, env: Env)
    requires IsExpr(l) && IsExpr(r)
    requires ExprValue(l) == Success(IntV(x)) && ExprValue(r) == Success(IntV(y))
    ensures Eval(BinOp(l, "+", r), env) == (Success(IntV(x + y)), env)
    ensures Eval(BinOp(l, "-", r), env) == (Success(IntV(x - y)), env)
    ensures Eval(BinOp(l, "*", r), env) == (Success(IntV(x * y)), env)
  {
    ExprEvalIsStateless(l, env);
    ExprEvalIsStateless(r, env);
  }

  /** Dividing by an int zero raises ZeroDivisionError and prints nothing. */
  lemma DivisionByZero(l: Node, r: Node, x: int, env: Env)
    requires IsExpr(l) && IsExpr(r)
    requires ExprValue(l) == Success(IntV(x)) && ExprValue(r) == Success(IntV(0))
    ensures Eval(Print(BinOp(l, "/", r)), env) == (Failure(ZeroDivisionError), env)
  {
    ExprEvalIsStateless(l, env);
    ExprEvalIsStateless(r, env);
  }

  /** The left operand is visited before the right one: its line is printed first. */
  lemma OperandsLeftToRight(l: Node, op: string, r: Node, env: Env)
    requires IsExpr(l) && IsExpr(r)
    requires ExprValue(l).Success? && ExprValue(r).Success?
    ensures Eval(BinOp(Print(l), op, Print(r)), env).1.output
         == env.output + [Show(ExprValue(l).value), Show(ExprValue(r).value)]
  {
    ExprEvalIsStateless(l, env);
    var env1 := env.(output := env.output + [Show(ExprValue(l).value)]);
    ExprEvalIsStateless(r, env1);
  }

  // ---------------------------------------------------------------------
  // Statements
  // ---------------------------------------------------------------------

  /** Assign(name, e) binds name to the value of e and leaves every other binding as it was. */
  lemma AssignBindsOnlyItsName(name: string, e: Node, env: Env)
    requires IsExpr(e) && ExprValue(e).Success?
    ensures var (r, env') := Eval(Assign(name, e), env);
      && r == Success(NoneV)
      && env'.output == env.output
      && name in env'.variables && env'.variables[name] == ExprValue(e).value
      && (forall y :: y != name ==> (y in env'.variables <==> y in env.variables))
      && (forall y :: y != name && y in env.variables ==> env'.variables[y] == env.variables[y])
  {
    ExprEvalIsStateless(e, env);
  }

  /** Print(e) appends exactly the line str(value of e) and binds nothing. */
  lemma PrintAppendsOneLine(e: Node, env: Env)
    requires IsExpr(e) && ExprValue(e).Success?
    ensures var (r, env') := Eval(Print(e), env);
      && r == Success(NoneV)
      && env'.variables == env.variables
      && env'.output == env.output + [Show(ExprValue(e).value)]
  {
    ExprEvalIsStateless(e, env);
  }

  /** Printing only appends and assigning only adds or overwrites, whatever happens. */
  lemma {:induction false} EvalOnlyAppends(node: Node, env: Env)
    ensures var env' := Eval(node, env).1;
      && env.output <= env'.output
      && env.variables.Keys <= env'.variables.Keys
    decreases node
  {
    match node
    case Number(_) =>
    case Str(_) =>
    case BinOp(l, op, r) =>
      EvalOnlyAppends(l, env);
      EvalOnlyAppends(r, Eval(l, env).1);
    case Assign(_, e) =>
      EvalOnlyAppends(e, env);
    case Print(e) =>
      EvalOnlyAppends(e, env);
  }

  // ---------------------------------------------------------------------
  // Programs
  // ---------------------------------------------------------------------

  /** Running p then q is running p + q, unless p raises. */
  lemma {:induction false} RunConcat(p: seq<Node>, q: seq<Node>, env: Env)
    ensures Run(p + q, env) ==
      (if Run(p, env).0.Failure? then Run(p, env) else Run(q, Run(p, env).1))
    decreases |p|
  {
    if p == [] {
      assert p + q == q;
    } else {
      assert (p + q)[0] == p[0];
      assert (p + q)[1..] == p[1..] + q;
      RunConcat(p[1..], q, Eval(p[0], env).1);
    }
  }

  /** An Assign or a Print of an expression that evaluates without error. */
  predicate IsSimpleStatement(s: Node) {
    (s.Assign? || s.Print?) && IsExpr(s.value) && ExprValue(s.value).Success?
  }

  /** The lines a straight-line program prints: one per Print, in program order. */
  function PrintedLines(prog: seq<Node>): seq<string>
    requires forall i :: 0 <= i < |prog| ==> IsSimpleStatement(prog[i])
  {
    if prog == [] then []
    else
      assert IsSimpleStatement(prog[0]);
      (if prog[0].Print? then [Show(ExprValue(prog[0].value).value)] else [])
         + PrintedLines(prog[1..])
  }

  /** The bindings a straight-line program leaves: for each name, its last assignment. */
  function FinalBindings(prog: seq<Node>): map<string, Value>
    requires forall i :: 0 <= i < |prog| ==> IsSimpleStatement(prog[i])
  {
    if prog == [] then map[]
    else
      assert IsSimpleStatement(prog[0]);
      var later := FinalBindings(prog[1..]);
      if prog[0].Assign? && prog[0].name !in later
      then later[prog[0].name := ExprValue(prog[0].value).value]
      else later
  }

  /** Binding x and then laying later bindings over it: x keeps v only if no later binding names it. */
  lemma UpdateThenUnion(m: map<string, Value>, x: string, v: Value, later: map<string, Value>)
    ensures m[x := v] + later == m + (if x in later then later else later[x := v])
  {
  }

  /**
   * interpret on a straight-line program: the output grows by one line per
   * Print in program order, and each name ends bound to the value of its
   * last assignment, every other binding unchanged.
   */
  lemma {:induction false} RunStraightLine(prog: seq<Node>, env: Env)
    requires forall i :: 0 <= i < |prog| ==> IsSimpleStatement(prog[i])
    ensures Run(prog, env).0.Success?
    ensures Run(prog, env).1.output == env.output + PrintedLines(prog)
    ensures Run(prog, env).1.variables == env.variables + FinalBindings(prog)
    decreases |prog|
  {
    if prog != [] {
      var s := prog[0];
      assert IsSimpleStatement(s);
      var v := ExprValue(s.value).value;
      ExprEvalIsStateless(s.value, env);
      var env1 := Eval(s, env).1;
      assert Eval(s, env).0 == Success(NoneV);
      assert Run(prog, env) == Run(prog[1..], env1);
      RunStraightLine(prog[1..], env1);
      var later := FinalBindings(prog[1..]);
      if s.Assign? {
        assert env1 == env.(variables := env.variables[s.name := v]);
        assert PrintedLines(prog) == PrintedLines(prog[1..]);
        UpdateThenUnion(env.variables, s.name, v, later);
      } else {
        assert env1 == env.(output := env.output + [Show(v)]);
        assert FinalBindings(prog) == later;
        assert PrintedLines(prog) == [Show(v)] + PrintedLines(prog[1..]);
        assert env1.output + PrintedLines(prog[1..]) == env.output + PrintedLines(prog);
      }
    }
  }

  /** x = 5; print x: the name is printed, not its value, since names are never looked up. */
  lemma NamesAreNotLookedUp(env: Env)
    ensures Run([Assign("x", Number(5)), Print(Str("x"))], env)
         == (Success(()), Env(env.variables["x" := IntV(5)], env.output + ["x"]))
  {
  }

  // ---------------------------------------------------------------------
  // visit as written
  // ---------------------------------------------------------------------

  /**
   * visit exactly as written: a module-level function whose self is an
   * Interpreter, a class that has no visit attribute, so every
   * self.visit(...) raises AttributeError before anything else happens.
   */
  function VisitAsWritten(node: Node, env: Env): (r: (Result<Value, EvalError>, Env))
    ensures r.1 == env
    ensures r.0.Success? <==> node.Number? || node.Str?
    ensures r.0.Failure? ==> r.0.error == AttributeError
  {
    match node
    case Number(n) => (Success(IntV(n)), env)
    case Str(s) => (Success(StrV(s)), env)
    case _ => (Failure(AttributeError), env)
  }

  /** As written, visiting Print(e) prints nothing, where the intended visit prints one line. */
  lemma AsWrittenPrintPrintsNothing(e: Node, env: Env)
    requires IsExpr(e) && ExprValue(e).Success?
    ensures VisitAsWritten(Print(e), env) == (Failure(AttributeError), env)
    ensures Eval(Print(e), env).1.output == env.output + [Show(ExprValue(e).value)]
  {
    PrintAppendsOneLine(e, env);
  }
}
