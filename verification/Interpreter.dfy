/** The interpreter object of kernel/lang/polskiscript.c, proved to compute Interp.Eval. */
module Interpreter {
  import opened Common
  import opened Syntax
  import opened Interp

  /** How a call ends: it returns, or the loop bound was too small, or the behaviour is not
      defined or not modelled. */
  datatype Ending = Returns | TooSlow | Astray

  function AsOutcome(e: Ending, v: Value, m: Machine): Outcome {
    match e
    case Returns => Done(v, m)
    case TooSlow => Slow
    case Astray => Lost
  }

  class Interpreter {
    const env: Environment
    var out: string
    var breakFlag: bool
    var continueFlag: bool
    var returnFlag: bool
    var returnValue: Value
    var hasError: bool

    constructor ()
      ensures Valid() && fresh(env) && fresh(env.names) && fresh(env.values)
      ensures M() == Machine([], "", false, false, false, Null, false)
    {
      env := new Environment();
      out := "";
      breakFlag, continueFlag, returnFlag, hasError := false, false, false, false;
      returnValue := Null;
    }

    ghost predicate Valid()
      reads this, env
    {
      env.Valid()
    }

    /** The machine state of the specification. */
    ghost function M(): (m: Machine)
      requires Valid()
      reads this, env, env.names, env.values
      ensures m.brk == breakFlag && m.cont == continueFlag && m.ret == returnFlag && m.err == hasError
    {
      Machine(env.Contents(), out, breakFlag, continueFlag, returnFlag, returnValue, hasError)
    }

    // ----- Steps on the fields -----

    method Emit(s: string)
      requires Valid()
      modifies this
      ensures Valid() && M() == old(M()).(out := old(M()).out + s)
    {
      hide Environment.Valid, Environment.Contents;
      out := out + s;
    }

    method Flags(brk: bool, cont: bool)
      requires Valid()
      modifies this
      ensures Valid() && M() == old(M()).(brk := brk, cont := cont)
    {
      hide Environment.Valid, Environment.Contents;
      breakFlag, continueFlag := brk, cont;
    }

    method Leave(v: Value)
      requires Valid()
      modifies this
      ensures Valid() && M() == old(M()).(retv := v, ret := true)
    {
      hide Environment.Valid, Environment.Contents;
      returnValue, returnFlag := v, true;
    }

    method Fault()
      requires Valid()
      modifies this
      ensures Valid() && M() == old(M()).(err := true)
    {
      hide Environment.Valid, Environment.Contents;
      hasError := true;
    }

    method DefineName(x: string, v: Value)
      requires Valid()
      modifies env, env.names, env.values
      ensures Valid() && M() == old(M()).(env := Define(old(M()).env, x, v))
    {
      hide Environment.Valid, Environment.Contents, Define;
      env.EnvDefine(x, v);
    }

    method AssignName(x: string, v: Value)
      requires Valid()
      modifies this, env.values
      ensures Valid()
      ensures M() == var m := old(M());
                     if Set(m.env, x, v).Some? then m.(env := Set(m.env, x, v).value) else m.(err := true)
    {
      hide Environment.Valid, Environment.Contents, Set;
      var ok := env.EnvSet(x, v);
      if !ok {
        hasError := true;
      }
    }

    method ReadName(x: string) returns (r: Option<Value>)
      requires Valid()
      ensures r == Get(M().env, x)
    {
      hide Environment.Valid, Environment.Contents, Get;
      r := env.EnvGet(x);
    }

    method Give(r: Result) returns (e: Ending, v: Value)
      requires Valid()
      modifies this
      ensures Valid() && AsOutcome(e, v, M()) == FromResult(r, old(M()))
    {
      hide Valid, M;
      e, v := Returns, Null;
      match r
      case Val(x) => v := x;
      case DivisionByZero => Fault();
      case Undefined => e := Astray;
    }

    // ----- Evaluation -----

    /** interpreter_eval; every loop goes round at most `fuel` times. */
    method Eval(fuel: nat, n: Node) returns (e: Ending, v: Value)
      requires Valid()
      modifies this, env, env.names, env.values
      ensures Valid() && AsOutcome(e, v, M()) == Interp.Eval(fuel, n, old(M()))
      decreases fuel, n, 1
    {
      hide Valid, M, EvalPrint, EvalLoop, EvalBlock, EvalProgram, BinaryOp, UnaryOp, Define, Get, Set;
      e, v := Returns, Null;
      if hasError {
        return;
      }
      match n.typ
      case AstLiteralInt => v := Int(n.num);
      case AstLiteralBool => v := Bool(n.flag);
      case AstLiteralNull =>
      case AstLiteralFloat => e := Astray;
      case AstLiteralString => e := Astray;
      case AstIdentifier =>
        var r := ReadName(n.str);
        if r.None? {
          Fault();
        } else {
          v := r.value;
        }
      case AstVarDecl =>
        if |n.kids| > 0 {
          e, v := Eval(fuel, n.kids[0]);
        }
        if e == Returns {
          DefineName(n.str, v);
          v := Null;
        }
      case AstAssign =>
        if |n.kids| == 0 {
          return Astray, Null;
        }
        e, v := Eval(fuel, n.kids[0]);
        if e == Returns {
          AssignName(n.str, v);
        }
      case AstBinaryOp => e, v := EvalBinary(fuel, n);
      case AstUnaryOp =>
        if |n.kids| == 0 {
          return Astray, Null;
        }
        e, v := Eval(fuel, n.kids[0]);
        if e == Returns {
          e, v := Give(UnaryOp(n.str, v));
        }
      case AstPrint => e, v := Print(fuel, n.kids);
      case AstIf => e, v := Branch(fuel, n);
      case AstWhile =>
        if |n.kids| < 2 {
          return Astray, Null;
        }
        e, v := Loop(fuel, n);
      case AstReturn =>
        if |n.kids| > 0 {
          e, v := Eval(fuel, n.kids[0]);
        }
        if e == Returns {
          Leave(v);
          v := Null;
        }
      case AstBreak => Flags(true, continueFlag);
      case AstContinue => Flags(breakFlag, true);
      case AstBlock => e, v := Block(fuel, n.kids);
      case AstProgram => e, v := Program(fuel, n.kids);
      case _ =>
    }

    method EvalBinary(fuel: nat, n: Node) returns (e: Ending, v: Value)
      requires Valid() && !hasError && n.typ == AstBinaryOp
      modifies this, env, env.names, env.values
      ensures Valid() && AsOutcome(e, v, M()) == Interp.Eval(fuel, n, old(M()))
      decreases fuel, n, 0
    {
      hide Valid, M, BinaryOp;
      if |n.kids| < 2 {
        return Astray, Null;
      }
      var l, r;
      e, l := Eval(fuel, n.kids[0]);
      if e != Returns {
        return e, Null;
      }
      e, r := Eval(fuel, n.kids[1]);
      if e != Returns {
        return e, Null;
      }
      e, v := Give(BinaryOp(n.str, l, r));
    }

    method Branch(fuel: nat, n: Node) returns (e: Ending, v: Value)
      requires Valid() && !hasError && n.typ == AstIf
      modifies this, env, env.names, env.values
      ensures Valid() && AsOutcome(e, v, M()) == Interp.Eval(fuel, n, old(M()))
      decreases fuel, n, 0
    {
      hide Valid, M;
      if |n.kids| < 2 {
        return Astray, Null;
      }
      var cond;
      e, cond := Eval(fuel, n.kids[0]);
      v := Null;
      if e != Returns {
        return;
      }
      if Truthy(cond).None? {
        e := Astray;
      } else if Truthy(cond).value {
        e, v := Eval(fuel, n.kids[1]);
      } else if |n.kids| > 2 {
        e, v := Eval(fuel, n.kids[2]);
      }
    }

    method Print(fuel: nat, kids: seq<Node>) returns (e: Ending, v: Value)
      requires Valid()
      modifies this, env, env.names, env.values
      ensures Valid() && AsOutcome(e, v, M()) == EvalPrint(fuel, kids, old(M()))
      decreases fuel, kids, 0
    {
      hide Valid, M, Interp.Eval, Show;
      e, v := Returns, Null;
      var i := 0;
      assert kids[0..] == kids;
      while i < |kids|
        invariant Valid() && i <= |kids| && e == Returns && v == Null
        invariant EvalPrint(fuel, kids[i..], M()) == EvalPrint(fuel, kids, old(M()))
      {
        var val;
        e, val := Eval(fuel, kids[i]);
        assert kids[i..][0] == kids[i] && kids[i..][1..] == kids[i + 1..];
        if e != Returns {
          return;
        }
        Emit(Show(val));
        Emit(if i < |kids| - 1 then " " else "");
        i := i + 1;
      }
      Emit("\n");
    }

    method Loop(fuel: nat, n: Node) returns (e: Ending, v: Value)
      requires Valid() && |n.kids| >= 2
      modifies this, env, env.names, env.values
      ensures Valid() && AsOutcome(e, v, M()) == EvalLoop(fuel, n, old(M()))
      decreases fuel, n, 0
    {
      hide Valid, M, Interp.Eval;
      e, v := Returns, Null;
      var f: nat := fuel;
      while f > 0
        invariant Valid() && f <= fuel && e == Returns && v == Null
        invariant EvalLoop(f, n, M()) == EvalLoop(fuel, n, old(M()))
      {
        f := f - 1;
        var cond;
        e, cond := Eval(f, n.kids[0]);
        if e != Returns {
          return;
        }
        if Truthy(cond).None? {
          e := Astray;
          return;
        }
        if !Truthy(cond).value {
          return;
        }
        var ignored;
        e, ignored := Eval(f, n.kids[1]);
        if e != Returns {
          return;
        }
        if breakFlag {
          Flags(false, continueFlag);
          return;
        }
        if continueFlag {
          Flags(breakFlag, false);
          continue;
        }
        if returnFlag {
          return;
        }
      }
      e := TooSlow;
    }

    method Block(fuel: nat, kids: seq<Node>) returns (e: Ending, v: Value)
      requires Valid()
      modifies this, env, env.names, env.values
      ensures Valid() && AsOutcome(e, v, M()) == EvalBlock(fuel, kids, old(M()))
      decreases fuel, kids, 0
    {
      hide Valid, M, Interp.Eval;
      e, v := Returns, Null;
      var i := 0;
      assert kids[0..] == kids;
      while i < |kids|
        invariant Valid() && i <= |kids| && e == Returns && v == Null
        invariant EvalBlock(fuel, kids[i..], M()) == EvalBlock(fuel, kids, old(M()))
      {
        var ignored;
        e, ignored := Eval(fuel, kids[i]);
        assert kids[i..][0] == kids[i] && kids[i..][1..] == kids[i + 1..];
        if e != Returns || returnFlag || breakFlag || continueFlag {
          return;
        }
        i := i + 1;
      }
    }

    method Program(fuel: nat, kids: seq<Node>) returns (e: Ending, v: Value)
      requires Valid()
      modifies this, env, env.names, env.values
      ensures Valid() && AsOutcome(e, v, M()) == EvalProgram(fuel, kids, old(M()))
      decreases fuel, kids, 0
    {
      hide Valid, M, Interp.Eval;
      e, v := Returns, Null;
      var i := 0;
      assert kids[0..] == kids;
      while i < |kids|
        invariant Valid() && i <= |kids| && e == Returns && v == Null
        invariant EvalProgram(fuel, kids[i..], M()) == EvalProgram(fuel, kids, old(M()))
      {
        var ignored;
        e, ignored := Eval(fuel, kids[i]);
        assert kids[i..][0] == kids[i] && kids[i..][1..] == kids[i + 1..];
        if e != Returns || hasError {
          return;
        }
        i := i + 1;
      }
    }
  }
}
