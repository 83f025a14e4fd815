/** A big-step semantics of PolskiScript with completions instead of flags, and its agreement
    with the evaluator of Interp.dfy (kernel/lang/polskiscript.c). */
module BigStep {
  import opened Common
  import opened Lexer
  import opened Syntax
  import opened Ast
  import opened Interp

  type Store = map<string, Value>

  // ----- Expressions -----

  function Number(i: int): Option<Value> {
    if I64_MIN <= i <= I64_MAX then Some(Int(i)) else None
  }

  /** How many times `b` goes into `a`, by their magnitudes: negative if exactly one of them is. */
  function Times(a: int, b: int): int
    requires b != 0
  {
    if (a < 0) == (b < 0) then Abs(a) / Abs(b) else -(Abs(a) / Abs(b))
  }

  /** What is left, with the sign of `a`. */
  function Rest(a: int, b: int): int
    requires b != 0
  {
    if a < 0 then -(Abs(a) % Abs(b)) else Abs(a) % Abs(b)
  }

  lemma DivisionMeaning(a: int, b: int)
    requires b != 0
    ensures Quotient(a, b) == Times(a, b) && Remainder(a, b) == Rest(a, b)
  {
    var q, r := Times(a, b), Rest(a, b);
    assert Abs(a) == Abs(b) * (Abs(a) / Abs(b)) + Abs(a) % Abs(b);
    Signs(b, Abs(a) / Abs(b));
    hide Quotient, Remainder;
    DivisionLaw(a, b, q, r);
  }

  lemma Signs(b: int, k: int)
    ensures b * -k == -(b * k) && Abs(b) * k == if b < 0 then -(b * k) else b * k
  {
  }

  /** What the operators mean; None where there is no value. */
  function Meaning(op: Kind, l: Value, r: Value): Option<Value> {
    if op == Rowne then Some(Bool(l.Int? && r.Int? && l.i == r.i))
    else if op == Nierowne then Some(Bool(!(l.Int? && r.Int? && l.i == r.i)))
    else if op == I || op == Lub then
      if l.Null? || r.Null? then None
      else
        var a, b := l == Bool(true) || (l.Int? && l.i != 0), r == Bool(true) || (r.Int? && r.i != 0);
        Some(Bool(if op == I then a && b else a || b))
    else if !l.Int? || !r.Int? then Some(Null)
    else
      match op
      case Plus => Number(l.i + r.i)
      case Minus => Number(l.i - r.i)
      case Mnozenie => Number(l.i * r.i)
      case Dzielenie => if r.i == 0 then None else Number(Times(l.i, r.i))
      case Modulo => if r.i == 0 || (l.i == I64_MIN && r.i == -1) then None else Some(Int(Rest(l.i, r.i)))
      case Mniejsze => Some(Bool(l.i < r.i))
      case MniejszeRowne => Some(Bool(l.i < r.i))
      case Wieksze => Some(Bool(l.i > r.i))
      case WiekszeRowne => Some(Bool(l.i > r.i))
      case _ => None
  }

  function PrefixMeaning(op: Kind, v: Value): Option<Value> {
    if op == Nie then
      match v
      case Null => None
      case Int(i) => Some(Bool(i == 0))
      case Bool(b) => Some(Bool(!b))
    else if v.Int? then Number(-v.i)
    else Some(Null)
  }

  /** The value of an expression; None if there is an error or no value.  Calls give `nic`. */
  function ValueOf(e: Expr, store: Store): Option<Value> {
    match e
    case Num(n) => Some(Int(n))
    case Text(_) => None
    case Truth(b) => Some(Bool(b))
    case Nothing => Some(Null)
    case Name(x) => if x in store then Some(store[x]) else None
    case Apply(_, _) => Some(Null)
    case Prefix(op, e1) =>
      var v := ValueOf(e1, store);
      if v.None? then None else PrefixMeaning(op, v.value)
    case Infix(op, l, r) =>
      var v, w := ValueOf(l, store), ValueOf(r, store);
      if v.None? || w.None? then None else Meaning(op, v.value, w.value)
  }

  function Holds(e: Expr, store: Store): Option<bool> {
    match ValueOf(e, store)
    case Some(Int(i)) => Some(i != 0)
    case Some(Bool(b)) => Some(b)
    case _ => None
  }

  /** The line that printing `es` writes. */
  function Line(es: seq<Expr>, store: Store): Option<string> {
    if es == [] then Some("\n")
    else
      var v, rest := ValueOf(es[0], store), Line(es[1..], store);
      if v.None? || rest.None? then None
      else Some(Show(v.value) + (if |es| > 1 then " " else "") + rest.value)
  }

  // ----- Statements -----

  datatype Completion = Normal | Broke | Continued | Returned(v: Value)

  datatype Config = Config(store: Store, out: string)

  /** The body of a loop ends the loop. */
  predicate Leaves(k: Completion) { k == Broke || k.Returned? }

  /** How a loop completes when its body ends it. */
  function Outside(k: Completion): Completion { if k == Broke then Normal else k }

  /** Statement `s` takes `c` to `d` and completes with `k`. */
  least predicate Runs(s: Stmt, c: Config, k: Completion, d: Config) {
    match s
    case Declare(x) => k == Normal && d == c.(store := c.store[x := Null])
    case Define(x, e) =>
      ValueOf(e, c.store).Some? && k == Normal && d == c.(store := c.store[x := ValueOf(e, c.store).value])
    case Assign(x, e) =>
      && x in c.store && ValueOf(e, c.store).Some?
      && k == Normal && d == c.(store := c.store[x := ValueOf(e, c.store).value])
    case Print(args) => Line(args, c.store).Some? && k == Normal && d == c.(out := c.out + Line(args, c.store).value)
    case If(e, t) =>
      && Holds(e, c.store).Some?
      && if Holds(e, c.store).value then RunsAll(t, c, k, d) else k == Normal && d == c
    case IfElse(e, t, f) =>
      && Holds(e, c.store).Some?
      && if Holds(e, c.store).value then RunsAll(t, c, k, d) else RunsAll(f, c, k, d)
    case While(e, body) =>
      && Holds(e, c.store).Some?
      && if !Holds(e, c.store).value then k == Normal && d == c
         else exists k1, c1 ::
           && RunsAll(body, c, k1, c1)
           && (if Leaves(k1) then k == Outside(k1) && d == c1 else Runs(s, c1, k, d))
    case Return => k == Returned(Null) && d == c
    case ReturnValue(e) => ValueOf(e, c.store).Some? && k == Returned(ValueOf(e, c.store).value) && d == c
    case Break => k == Broke && d == c
    case Continue => k == Continued && d == c
    case Group(body) => RunsAll(body, c, k, d)
  }

  /** Statements one after the other, as long as they complete normally. */
  least predicate RunsAll(ss: seq<Stmt>, c: Config, k: Completion, d: Config) {
    if ss == [] then k == Normal && d == c
    else exists k1, c1 ::
      && Runs(ss[0], c, k1, c1)
      && if k1 == Normal then RunsAll(ss[1..], c1, k, d) else k == k1 && d == c1
  }

  // ----- Expressions agree -----

  lemma OperatorMeaning(op: Kind, l: Value, r: Value)
    requires IsOperator(LevelOf(op), op)
    ensures var b := BinaryOp(OpText(op), l, r);
            Meaning(op, l, r) == if b.Val? then Some(b.v) else None
  {
    OperatorKinds(op);
    hide IsOperator, LevelOf, Meaning, BinaryOp, OpText;
    if op in {Plus, Minus, Mnozenie, Dzielenie, Modulo} {
      ArithmeticMeaning(op, l, r);
    } else if op in {Rowne, Nierowne, I, Lub} {
      LogicMeaning(op, l, r);
    } else {
      OrderMeaning(op, l, r);
    }
  }

  lemma ArithmeticMeaning(op: Kind, l: Value, r: Value)
    requires op in {Plus, Minus, Mnozenie, Dzielenie, Modulo}
    ensures var b := BinaryOp(OpText(op), l, r);
            Meaning(op, l, r) == if b.Val? then Some(b.v) else None
  {
    hide Quotient, Remainder, Times, Rest;
    if l.Int? && r.Int? && r.i != 0 {
      DivisionMeaning(l.i, r.i);
    }
  }

  lemma LogicMeaning(op: Kind, l: Value, r: Value)
    requires op in {Rowne, Nierowne, I, Lub}
    ensures var b := BinaryOp(OpText(op), l, r);
            Meaning(op, l, r) == if b.Val? then Some(b.v) else None
  {
    hide Quotient, Remainder, Times, Rest;
  }

  lemma OrderMeaning(op: Kind, l: Value, r: Value)
    requires op in {Mniejsze, Wieksze, MniejszeRowne, WiekszeRowne}
    ensures var b := BinaryOp(OpText(op), l, r);
            Meaning(op, l, r) == if b.Val? then Some(b.v) else None
  {
    hide Quotient, Remainder, Times, Rest;
  }

  lemma OperatorKinds(op: Kind)
    requires IsOperator(LevelOf(op), op)
    ensures op in {Plus, Minus, Mnozenie, Dzielenie, Modulo, Rowne, Nierowne, Mniejsze, Wieksze,
                   MniejszeRowne, WiekszeRowne, I, Lub}
  {
  }

  lemma PrefixMeans(op: Kind, v: Value)
    requires op in {Minus, Nie}
    ensures var b := UnaryOp(OpText(op), v);
            PrefixMeaning(op, v) == if b.Val? then Some(b.v) else None
  {
  }

  /** `<=` and `>=` are answered by the tests for `<` and `>`: right exactly when the
      operands differ. */
  lemma LessOrEqual(l: Value, r: Value)
    requires l.Int? && r.Int?
    ensures BinaryOp("<=", l, r) == Val(Bool(l.i <= r.i)) <==> l.i != r.i
    ensures BinaryOp(">=", l, r) == Val(Bool(l.i >= r.i)) <==> l.i != r.i
  {
  }

  /** `1 <= 1` is false. */
  lemma OneNotLessOrEqual(fuel: nat, m: Machine)
    requires !m.err
    ensures Eval(fuel, ExprNode(Infix(MniejszeRowne, Num(1), Num(1))), m) == Done(Bool(false), m)
  {
    var one := ExprNode(Num(1));
    assert Eval(fuel, one, m) == Done(Int(1), m);
    assert ExprNode(Infix(MniejszeRowne, Num(1), Num(1))) == Bare(AstBinaryOp, "<=", [one, one]);
    assert BinaryOp("<=", Int(1), Int(1)) == Val(Bool(false));
  }

  /** An expression changes nothing.  It evaluates to its value, if it has one; otherwise
      there is an error, or the evaluator is lost. */
  predicate ExprAgrees(o: Outcome, value: Option<Value>, m: Machine) {
    if value.Some? then o == Done(value.value, m) else o == Lost || (o.Done? && o.m.err)
  }

  lemma {:induction false} EvalExpr(fuel: nat, e: Expr, m: Machine)
    requires GoodExpr(e) && !m.err && NoDuplicates(m.env)
    ensures ExprAgrees(Eval(fuel, ExprNode(e), m), ValueOf(e, MapOf(m.env)), m)
    decreases e
  {
    hide BinaryOp, UnaryOp, Meaning, PrefixMeaning, OpText, LevelOf, IsOperator, Find, MapOf;
    match e
    case Name(x) => GetSetIsMap(m.env, x, Null);
    case Prefix(op, e1) =>
      EvalExpr(fuel, e1, m);
      var v := ValueOf(e1, MapOf(m.env));
      if v.Some? {
        PrefixMeans(op, v.value);
      }
    case Infix(op, l, r) =>
      EvalExpr(fuel, l, m);
      EvalExpr(fuel, r, m);
      var v, w := ValueOf(l, MapOf(m.env)), ValueOf(r, MapOf(m.env));
      if v.Some? && w.Some? {
        OperatorMeaning(op, v.value, w.value);
      }
    case _ =>
  }

  /** The errors of expressions: a name that is not defined ... */
  lemma NameError(fuel: nat, x: string, m: Machine)
    requires !m.err && NoDuplicates(m.env) && x !in MapOf(m.env)
    ensures Eval(fuel, ExprNode(Name(x)), m) == Done(Null, m.(err := true))
  {
    hide MapOf, NoDuplicates, Find;
    MapAt(m.env, x);
  }

  /** ... and a division by zero. */
  lemma DivisionError(fuel: nat, l: Expr, r: Expr, m: Machine)
    requires !m.err && NoDuplicates(m.env) && GoodExpr(l) && GoodExpr(r)
    requires ValueOf(l, MapOf(m.env)).Some? && ValueOf(l, MapOf(m.env)).value.Int?
    requires ValueOf(r, MapOf(m.env)) == Some(Int(0))
    ensures Eval(fuel, ExprNode(Infix(Dzielenie, l, r)), m) == Done(Null, m.(err := true))
  {
    hide MapOf, NoDuplicates, GoodExpr, ValueOf;
    EvalExpr(fuel, l, m);
    EvalExpr(fuel, r, m);
    ZeroDivisor(ValueOf(l, MapOf(m.env)).value);
    var a, b := ExprNode(l), ExprNode(r);
    assert ExprNode(Infix(Dzielenie, l, r)) == Bare(AstBinaryOp, "/", [a, b]);
    hide BinaryOp, ExprNode;
    assert [a, b][0] == a && [a, b][1] == b;
  }

  lemma ZeroDivisor(v: Value)
    requires v.Int?
    ensures BinaryOp("/", v, Int(0)) == DivisionByZero
  {
  }

  /** After an error nothing is evaluated. */
  lemma AfterError(fuel: nat, n: Node, m: Machine)
    requires m.err
    ensures Eval(fuel, n, m) == Done(Null, m)
  {
  }

  /** The error of statements: an assignment to a name that is not defined. */
  lemma AssignError(fuel: nat, x: string, e: Expr, m: Machine)
    requires !m.err && NoDuplicates(m.env) && GoodExpr(e) && x !in MapOf(m.env)
    requires ValueOf(e, MapOf(m.env)).Some?
    ensures Eval(fuel, StmtNode(Assign(x, e)), m) == Done(ValueOf(e, MapOf(m.env)).value, m.(err := true))
  {
    hide MapOf, NoDuplicates, GoodExpr, ValueOf, ExprNode, Find;
    MapAt(m.env, x);
    EvalExpr(fuel, e, m);
  }

  // ----- What every evaluation keeps -----

  /** Names are never removed, and an error stays. */
  predicate Keeps(o: Outcome, m: Machine) {
    o.Done? ==> |m.env| <= |o.m.env| && (m.err ==> o.m.err)
  }

  lemma DefineGrows(env: Env, x: string, v: Value)
    ensures |env| <= |Interp.Define(env, x, v)|
    ensures Set(env, x, v).Some? ==> |Set(env, x, v).value| == |env|
  {
  }

  lemma {:induction false} EvalKeeps(fuel: nat, n: Node, m: Machine)
    ensures Keeps(Eval(fuel, n, m), m)
    decreases fuel, n, 1
  {
    hide BinaryOp, UnaryOp, Find, Get, Set, Interp.Define;
    if !m.err {
      if n.kids != [] && n.typ in {AstVarDecl, AstAssign, AstBinaryOp, AstUnaryOp, AstIf, AstReturn} {
        EvalKeeps(fuel, n.kids[0], m);
        var o := Eval(fuel, n.kids[0], m);
        if o.Done? {
          DefineGrows(o.m.env, n.str, o.v);
          if |n.kids| > 1 {
            EvalKeeps(fuel, n.kids[1], o.m);
          }
          if |n.kids| > 2 {
            EvalKeeps(fuel, n.kids[2], o.m);
          }
        }
      }
      DefineGrows(m.env, n.str, Null);
      match n.typ
      case AstPrint => PrintKeeps(fuel, n.kids, m);
      case AstWhile =>
        if |n.kids| >= 2 {
          LoopKeeps(fuel, n, m);
        }
      case AstBlock => BlockKeeps(fuel, n.kids, m);
      case AstProgram => ProgramKeeps(fuel, n.kids, m);
      case _ =>
    }
  }

  lemma {:induction false} PrintKeeps(fuel: nat, kids: seq<Node>, m: Machine)
    ensures Keeps(EvalPrint(fuel, kids, m), m)
    decreases fuel, kids, 0
  {
    hide Eval, Show;
    if kids != [] {
      EvalKeeps(fuel, kids[0], m);
      var o := Eval(fuel, kids[0], m);
      if o.Done? {
        PrintKeeps(fuel, kids[1..], o.m.(out := o.m.out + Show(o.v) + if |kids| > 1 then " " else ""));
      }
    }
  }

  lemma {:induction false} LoopKeeps(fuel: nat, n: Node, m: Machine)
    requires |n.kids| >= 2
    ensures Keeps(EvalLoop(fuel, n, m), m)
    decreases fuel, n, 0
  {
    hide Eval;
    if fuel > 0 {
      EvalKeeps(fuel - 1, n.kids[0], m);
      var o := Eval(fuel - 1, n.kids[0], m);
      if o.Done? {
        EvalKeeps(fuel - 1, n.kids[1], o.m);
        var p := Eval(fuel - 1, n.kids[1], o.m);
        if p.Done? {
          LoopKeeps(fuel - 1, n, p.m.(cont := false));
          LoopKeeps(fuel - 1, n, p.m);
        }
      }
    }
  }

  lemma {:induction false} BlockKeeps(fuel: nat, kids: seq<Node>, m: Machine)
    ensures Keeps(EvalBlock(fuel, kids, m), m)
    decreases fuel, kids, 0
  {
    hide Eval;
    if kids != [] {
      EvalKeeps(fuel, kids[0], m);
      var o := Eval(fuel, kids[0], m);
      if o.Done? {
        BlockKeeps(fuel, kids[1..], o.m);
      }
    }
  }

  lemma {:induction false} ProgramKeeps(fuel: nat, kids: seq<Node>, m: Machine)
    ensures Keeps(EvalProgram(fuel, kids, m), m)
    decreases fuel, kids, 0
  {
    hide Eval;
    if kids != [] {
      EvalKeeps(fuel, kids[0], m);
      var o := Eval(fuel, kids[0], m);
      if o.Done? {
        ProgramKeeps(fuel, kids[1..], o.m);
      }
    }
  }

  // ----- A larger loop bound changes nothing -----

  predicate Same(o: Outcome, p: Outcome) { o.Done? ==> p == o }

  lemma {:induction false} EvalMore(f: nat, g: nat, n: Node, m: Machine)
    requires f <= g
    ensures Same(Eval(f, n, m), Eval(g, n, m))
    decreases f, n, 1
  {
    hide BinaryOp, UnaryOp, Find, Get, Set, Interp.Define;
    if !m.err {
      if n.kids != [] && n.typ in {AstVarDecl, AstAssign, AstBinaryOp, AstUnaryOp, AstIf, AstReturn} {
        EvalMore(f, g, n.kids[0], m);
        var o := Eval(f, n.kids[0], m);
        if o.Done? {
          if |n.kids| > 1 {
            EvalMore(f, g, n.kids[1], o.m);
          }
          if |n.kids| > 2 {
            EvalMore(f, g, n.kids[2], o.m);
          }
        }
      }
      match n.typ
      case AstPrint => PrintMore(f, g, n.kids, m);
      case AstWhile =>
        if |n.kids| >= 2 {
          LoopMore(f, g, n, m);
        }
      case AstBlock => BlockMore(f, g, n.kids, m);
      case AstProgram => ProgramMore(f, g, n.kids, m);
      case _ =>
    }
  }

  lemma {:induction false} PrintMore(f: nat, g: nat, kids: seq<Node>, m: Machine)
    requires f <= g
    ensures Same(EvalPrint(f, kids, m), EvalPrint(g, kids, m))
    decreases f, kids, 0
  {
    hide Eval, Show;
    if kids != [] {
      EvalMore(f, g, kids[0], m);
      var o := Eval(f, kids[0], m);
      if o.Done? {
        PrintMore(f, g, kids[1..], o.m.(out := o.m.out + Show(o.v) + if |kids| > 1 then " " else ""));
      }
    }
  }

  lemma {:induction false} LoopMore(f: nat, g: nat, n: Node, m: Machine)
    requires f <= g && |n.kids| >= 2
    ensures Same(EvalLoop(f, n, m), EvalLoop(g, n, m))
    decreases f, n, 0
  {
    hide Eval;
    if f > 0 {
      EvalMore(f - 1, g - 1, n.kids[0], m);
      var o := Eval(f - 1, n.kids[0], m);
      if o.Done? {
        EvalMore(f - 1, g - 1, n.kids[1], o.m);
        var p := Eval(f - 1, n.kids[1], o.m);
        if p.Done? {
          LoopMore(f - 1, g - 1, n, p.m.(cont := false));
          LoopMore(f - 1, g - 1, n, p.m);
        }
      }
    }
  }

  lemma {:induction false} BlockMore(f: nat, g: nat, kids: seq<Node>, m: Machine)
    requires f <= g
    ensures Same(EvalBlock(f, kids, m), EvalBlock(g, kids, m))
    decreases f, kids, 0
  {
    hide Eval;
    if kids != [] {
      EvalMore(f, g, kids[0], m);
      var o := Eval(f, kids[0], m);
      if o.Done? {
        BlockMore(f, g, kids[1..], o.m);
      }
    }
  }

  lemma {:induction false} ProgramMore(f: nat, g: nat, kids: seq<Node>, m: Machine)
    requires f <= g
    ensures Same(EvalProgram(f, kids, m), EvalProgram(g, kids, m))
    decreases f, kids, 0
  {
    hide Eval;
    if kids != [] {
      EvalMore(f, g, kids[0], m);
      var o := Eval(f, kids[0], m);
      if o.Done? {
        ProgramMore(f, g, kids[1..], o.m);
      }
    }
  }

  // ----- The evaluator follows the semantics -----

  function Cfg(m: Machine): Config { Config(MapOf(m.env), m.out) }

  /** No flag is set and there is no error. */
  predicate Clear(m: Machine) { !m.err && !m.brk && !m.cont && !m.ret && NoDuplicates(m.env) }

  /** At most one flag is set and there is no error. */
  predicate Settled(m: Machine) {
    !m.err && NoDuplicates(m.env) && !(m.brk && m.cont) && !(m.brk && m.ret) && !(m.cont && m.ret)
  }

  /** The completion that the flags stand for. */
  function Completed(m: Machine): Completion {
    if m.brk then Broke else if m.cont then Continued else if m.ret then Returned(m.retv) else Normal
  }

  /** `o` is a finished evaluation without an error, and fewer than 256 names are in use. */
  predicate Fair(o: Outcome) { o.Done? && !o.m.err && |o.m.env| < 256 }

  ghost predicate Follows(s: Stmt, m: Machine, m1: Machine) {
    Settled(m1) && Runs(s, Cfg(m), Completed(m1), Cfg(m1))
  }

  predicate LineAgrees(o: Outcome, line: Option<string>, m: Machine) {
    if line.Some? then o == Done(Null, m.(out := m.out + line.value)) else o == Lost || (o.Done? && o.m.err)
  }

  function Blank(es: seq<Expr>): string { if |es| > 1 then " " else "" }

  lemma PrintUnfold(fuel: nat, es: seq<Expr>, m: Machine)
    requires es != []
    ensures var o := Eval(fuel, ExprNode(es[0]), m);
            EvalPrint(fuel, ExprNodes(es), m) ==
            if !o.Done? then o else EvalPrint(fuel, ExprNodes(es[1..]), o.m.(out := o.m.out + Show(o.v) + Blank(es)))
  {
    hide Eval, ExprNode, Show;
    assert ExprNodes(es)[0] == ExprNode(es[0]) && ExprNodes(es)[1..] == ExprNodes(es[1..]);
  }

  lemma LineUnfold(es: seq<Expr>, store: Store)
    requires es != []
    ensures var v, rest := ValueOf(es[0], store), Line(es[1..], store);
            Line(es, store) == if v.None? || rest.None? then None else Some(Show(v.value) + Blank(es) + rest.value)
  {
    hide ValueOf, Show;
  }

  lemma {:induction false} EvalLine(fuel: nat, es: seq<Expr>, m: Machine)
    requires GoodExprs(es) && !m.err && NoDuplicates(m.env)
    ensures LineAgrees(EvalPrint(fuel, ExprNodes(es), m), Line(es, MapOf(m.env)), m)
    decreases es
  {
    hide Eval, ExprNode, ValueOf, Show, MapOf, Blank, NoDuplicates, GoodExpr;
    if es != [] {
      PrintUnfold(fuel, es, m);
      LineUnfold(es, MapOf(m.env));
      hide EvalPrint, Line, ExprNodes;
      EvalExpr(fuel, es[0], m);
      var v, o := ValueOf(es[0], MapOf(m.env)), Eval(fuel, ExprNode(es[0]), m);
      if v.Some? {
        var m1 := m.(out := m.out + Show(v.value) + Blank(es));
        EvalLine(fuel, es[1..], m1);
        var rest := Line(es[1..], MapOf(m.env));
        if rest.Some? {
          assert m1.out + rest.value == m.out + (Show(v.value) + Blank(es) + rest.value);
        }
      } else if o.Done? {
        ErrorPrints(fuel, ExprNodes(es[1..]), o.m.(out := o.m.out + Show(o.v) + Blank(es)));
      }
    }
  }

  /** After an error, printing goes on with `nic`, and ends. */
  lemma {:induction false} ErrorPrints(fuel: nat, kids: seq<Node>, m: Machine)
    requires m.err
    ensures EvalPrint(fuel, kids, m).Done? && EvalPrint(fuel, kids, m).m.err
    decreases kids
  {
    if kids != [] {
      ErrorPrints(fuel, kids[1..], m.(out := m.out + Show(Null) + if |kids| > 1 then " " else ""));
    }
  }

  lemma SimpleFollows(fuel: nat, s: Stmt, m: Machine)
    requires Good(s) && Clear(m) && Fair(Eval(fuel, StmtNode(s), m))
    requires !s.If? && !s.IfElse? && !s.While? && !s.Group?
    ensures Follows(s, m, Eval(fuel, StmtNode(s), m).m)
  {
    hide ExprNode, ExprNodes, MapOf, Interp.Define, Get, Set, ValueOf, NoDuplicates, GoodExpr, Line;
    EvalKeeps(fuel, StmtNode(s), m);
    match s
    case Declare(x) => DefineIsMap(m.env, x, Null);
    case Define(x, e) =>
      EvalExpr(fuel, e, m);
      var v := ValueOf(e, MapOf(m.env));
      if v.Some? {
        DefineIsMap(m.env, x, v.value);
      }
    case Assign(x, e) =>
      EvalExpr(fuel, e, m);
      var v := ValueOf(e, MapOf(m.env));
      if v.Some? {
        GetSetIsMap(m.env, x, v.value);
      }
    case Print(args) => EvalLine(fuel, args, m);
    case ReturnValue(e) => EvalExpr(fuel, e, m);
    case _ =>
  }

  /** A condition: when it holds or not, the machine is unchanged; otherwise there is an
      error, or the evaluator is lost at the test. */
  lemma EvalGuard(fuel: nat, e: Expr, m: Machine)
    requires GoodExpr(e) && Clear(m)
    ensures var o, h := Eval(fuel, ExprNode(e), m), Holds(e, MapOf(m.env));
            if h.Some? then o.Done? && o.m == m && Truthy(o.v) == h
            else o == Lost || (o.Done? && (o.m.err || Truthy(o.v).None?))
  {
    hide Eval, ExprNode, ValueOf, MapOf, NoDuplicates, GoodExpr;
    EvalExpr(fuel, e, m);
  }

  ghost predicate FollowsAll(ss: seq<Stmt>, m: Machine, m1: Machine) {
    Settled(m1) && RunsAll(ss, Cfg(m), Completed(m1), Cfg(m1))
  }

  lemma BlockNode(fuel: nat, ss: seq<Stmt>, m: Machine)
    requires !m.err
    ensures Eval(fuel, Bare(AstBlock, "", StmtNodes(ss)), m) == EvalBlock(fuel, StmtNodes(ss), m)
  {
    hide StmtNodes, EvalBlock;
  }

  /** A fair evaluation from a clear machine is a run of the semantics. */
  lemma {:induction false} EvalFollows(fuel: nat, s: Stmt, m: Machine)
    requires Good(s) && Clear(m) && Fair(Eval(fuel, StmtNode(s), m))
    ensures Follows(s, m, Eval(fuel, StmtNode(s), m).m)
    decreases fuel, s, 1
  {
    hide ExprNode, MapOf, NoDuplicates, GoodExpr, StmtNodes, Holds, Eval, EvalBlock;
    match s
    case If(e, t) =>
      EvalGuard(fuel, e, m);
      IfUnfold(fuel, s, m);
      BlockNode(fuel, t, m);
      if Holds(e, MapOf(m.env)) == Some(true) {
        BlockFollows(fuel, t, m);
      }
    case IfElse(e, t, f) =>
      EvalGuard(fuel, e, m);
      IfUnfold(fuel, s, m);
      BlockNode(fuel, t, m);
      BlockNode(fuel, f, m);
      if Holds(e, MapOf(m.env)) == Some(true) {
        BlockFollows(fuel, t, m);
      } else if Holds(e, MapOf(m.env)) == Some(false) {
        BlockFollows(fuel, f, m);
      }
    case While(e, body) =>
      WhileUnfold(fuel, s, m);
      LoopFollows(fuel, s, m);
    case Group(body) =>
      BlockNode(fuel, body, m);
      BlockFollows(fuel, body, m);
    case _ => SimpleFollows(fuel, s, m);
  }

  lemma IfUnfold(fuel: nat, s: Stmt, m: Machine)
    requires (s.If? || s.IfElse?) && !m.err
    ensures var o := Eval(fuel, ExprNode(s.c), m);
            Eval(fuel, StmtNode(s), m) ==
            if !o.Done? then o
            else if Truthy(o.v).None? then Lost
            else if Truthy(o.v).value then Eval(fuel, Bare(AstBlock, "", StmtNodes(s.t)), o.m)
            else if s.IfElse? then Eval(fuel, Bare(AstBlock, "", StmtNodes(s.f)), o.m)
            else Done(Null, o.m)
    ensures var o := Eval(fuel, ExprNode(s.c), m);
            o.Done? && o.m.err && Eval(fuel, StmtNode(s), m).Done? ==> Eval(fuel, StmtNode(s), m).m.err
  {
    hide ExprNode, StmtNodes;
    var o := Eval(fuel, ExprNode(s.c), m);
    if o.Done? {
      EvalKeeps(fuel, Bare(AstBlock, "", StmtNodes(s.t)), o.m);
      if s.IfElse? {
        EvalKeeps(fuel, Bare(AstBlock, "", StmtNodes(s.f)), o.m);
      }
    }
  }

  lemma WhileUnfold(fuel: nat, s: Stmt, m: Machine)
    requires s.While? && !m.err
    ensures Eval(fuel, StmtNode(s), m) == EvalLoop(fuel, StmtNode(s), m)
  {
    hide ExprNode, StmtNodes, EvalLoop;
  }

  lemma {:induction false} BlockFollows(fuel: nat, ss: seq<Stmt>, m: Machine)
    requires AllGood(ss) && Clear(m) && Fair(EvalBlock(fuel, StmtNodes(ss), m))
    ensures FollowsAll(ss, m, EvalBlock(fuel, StmtNodes(ss), m).m)
    decreases fuel, ss, 0
  {
    hide Eval, MapOf, NoDuplicates, Good, StmtNode;
    if ss != [] {
      assert StmtNodes(ss)[0] == StmtNode(ss[0]) && StmtNodes(ss)[1..] == StmtNodes(ss[1..]);
      var o := Eval(fuel, StmtNode(ss[0]), m);
      if o.Done? {
        BlockKeeps(fuel, StmtNodes(ss[1..]), o.m);
        EvalFollows(fuel, ss[0], m);
        if Completed(o.m) == Normal {
          BlockFollows(fuel, ss[1..], o.m);
        }
      }
    }
  }

  lemma SlowLoop(n: Node, m: Machine)
    requires |n.kids| >= 2
    ensures EvalLoop(0, n, m) == Slow
  {
  }

  lemma LoopUnfold(fuel: nat, s: Stmt, m: Machine)
    requires s.While? && fuel > 0
    ensures var n := StmtNode(s);
            var o := Eval(fuel - 1, ExprNode(s.c), m);
            EvalLoop(fuel, n, m) ==
            if !o.Done? then o
            else if Truthy(o.v).None? then Lost
            else if !Truthy(o.v).value then Done(Null, o.m)
            else
              var p := Eval(fuel - 1, Bare(AstBlock, "", StmtNodes(s.body)), o.m);
              if !p.Done? then p
              else if p.m.brk then Done(Null, p.m.(brk := false))
              else if p.m.cont then EvalLoop(fuel - 1, n, p.m.(cont := false))
              else if p.m.ret then Done(Null, p.m)
              else EvalLoop(fuel - 1, n, p.m)
  {
    hide ExprNode, StmtNodes, Eval;
  }

  lemma {:induction false} LoopFollows(fuel: nat, s: Stmt, m: Machine)
    requires s.While? && Good(s) && Clear(m) && Fair(EvalLoop(fuel, StmtNode(s), m))
    ensures Follows(s, m, EvalLoop(fuel, StmtNode(s), m).m)
    ensures !EvalLoop(fuel, StmtNode(s), m).m.brk && !EvalLoop(fuel, StmtNode(s), m).m.cont
    decreases fuel, s, 0
  {
    hide ExprNode, MapOf, NoDuplicates, GoodExpr, StmtNodes, Holds, Eval, EvalBlock, EvalLoop;
    SlowLoop(StmtNode(s), m);
    if fuel > 0 {
      var n := StmtNode(s);
      EvalGuard(fuel - 1, s.c, m);
      LoopUnfold(fuel, s, m);
      hide StmtNode;
      var o := Eval(fuel - 1, ExprNode(s.c), m);
      if o.Done? && Truthy(o.v) == Some(true) {
        BlockNode(fuel - 1, s.body, m);
        var p := Eval(fuel - 1, Bare(AstBlock, "", StmtNodes(s.body)), o.m);
        EvalKeeps(fuel - 1, Bare(AstBlock, "", StmtNodes(s.body)), o.m);
        if p.Done? {
          LoopKeeps(fuel - 1, n, p.m);
          LoopKeeps(fuel - 1, n, p.m.(cont := false));
          BlockFollows(fuel - 1, s.body, m);
          if p.m.cont {
            LoopFollows(fuel - 1, s, p.m.(cont := false));
          } else if !p.m.brk && !p.m.ret {
            LoopFollows(fuel - 1, s, p.m);
          }
        }
      }
    }
  }

  // ----- Every run of the semantics is an evaluation -----

  /** The first round of a loop that is entered. */
  lemma FirstRound(n: ORDINAL, s: Stmt, c: Config, k: Completion, d: Config) returns (k1: Completion, c1: Config)
    requires n.Offset > 0 && s.While? && Runs#[n](s, c, k, d) && Holds(s.c, c.store) == Some(true)
    ensures RunsAll#[n - 1](s.body, c, k1, c1)
    ensures if Leaves(k1) then k == Outside(k1) && d == c1 else Runs#[n - 1](s, c1, k, d)
  {
    hide Holds, Leaves, Outside;
    k1, c1 :|
      && RunsAll#[n - 1](s.body, c, k1, c1)
      && if Leaves(k1) then k == Outside(k1) && d == c1 else Runs#[n - 1](s, c1, k, d);
  }

  /** The first statement of a list. */
  lemma FirstRun(n: ORDINAL, ss: seq<Stmt>, c: Config, k: Completion, d: Config) returns (k1: Completion, c1: Config)
    requires n.Offset > 0 && ss != [] && RunsAll#[n](ss, c, k, d)
    ensures Runs#[n - 1](ss[0], c, k1, c1)
    ensures if k1 == Normal then RunsAll#[n - 1](ss[1..], c1, k, d) else k == k1 && d == c1
  {
    k1, c1 :|
      && Runs#[n - 1](ss[0], c, k1, c1)
      && if k1 == Normal then RunsAll#[n - 1](ss[1..], c1, k, d) else k == k1 && d == c1;
  }

  least lemma RunsGrow(s: Stmt, c: Config, k: Completion, d: Config)
    requires Runs(s, c, k, d)
    ensures c.store.Keys <= d.store.Keys
  {
    hide ValueOf, Holds, Line;
    match s
    case If(e, t) =>
      if Holds(e, c.store).value {
        RunsAllGrow(t, c, k, d);
      }
    case IfElse(e, t, f) =>
      if Holds(e, c.store).value {
        RunsAllGrow(t, c, k, d);
      } else {
        RunsAllGrow(f, c, k, d);
      }
    case While(e, body) =>
      if Holds(e, c.store).value {
        var k1, c1 := FirstRound(_k, s, c, k, d);
        RunsAllGrow(body, c, k1, c1);
        if !Leaves(k1) {
          RunsGrow(s, c1, k, d);
        }
      }
    case Group(body) => RunsAllGrow(body, c, k, d);
    case _ =>
  }

  least lemma RunsAllGrow(ss: seq<Stmt>, c: Config, k: Completion, d: Config)
    requires RunsAll(ss, c, k, d)
    ensures c.store.Keys <= d.store.Keys
  {
    if ss != [] {
      var k1, c1 := FirstRun(_k, ss, c, k, d);
      RunsGrow(ss[0], c, k1, c1);
      if k1 == Normal {
        RunsAllGrow(ss[1..], c1, k, d);
      }
    }
  }

  /** The evaluation `o` ends as the run to `d` with completion `k` does. */
  predicate Reaches(o: Outcome, k: Completion, d: Config) {
    o.Done? && Settled(o.m) && Completed(o.m) == k && Cfg(o.m) == d
  }

  lemma StoreSize(m: Machine)
    requires NoDuplicates(m.env)
    ensures |Cfg(m).store| == |m.env|
  {
    MapAt(m.env, "");
  }

  lemma SizeGrows(c: Config, d: Config)
    requires c.store.Keys <= d.store.Keys
    ensures |c.store| <= |d.store|
  {
    SubsetSize(c.store.Keys, d.store.Keys);
  }

  lemma {:induction false} SubsetSize(a: set<string>, b: set<string>)
    requires a <= b
    ensures |a| <= |b|
    decreases a
  {
    if a != {} {
      var x :| x in a;
      SubsetSize(a - {x}, b - {x});
    }
  }

  predicate IsSimple(s: Stmt) { !s.If? && !s.IfElse? && !s.While? && !s.Group? }

  function Updated(c: Config, x: string, v: Option<Value>): Option<(Completion, Config)> {
    if v.None? then None else Some((Normal, c.(store := c.store[x := v.value])))
  }

  /** The one way to run a statement without blocks. */
  function SimpleRun(s: Stmt, c: Config): Option<(Completion, Config)> {
    match s
    case Declare(x) => Updated(c, x, Some(Null))
    case Define(x, e) => Updated(c, x, ValueOf(e, c.store))
    case Assign(x, e) => if x in c.store then Updated(c, x, ValueOf(e, c.store)) else None
    case Print(args) =>
      if Line(args, c.store).None? then None
      else Some((Normal, c.(out := c.out + Line(args, c.store).value)))
    case Return => Some((Returned(Null), c))
    case ReturnValue(e) => if ValueOf(e, c.store).None? then None else Some((Returned(ValueOf(e, c.store).value), c))
    case Break => Some((Broke, c))
    case Continue => Some((Continued, c))
    case _ => None
  }

  lemma SimpleRuns(s: Stmt, c: Config, k: Completion, d: Config)
    requires IsSimple(s)
    ensures Runs(s, c, k, d) <==> SimpleRun(s, c) == Some((k, d))
  {
    hide ValueOf, Line;
  }

  lemma SimpleEval(s: Stmt, c: Config, k: Completion, d: Config, m: Machine)
    requires SimpleRun(s, c) == Some((k, d)) && Good(s) && Clear(m) && Cfg(m) == c && |m.env| < 256
    ensures Reaches(Eval(0, StmtNode(s), m), k, d)
  {
    hide ExprNode, ExprNodes, MapOf, Interp.Define, Get, Set, ValueOf, NoDuplicates, GoodExpr, Line;
    match s
    case Declare(x) => DefineIsMap(m.env, x, Null);
    case Define(x, e) =>
      EvalExpr(0, e, m);
      DefineIsMap(m.env, x, ValueOf(e, c.store).value);
    case Assign(x, e) =>
      EvalExpr(0, e, m);
      GetSetIsMap(m.env, x, ValueOf(e, c.store).value);
    case Print(args) => EvalLine(0, args, m);
    case ReturnValue(e) => EvalExpr(0, e, m);
    case _ =>
  }

  ghost predicate Evaluates(s: Stmt, m: Machine, k: Completion, d: Config) {
    exists fuel: nat :: Reaches(Eval(fuel, StmtNode(s), m), k, d)
  }

  ghost predicate EvaluatesAll(ss: seq<Stmt>, m: Machine, k: Completion, d: Config) {
    exists fuel: nat :: Reaches(EvalBlock(fuel, StmtNodes(ss), m), k, d)
  }

  lemma IfEval(s: Stmt, ss: seq<Stmt>, m: Machine, k: Completion, d: Config)
    requires (s.If? || s.IfElse?) && Good(s) && Clear(m) && Holds(s.c, MapOf(m.env)).Some? && EvaluatesAll(ss, m, k, d)
    requires if Holds(s.c, MapOf(m.env)).value then ss == s.t else s.IfElse? && ss == s.f
    ensures Evaluates(s, m, k, d)
  {
    hide Eval, EvalBlock, StmtNodes, Reaches, Holds, MapOf, NoDuplicates, ExprNode, StmtNode;
    var fuel: nat :| Reaches(EvalBlock(fuel, StmtNodes(ss), m), k, d);
    EvalGuard(fuel, s.c, m);
    IfUnfold(fuel, s, m);
    BlockNode(fuel, ss, m);
    assert Reaches(Eval(fuel, StmtNode(s), m), k, d);
  }

  lemma IfSkip(s: Stmt, m: Machine)
    requires s.If? && Good(s) && Clear(m) && Holds(s.c, MapOf(m.env)) == Some(false)
    ensures Evaluates(s, m, Normal, Cfg(m))
  {
    hide Eval, EvalBlock, StmtNodes, Holds, MapOf, NoDuplicates, ExprNode, StmtNode;
    EvalGuard(0, s.c, m);
    IfUnfold(0, s, m);
    assert Reaches(Eval(0, StmtNode(s), m), Normal, Cfg(m));
  }

  lemma GroupEval(s: Stmt, m: Machine, k: Completion, d: Config)
    requires s.Group? && Clear(m) && EvaluatesAll(s.body, m, k, d)
    ensures Evaluates(s, m, k, d)
  {
    hide Eval, EvalBlock, StmtNodes, Reaches, MapOf, NoDuplicates;
    var fuel: nat :| Reaches(EvalBlock(fuel, StmtNodes(s.body), m), k, d);
    BlockNode(fuel, s.body, m);
    assert Reaches(Eval(fuel, StmtNode(s), m), k, d);
  }

  /** The machine after `o`, with the flags cleared. */
  function Cleared(o: Outcome): Machine
    requires o.Done?
  {
    o.m.(brk := false, cont := false, ret := false)
  }

  lemma LoopStops(s: Stmt, m: Machine)
    requires s.While? && Good(s) && Clear(m) && Holds(s.c, MapOf(m.env)) == Some(false)
    ensures Evaluates(s, m, Normal, Cfg(m))
  {
    hide Eval, EvalLoop, StmtNodes, Holds, MapOf, NoDuplicates, ExprNode, StmtNode;
    EvalGuard(0, s.c, m);
    LoopUnfold(1, s, m);
    WhileUnfold(1, s, m);
    assert Reaches(Eval(1, StmtNode(s), m), Normal, Cfg(m));
  }

  /** One round whose body ends the loop. */
  lemma LoopLeaves(s: Stmt, m: Machine, k1: Completion, d: Config)
    requires s.While? && Good(s) && Clear(m) && Holds(s.c, MapOf(m.env)) == Some(true)
    requires EvaluatesAll(s.body, m, k1, d) && Leaves(k1)
    ensures Evaluates(s, m, Outside(k1), d)
  {
    hide Eval, EvalBlock, EvalLoop, StmtNodes, Holds, MapOf, NoDuplicates, ExprNode, StmtNode;
    var fuel: nat :| Reaches(EvalBlock(fuel, StmtNodes(s.body), m), k1, d);
    EvalGuard(fuel, s.c, m);
    LoopUnfold(fuel + 1, s, m);
    WhileUnfold(fuel + 1, s, m);
    BlockNode(fuel, s.body, m);
    assert Reaches(Eval(fuel + 1, StmtNode(s), m), Outside(k1), d);
  }

  /** One round, `f` enough for its body, and the rest of the loop, `g` enough for it. */
  lemma LoopGoesOn(s: Stmt, m: Machine, k1: Completion, c1: Config, k: Completion, d: Config, f: nat, g: nat)
    requires s.While? && Good(s) && Clear(m) && Holds(s.c, MapOf(m.env)) == Some(true)
    requires Reaches(EvalBlock(f, StmtNodes(s.body), m), k1, c1) && !Leaves(k1)
    requires Reaches(Eval(g, StmtNode(s), Cleared(EvalBlock(f, StmtNodes(s.body), m))), k, d)
    ensures Evaluates(s, m, k, d)
  {
    hide Eval, EvalBlock, EvalLoop, StmtNodes, Holds, MapOf, NoDuplicates, ExprNode, StmtNode;
    var h := Max(f, g);
    var o := EvalBlock(f, StmtNodes(s.body), m);
    EvalGuard(h, s.c, m);
    LoopUnfold(h + 1, s, m);
    WhileUnfold(h + 1, s, m);
    WhileUnfold(h, s, Cleared(o));
    BlockNode(h, s.body, m);
    BlockMore(f, h, StmtNodes(s.body), m);
    EvalMore(g, h, StmtNode(s), Cleared(o));
    assert Reaches(Eval(h + 1, StmtNode(s), m), k, d);
  }

  /** A run from a clear machine's configuration is an evaluation, for some loop bound. */
  least lemma RunsEval(s: Stmt, c: Config, k: Completion, d: Config, m: Machine)
    requires Runs(s, c, k, d) && Good(s) && Clear(m) && Cfg(m) == c && |d.store| < 256
    ensures Evaluates(s, m, k, d)
  {
    hide ValueOf, Holds, Line, Evaluates, EvaluatesAll, Good, NoDuplicates, MapOf;
    GoodParts(s);
    match s
    case If(e, t) =>
      if Holds(e, c.store).value {
        RunsAllEval(t, c, k, d, m);
        IfEval(s, t, m, k, d);
      } else {
        IfSkip(s, m);
      }
    case IfElse(e, t, f) =>
      if Holds(e, c.store).value {
        RunsAllEval(t, c, k, d, m);
        IfEval(s, t, m, k, d);
      } else {
        RunsAllEval(f, c, k, d, m);
        IfEval(s, f, m, k, d);
      }
    case While(e, body) =>
      if Holds(e, c.store).value {
        var k1, c1 := FirstRound(_k, s, c, k, d);
        if !Leaves(k1) {
          RunsGrow(s, c1, k, d);
          SizeGrows(c1, d);
          forall m1 | Clear(m1) && Cfg(m1) == c1
            ensures Evaluates(s, m1, k, d)
          {
            RunsEval(s, c1, k, d, m1);
          }
        }
        RunsAllEval(body, c, k1, c1, m);
        LoopRound(s, m, k1, c1, k, d);
      } else {
        LoopStops(s, m);
      }
    case Group(body) =>
      RunsAllEval(body, c, k, d, m);
      GroupEval(s, m, k, d);
    case _ =>
      SimpleCase(s, c, k, d, m);
  }

  /** One round of a loop, given what the rest of the loop does. */
  lemma LoopRound(s: Stmt, m: Machine, k1: Completion, c1: Config, k: Completion, d: Config)
    requires s.While? && Good(s) && Clear(m) && Holds(s.c, MapOf(m.env)) == Some(true) &&
             EvaluatesAll(s.body, m, k1, c1)
    requires Leaves(k1) ==> k == Outside(k1) && d == c1
    requires !Leaves(k1) ==> forall m1 :: Clear(m1) && Cfg(m1) == c1 ==> Evaluates(s, m1, k, d)
    ensures Evaluates(s, m, k, d)
  {
    hide Evaluates, EvaluatesAll, Good, Eval, EvalBlock, StmtNode, StmtNodes, Holds, MapOf, NoDuplicates, Reaches;
    if Leaves(k1) {
      LoopLeaves(s, m, k1, d);
    } else {
      var f := FuelAll(s.body, m, k1, c1);
      var m1 := Cleared(EvalBlock(f, StmtNodes(s.body), m));
      var g := Fuel(s, m1, k, d);
      LoopGoesOn(s, m, k1, c1, k, d, f, g);
    }
  }

  lemma GoodParts(s: Stmt)
    requires Good(s)
    ensures s.If? || s.IfElse? ==> AllGood(s.t)
    ensures s.IfElse? ==> AllGood(s.f)
    ensures s.While? || s.Group? ==> AllGood(s.body)
  {
  }

  lemma SimpleCase(s: Stmt, c: Config, k: Completion, d: Config, m: Machine)
    requires IsSimple(s) && Runs(s, c, k, d) && Good(s) && Clear(m) && Cfg(m) == c && |d.store| < 256
    ensures Evaluates(s, m, k, d)
  {
    hide Runs, Good, Eval, SimpleRun, Reaches, NoDuplicates, MapOf, StmtNode;
    RunsGrow(s, c, k, d);
    SizeGrows(c, d);
    StoreSize(m);
    SimpleRuns(s, c, k, d);
    SimpleEval(s, c, k, d, m);
  }

  lemma FuelAll(ss: seq<Stmt>, m: Machine, k: Completion, d: Config) returns (fuel: nat)
    requires EvaluatesAll(ss, m, k, d)
    ensures var o := EvalBlock(fuel, StmtNodes(ss), m);
            o.Done? && Reaches(o, k, d) && (!Leaves(k) ==> Clear(Cleared(o)) && Cfg(Cleared(o)) == d)
  {
    hide EvalBlock, NoDuplicates, MapOf, StmtNodes;
    fuel :| Reaches(EvalBlock(fuel, StmtNodes(ss), m), k, d);
  }

  lemma Fuel(s: Stmt, m: Machine, k: Completion, d: Config) returns (fuel: nat)
    requires Evaluates(s, m, k, d)
    ensures Reaches(Eval(fuel, StmtNode(s), m), k, d)
  {
    hide Eval, Reaches, StmtNode;
    fuel :| Reaches(Eval(fuel, StmtNode(s), m), k, d);
  }

  least lemma RunsAllEval(ss: seq<Stmt>, c: Config, k: Completion, d: Config, m: Machine)
    requires RunsAll(ss, c, k, d) && AllGood(ss) && Clear(m) && Cfg(m) == c && |d.store| < 256
    ensures EvaluatesAll(ss, m, k, d)
  {
    hide Evaluates, EvaluatesAll, Good, NoDuplicates, MapOf, Eval, StmtNodes;
    if ss == [] {
      NothingEval(m);
    } else {
      var k1, c1 := FirstRun(_k, ss, c, k, d);
      if k1 == Normal {
        RunsAllGrow(ss[1..], c1, k, d);
        SizeGrows(c1, d);
        RunsEval(ss[0], c, k1, c1, m);
        var f := Fuel(ss[0], m, k1, c1);
        var m1 := Eval(f, StmtNode(ss[0]), m).m;
        RunsAllEval(ss[1..], c1, k, d, m1);
        var g := FuelAll(ss[1..], m1, k, d);
        BlockGoesOn(ss, m, c1, k, d, f, g);
      } else {
        RunsEval(ss[0], c, k1, c1, m);
        var f := Fuel(ss[0], m, k1, c1);
        BlockLeaves(ss, m, k, d, f);
      }
    }
  }

  lemma NothingEval(m: Machine)
    requires Clear(m)
    ensures EvaluatesAll([], m, Normal, Cfg(m))
  {
    hide NoDuplicates, MapOf;
    assert Reaches(EvalBlock(0, StmtNodes([]), m), Normal, Cfg(m));
  }

  lemma BlockUnfold(fuel: nat, ss: seq<Stmt>, m: Machine)
    requires ss != []
    ensures var o := Eval(fuel, StmtNode(ss[0]), m);
            EvalBlock(fuel, StmtNodes(ss), m) ==
            if !o.Done? then o
            else if o.m.ret || o.m.brk || o.m.cont then Done(Null, o.m)
            else EvalBlock(fuel, StmtNodes(ss[1..]), o.m)
  {
    hide Eval, StmtNode;
    assert StmtNodes(ss)[0] == StmtNode(ss[0]) && StmtNodes(ss)[1..] == StmtNodes(ss[1..]);
  }

  lemma BlockLeaves(ss: seq<Stmt>, m: Machine, k: Completion, d: Config, f: nat)
    requires ss != [] && Reaches(Eval(f, StmtNode(ss[0]), m), k, d) && k != Normal
    ensures EvaluatesAll(ss, m, k, d)
  {
    hide Eval, EvalBlock, StmtNodes, StmtNode, NoDuplicates, MapOf;
    BlockUnfold(f, ss, m);
    assert Reaches(EvalBlock(f, StmtNodes(ss), m), k, d);
  }

  lemma BlockGoesOn(ss: seq<Stmt>, m: Machine, c1: Config, k: Completion, d: Config, f: nat, g: nat)
    requires ss != [] && Reaches(Eval(f, StmtNode(ss[0]), m), Normal, c1)
    requires Reaches(EvalBlock(g, StmtNodes(ss[1..]), Eval(f, StmtNode(ss[0]), m).m), k, d)
    ensures EvaluatesAll(ss, m, k, d)
  {
    hide Eval, EvalBlock, StmtNodes, StmtNode, NoDuplicates, MapOf;
    var h, m1 := Max(f, g), Eval(f, StmtNode(ss[0]), m).m;
    EvalMore(f, h, StmtNode(ss[0]), m);
    BlockMore(g, h, StmtNodes(ss[1..]), m1);
    BlockUnfold(h, ss, m);
    assert Reaches(EvalBlock(h, StmtNodes(ss), m), k, d);
  }

  // ----- The results -----

  /** From a clear machine, and with fewer than 256 names in use at the end, the evaluator can
      end without an error, with completion `k` and in configuration `d`, if and only if the
      semantics can. */
  lemma EvaluatorIsSemantics(s: Stmt, m: Machine, k: Completion, d: Config)
    requires Good(s) && Clear(m) && |d.store| < 256
    ensures Evaluates(s, m, k, d) <==> Runs(s, Cfg(m), k, d)
  {
    hide Evaluates, Runs, Good, Eval, StmtNode, NoDuplicates, MapOf;
    if Runs(s, Cfg(m), k, d) {
      RunsEval(s, Cfg(m), k, d, m);
    }
    if Evaluates(s, m, k, d) {
      var fuel := Fuel(s, m, k, d);
      StoreSize(Eval(fuel, StmtNode(s), m).m);
      EvalFollows(fuel, s, m);
    }
  }

  /** A loop that ends without an error leaves the break and continue flags clear. */
  lemma LoopClearsFlags(fuel: nat, s: Stmt, m: Machine)
    requires s.While? && Good(s) && Clear(m) && Fair(Eval(fuel, StmtNode(s), m))
    ensures !Eval(fuel, StmtNode(s), m).m.brk && !Eval(fuel, StmtNode(s), m).m.cont
  {
    hide Good, Eval, EvalLoop, StmtNode, NoDuplicates, Follows;
    WhileUnfold(fuel, s, m);
    LoopFollows(fuel, s, m);
  }

  /** Blocks that run to their end do what AST_PROGRAM does. */
  lemma {:induction false} ProgramIsBlock(fuel: nat, kids: seq<Node>, m: Machine)
    requires var o := EvalBlock(fuel, kids, m); o.Done? && !o.m.err && Completed(o.m) == Normal
    ensures EvalProgram(fuel, kids, m) == EvalBlock(fuel, kids, m)
    decreases kids
  {
    hide Eval;
    if kids != [] {
      var o := Eval(fuel, kids[0], m);
      if o.Done? && !(o.m.ret || o.m.brk || o.m.cont) {
        BlockKeeps(fuel, kids[1..], o.m);
        ProgramIsBlock(fuel, kids[1..], o.m);
      }
    }
  }

  /** A program whose statements all complete normally is evaluated to the same end. */
  lemma ProgramRuns(ss: seq<Stmt>, m: Machine, d: Config) returns (fuel: nat)
    requires AllGood(ss) && Clear(m) && |d.store| < 256 && RunsAll(ss, Cfg(m), Normal, d)
    ensures Reaches(Eval(fuel, Bare(AstProgram, "", StmtNodes(ss)), m), Normal, d)
  {
    hide RunsAll, Good, EvaluatesAll, EvalBlock, EvalProgram, StmtNodes, NoDuplicates, MapOf;
    RunsAllEval(ss, Cfg(m), Normal, d, m);
    fuel := FuelAll(ss, m, Normal, d);
    ProgramIsBlock(fuel, StmtNodes(ss), m);
  }

  /** Statements that leave no enclosing loop or block: no return, and break and continue only
      inside a loop. */
  predicate Stays(s: Stmt, inLoop: bool) {
    match s
    case Return => false
    case ReturnValue(_) => false
    case Break => inLoop
    case Continue => inLoop
    case If(_, t) => AllStay(t, inLoop)
    case IfElse(_, t, f) => AllStay(t, inLoop) && AllStay(f, inLoop)
    case While(_, body) => AllStay(body, true)
    case Group(body) => AllStay(body, inLoop)
    case _ => true
  }

  predicate AllStay(ss: seq<Stmt>, inLoop: bool) {
    forall i :: 0 <= i < |ss| ==> Stays(ss[i], inLoop)
  }

  predicate Ends(k: Completion, inLoop: bool) {
    k == Normal || (inLoop && (k == Broke || k == Continued))
  }

  least lemma StaysEnds(s: Stmt, c: Config, k: Completion, d: Config, inLoop: bool)
    requires Runs(s, c, k, d) && Stays(s, inLoop)
    ensures Ends(k, inLoop)
  {
    hide ValueOf, Holds, Line;
    match s
    case If(e, t) =>
      if Holds(e, c.store).value {
        AllStayEnds(t, c, k, d, inLoop);
      }
    case IfElse(e, t, f) =>
      if Holds(e, c.store).value {
        AllStayEnds(t, c, k, d, inLoop);
      } else {
        AllStayEnds(f, c, k, d, inLoop);
      }
    case While(e, body) =>
      if Holds(e, c.store).value {
        var k1, c1 := FirstRound(_k, s, c, k, d);
        AllStayEnds(body, c, k1, c1, true);
        if !Leaves(k1) {
          StaysEnds(s, c1, k, d, inLoop);
        }
      }
    case Group(body) => AllStayEnds(body, c, k, d, inLoop);
    case _ =>
  }

  least lemma AllStayEnds(ss: seq<Stmt>, c: Config, k: Completion, d: Config, inLoop: bool)
    requires RunsAll(ss, c, k, d) && AllStay(ss, inLoop)
    ensures Ends(k, inLoop)
  {
    hide Stays;
    if ss != [] {
      var k1, c1 := FirstRun(_k, ss, c, k, d);
      StaysEnds(ss[0], c, k1, c1, inLoop);
      if k1 == Normal {
        AllStayEnds(ss[1..], c1, k, d, inLoop);
      }
    }
  }

  lemma ProgramUnfold(fuel: nat, ss: seq<Stmt>, m: Machine)
    requires ss != []
    ensures var o := Eval(fuel, StmtNode(ss[0]), m);
            EvalProgram(fuel, StmtNodes(ss), m) ==
            if !o.Done? then o else if o.m.err then Done(Null, o.m) else EvalProgram(fuel, StmtNodes(ss[1..]), o.m)
  {
    hide Eval, StmtNode;
    assert StmtNodes(ss)[0] == StmtNode(ss[0]) && StmtNodes(ss)[1..] == StmtNodes(ss[1..]);
  }

  lemma {:induction false} ProgramFollows(fuel: nat, ss: seq<Stmt>, m: Machine)
    requires AllGood(ss) && AllStay(ss, false) && Clear(m) && Fair(EvalProgram(fuel, StmtNodes(ss), m))
    ensures FollowsAll(ss, m, EvalProgram(fuel, StmtNodes(ss), m).m)
    decreases ss
  {
    hide Eval, EvalProgram, MapOf, NoDuplicates, Good, StmtNode, StmtNodes, Stays;
    if ss == [] {
      EmptyProgram(fuel, m);
    } else {
      ProgramUnfold(fuel, ss, m);
      var o := Eval(fuel, StmtNode(ss[0]), m);
      if o.Done? {
        ProgramKeeps(fuel, StmtNodes(ss[1..]), o.m);
        EvalFollows(fuel, ss[0], m);
        StaysEnds(ss[0], Cfg(m), Completed(o.m), Cfg(o.m), false);
        ProgramFollows(fuel, ss[1..], o.m);
      }
    }
  }

  lemma EmptyProgram(fuel: nat, m: Machine)
    ensures EvalProgram(fuel, StmtNodes([]), m) == Done(Null, m)
  {
  }

  lemma ProgramNode(fuel: nat, ss: seq<Stmt>, m: Machine)
    requires !m.err
    ensures Eval(fuel, Bare(AstProgram, "", StmtNodes(ss)), m) == EvalProgram(fuel, StmtNodes(ss), m)
  {
    hide StmtNodes, EvalProgram;
  }

  ghost predicate EvaluatesProgram(ss: seq<Stmt>, m: Machine, d: Config) {
    exists fuel: nat :: Reaches(Eval(fuel, Bare(AstProgram, "", StmtNodes(ss)), m), Normal, d)
  }

  /** A program with no return, and break and continue only inside loops, is evaluated to the
      end `d` if and only if the semantics runs it there. */
  lemma ProgramIsSemantics(ss: seq<Stmt>, m: Machine, d: Config)
    requires AllGood(ss) && AllStay(ss, false) && Clear(m) && |d.store| < 256
    ensures EvaluatesProgram(ss, m, d) <==> RunsAll(ss, Cfg(m), Normal, d)
  {
    hide RunsAll, Good, Eval, EvalProgram, StmtNodes, NoDuplicates, MapOf, AllStay;
    if RunsAll(ss, Cfg(m), Normal, d) {
      var fuel := ProgramRuns(ss, m, d);
      assert Reaches(Eval(fuel, Bare(AstProgram, "", StmtNodes(ss)), m), Normal, d);
    }
    if EvaluatesProgram(ss, m, d) {
      var fuel: nat :| Reaches(Eval(fuel, Bare(AstProgram, "", StmtNodes(ss)), m), Normal, d);
      ProgramNode(fuel, ss, m);
      StoreSize(EvalProgram(fuel, StmtNodes(ss), m).m);
      ProgramFollows(fuel, ss, m);
    }
  }

  // ----- A break outside a loop -----

  /** A break, then a loop that defines `x` over and over. */
  const STRAY: seq<Stmt> := [Break, While(Truth(true), [Declare("x")])]

  /** AST_PROGRAM goes on after a break outside a loop; the next loop then ends after the first
      statement of its body and clears the flag. */
  lemma StrayBreak(m: Machine, d: Config)
    requires Clear(m) && |m.env| < 256
    ensures EvaluatesProgram(STRAY, m, Cfg(m).(store := Cfg(m).store["x" := Null]))
    ensures !RunsAll(STRAY, Cfg(m), Normal, d)
  {
    hide MapOf, NoDuplicates, Find, RunsAll;
    StrayEval(m);
    DefineIsMap(m.env, "x", Null);
    assert Reaches(Eval(1, Bare(AstProgram, "", StmtNodes(STRAY)), m), Normal,
      Cfg(m).(store := Cfg(m).store["x" := Null]));
    if RunsAll(STRAY, Cfg(m), Normal, d) {
      StrayRuns(STRAY, Cfg(m), Normal, d);
    }
  }

  lemma StrayEval(m: Machine)
    requires !m.err && !m.brk && !m.cont && !m.ret
    ensures Eval(1, Bare(AstProgram, "", StmtNodes(STRAY)), m) == Done(Null, m.(env := Interp.Define(m.env, "x", Null)))
  {
    hide Eval, EvalLoop, EvalBlock, EvalProgram, StmtNode, StmtNodes, ExprNode, Interp.Define;
    var loop, m1 := STRAY[1], m.(brk := true);
    var m2 := m1.(env := Interp.Define(m.env, "x", Null));
    assert STRAY[1..] == [loop] && [loop][1..] == [];
    ProgramNode(1, STRAY, m);
    ProgramUnfold(1, STRAY, m);
    ProgramUnfold(1, [loop], m1);
    EmptyProgram(1, m2.(brk := false));
    StraySteps(m, m1);
    WhileUnfold(1, loop, m1);
    LoopUnfold(1, loop, m1);
    BlockNode(0, [Declare("x")], m1);
    BlockUnfold(0, [Declare("x")], m1);
  }

  lemma StraySteps(m: Machine, m1: Machine)
    requires !m.err && !m1.err
    ensures Eval(1, StmtNode(Break), m) == Done(Null, m.(brk := true))
    ensures Eval(0, StmtNode(Declare("x")), m1) == Done(Null, m1.(env := Interp.Define(m1.env, "x", Null)))
    ensures Eval(0, ExprNode(Truth(true)), m1) == Done(Bool(true), m1)
  {
    hide Interp.Define;
  }

  least lemma StrayRuns(ss: seq<Stmt>, c: Config, k: Completion, d: Config)
    requires RunsAll(ss, c, k, d) && ss != [] && ss[0] == Break
    ensures k == Broke
  {
    var k1, c1 := FirstRun(_k, ss, c, k, d);
    BreakBreaks(_k - 1, c, k1, c1);
  }

  lemma BreakBreaks(n: ORDINAL, c: Config, k: Completion, d: Config)
    requires Runs#[n](Break, c, k, d)
    ensures k == Broke
  {
  }
}
