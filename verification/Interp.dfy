/** The PolskiScript evaluator on syntax trees (kernel/lang/polskiscript.c), with its break,
    continue and return flags.  Values are integers, truth values and `nic`. */
module Interp {
  import opened Common
  import opened Syntax
  import opened Numerals

  datatype Value = Null | Int(i: int) | Bool(b: bool)

  // ----- Environments -----

  const ENV_MAX_VARS := 256

  /** The names in use and their values, in order of definition. */
  type Env = seq<(string, Value)>

  /** The position of `x`, or the number of names if it is not there. */
  function Find(env: Env, x: string): (k: nat)
    ensures k <= |env| && (k < |env| ==> env[k].0 == x)
    ensures forall j :: 0 <= j < k ==> env[j].0 != x
  {
    if env == [] || env[0].0 == x then 0
    else
      var k := Find(env[1..], x);
      assert forall j :: 0 < j < 1 + k ==> env[j] == env[1..][j - 1];
      1 + k
  }

  function Define(env: Env, x: string, v: Value): Env {
    if |env| >= ENV_MAX_VARS then env
    else if Find(env, x) < |env| then env[Find(env, x) := (x, v)]
    else env + [(x, v)]
  }

  function Get(env: Env, x: string): Option<Value> {
    if Find(env, x) < |env| then Some(env[Find(env, x)].1) else None
  }

  /** None if `x` is not defined. */
  function Set(env: Env, x: string, v: Value): Option<Env> {
    if Find(env, x) < |env| then Some(env[Find(env, x) := (x, v)]) else None
  }

  class Environment {
    const names: array<string>
    const values: array<Value>
    var count: nat

    constructor ()
      ensures Valid() && Contents() == [] && fresh(names) && fresh(values)
    {
      names := new string[256](_ => "");
      values := new Value[256](_ => Null);
      count := 0;
    }

    ghost predicate Valid()
      reads this
    {
      names.Length == values.Length == ENV_MAX_VARS && count <= ENV_MAX_VARS
    }

    ghost function Contents(): (env: Env)
      requires Valid()
      reads this, names, values
      ensures |env| == count
      ensures forall j :: 0 <= j < count ==> env[j] == (names[j], values[j])
    {
      seq(count, j requires 0 <= j < count && Valid() reads this, names, values => (names[j], values[j]))
    }

    method Lookup(x: string) returns (k: nat)
      requires Valid()
      ensures k == Find(Contents(), x)
    {
      k := 0;
      while k < count && names[k] != x
        invariant k <= count && forall j :: 0 <= j < k ==> names[j] != x
      {
        k := k + 1;
      }
    }

    method EnvDefine(x: string, v: Value)
      requires Valid()
      modifies this, names, values
      ensures Valid() && Contents() == Define(old(Contents()), x, v)
    {
      if count >= ENV_MAX_VARS {
        return;
      }
      var k := Lookup(x);
      ghost var env := Contents();
      if k < count {
        values[k] := v;
        assert Contents() == env[k := (x, v)];
        return;
      }
      names[count] := x;
      values[count] := v;
      count := count + 1;
      assert Contents() == env + [(x, v)];
    }

    method EnvGet(x: string) returns (r: Option<Value>)
      requires Valid()
      ensures r == Get(Contents(), x)
    {
      var k := Lookup(x);
      r := if k < count then Some(values[k]) else None;
    }

    method EnvSet(x: string, v: Value) returns (ok: bool)
      requires Valid()
      modifies values
      ensures Valid() && ok == Set(old(Contents()), x, v).Some?
      ensures Contents() == if ok then Set(old(Contents()), x, v).value else old(Contents())
    {
      var k := Lookup(x);
      ghost var env := Contents();
      if k < count {
        values[k] := v;
        assert Contents() == env[k := (x, v)];
        return true;
      }
      return false;
    }
  }

  // ----- Environments as finite maps -----

  predicate NoDuplicates(env: Env) {
    forall i, j :: 0 <= i < j < |env| ==> env[i].0 != env[j].0
  }

  /** The finite map an environment stands for. */
  function MapOf(env: Env): map<string, Value> {
    if env == [] then map[] else MapOf(env[..|env| - 1])[env[|env| - 1].0 := env[|env| - 1].1]
  }

  lemma {:induction false} MapAt(env: Env, x: string)
    requires NoDuplicates(env)
    ensures x in MapOf(env) <==> Find(env, x) < |env|
    ensures x in MapOf(env) ==> MapOf(env)[x] == env[Find(env, x)].1
    ensures |MapOf(env)| == |env|
    decreases |env|
  {
    if env != [] {
      var init := env[..|env| - 1];
      MapAt(init, x);
      MapAt(init, env[|env| - 1].0);
      assert forall j :: 0 <= j < |init| ==> init[j] == env[j];
    }
  }

  /** Reading and writing the arrays is reading and updating the map. */
  lemma GetSetIsMap(env: Env, x: string, v: Value)
    requires NoDuplicates(env)
    ensures Get(env, x) == if x in MapOf(env) then Some(MapOf(env)[x]) else None
    ensures Set(env, x, v).Some? <==> x in MapOf(env)
    ensures Set(env, x, v).Some? ==>
              NoDuplicates(Set(env, x, v).value) && MapOf(Set(env, x, v).value) == MapOf(env)[x := v]
  {
    hide MapOf, Find;
    MapAt(env, x);
    if Find(env, x) < |env| {
      MapUpdate(env, Find(env, x), v);
    }
  }

  lemma MapAppend(env: Env, x: string, v: Value)
    ensures MapOf(env + [(x, v)]) == MapOf(env)[x := v]
  {
    assert (env + [(x, v)])[..|env|] == env;
  }

  /** A definition updates the map too, exactly as long as there are fewer than 256 names or
      nothing would change. */
  lemma DefineIsMap(env: Env, x: string, v: Value)
    requires NoDuplicates(env)
    ensures NoDuplicates(Define(env, x, v))
    ensures MapOf(Define(env, x, v)) == MapOf(env)[x := v] <==> |env| < 256 || (x in MapOf(env) && MapOf(env)[x] == v)
  {
    hide MapOf, Find;
    MapAt(env, x);
    if |env| >= 256 {
      SameMap(MapOf(env), x, v);
    } else if Find(env, x) < |env| {
      MapUpdate(env, Find(env, x), v);
    } else {
      MapAppend(env, x, v);
    }
  }

  /** Two letters for each number below 256. */
  function TwoLetters(k: nat): string
    requires k < 256
  {
    [('a' as int + k / 16) as char, ('a' as int + k % 16) as char]
  }

  /** The environment after `n` definitions of different names. */
  function Filled(n: nat): Env
    requires n <= 256
  {
    if n == 0 then [] else Define(Filled(n - 1), TwoLetters(n - 1), Null)
  }

  lemma {:induction false} FilledNames(n: nat)
    requires n <= 256
    ensures |Filled(n)| == n && forall k :: 0 <= k < n ==> Filled(n)[k].0 == TwoLetters(k)
  {
    if n > 0 {
      FilledNames(n - 1);
      assert Find(Filled(n - 1), TwoLetters(n - 1)) == n - 1;
    }
  }

  /** After 256 definitions, another one is dropped without a word. */
  lemma FullDrops(x: string, v: Value)
    requires |x| != 2
    ensures var env := Filled(256);
            NoDuplicates(env) && Define(env, x, v) == env && Get(Define(env, x, v), x) == None
  {
    hide TwoLetters, Filled;
    FilledNames(256);
    forall j: nat, k: nat | j < k < 256
      ensures TwoLetters(j) != TwoLetters(k)
    {
      LettersDiffer(j, k);
    }
    forall k: nat | k < 256
      ensures |TwoLetters(k)| == 2
    {
      LettersDiffer(k, k);
    }
  }

  lemma LettersDiffer(j: nat, k: nat)
    requires j <= k < 256
    ensures |TwoLetters(k)| == 2 && (TwoLetters(j) == TwoLetters(k) ==> j == k)
  {
  }

  lemma SameMap(m: map<string, Value>, x: string, v: Value)
    ensures m == m[x := v] <==> x in m && m[x] == v
  {
    if x in m && m[x] == v {
      assert m[x := v] == m;
    } else {
      assert m[x := v][x] == v;
    }
  }

  lemma {:induction false} MapUpdate(env: Env, k: nat, v: Value)
    requires NoDuplicates(env) && k < |env|
    ensures MapOf(env[k := (env[k].0, v)]) == MapOf(env)[env[k].0 := v]
    decreases |env|
  {
    var last := |env| - 1;
    var env' := env[k := (env[k].0, v)];
    if k == last {
      assert env'[..last] == env[..last];
    } else {
      MapUpdate(env[..last], k, v);
      assert env'[..last] == env[..last][k := (env[k].0, v)];
    }
  }

  // ----- Operators -----

  const I64_MIN := -0x8000_0000_0000_0000
  const I64_MAX := 0x7FFF_FFFF_FFFF_FFFF

  /** What an operator gives; `Undefined` where C leaves the result undefined. */
  datatype Result = Val(v: Value) | DivisionByZero | Undefined

  function InRange(i: int): Result {
    if I64_MIN <= i <= I64_MAX then Val(Int(i)) else Undefined
  }

  /** C division truncates toward zero. */
  function Quotient(a: int, b: int): int
    requires b != 0
  {
    if a >= 0 then a / b else -((-a) / b)
  }

  function Remainder(a: int, b: int): int
    requires b != 0
  {
    a - b * Quotient(a, b)
  }

  /** What C asks of division: the remainder is smaller than the divisor and has no other sign
      than the dividend.  Only the quotient and remainder that the evaluator computes do. */
  lemma DivisionLaw(a: int, b: int, q: int, r: int)
    requires b != 0
    ensures q == Quotient(a, b) && r == Remainder(a, b) <==>
            a == b * q + r && Abs(r) < Abs(b) && (r == 0 || (r < 0 <==> a < 0))
  {
    var q0, r0 := Quotient(a, b), Remainder(a, b);
    assert Abs(r0) < Abs(b) && (r0 == 0 || (r0 < 0 <==> a < 0)) by { Truncates(a, b); }
    hide Quotient, Remainder;
    if a == b * q + r && Abs(r) < Abs(b) && (r == 0 || (r < 0 <==> a < 0)) {
      assert b * (q - q0) == r0 - r;
      assert Abs(r0 - r) < Abs(b);
      Multiple(b, q - q0);
    }
  }

  function Abs(i: int): nat { if i < 0 then -i else i }

  lemma Truncates(a: int, b: int)
    requires b != 0
    ensures Abs(Remainder(a, b)) < Abs(b) && (Remainder(a, b) == 0 || (Remainder(a, b) < 0 <==> a < 0))
    ensures a == b * Quotient(a, b) + Remainder(a, b)
  {
    if a < 0 {
      assert -a == b * ((-a) / b) + (-a) % b;
      assert b * -((-a) / b) == -(b * ((-a) / b));
    } else {
      assert a == b * (a / b) + a % b;
    }
  }

  /** A multiple of `b` that is smaller than `b` is 0. */
  lemma Multiple(b: int, k: int)
    requires Abs(b * k) < Abs(b)
    ensures k == 0
  {
    Product(b, k);
    if k != 0 {
      AtLeast(Abs(b), Abs(k) - 1);
    }
  }

  lemma Product(b: int, k: int)
    ensures Abs(b * k) == Abs(b) * Abs(k)
  {
    var x, y: nat := Abs(b), Abs(k);
    Nonnegative(x, y);
    if b < 0 && k < 0 {
      assert b * k == x * y;
    } else if b < 0 {
      assert b * k == -(x * y);
    } else if k < 0 {
      assert b * k == -(x * y);
    }
  }

  lemma Nonnegative(x: nat, y: nat)
    ensures x * y >= 0
  {
  }

  lemma AtLeast(x: nat, y: nat)
    ensures x * (y + 1) >= x
  {
    Nonnegative(x, y);
    assert x * (y + 1) == x * y + x;
  }

  /** The truth of a value; None for `nic`, whose integer member was never written. */
  function Truthy(v: Value): Option<bool> {
    match v
    case Null => None
    case Int(i) => Some(i != 0)
    case Bool(b) => Some(b)
  }

  function Logical(both: bool, l: Value, r: Value): Result {
    if Truthy(l).None? || Truthy(r).None? then Undefined
    else Val(Bool(if both then Truthy(l).value && Truthy(r).value else Truthy(l).value || Truthy(r).value))
  }

  /** The tests of the source in their order: arithmetic and `<`, `>` by the first character. */
  function BinaryOp(op: string, l: Value, r: Value): Result {
    var c, ints := if op == "" then '\0' else op[0], l.Int? && r.Int?;
    if c == '+' && ints then InRange(l.i + r.i)
    else if c == '-' && ints then InRange(l.i - r.i)
    else if c == '*' && ints then InRange(l.i * r.i)
    else if c == '/' && ints then if r.i == 0 then DivisionByZero else InRange(Quotient(l.i, r.i))
    else if c == '%' && ints then
      if r.i == 0 || (l.i == I64_MIN && r.i == -1) then Undefined else Val(Int(Remainder(l.i, r.i)))
    else if op == "==" then Val(Bool(ints && l.i == r.i))
    else if op == "!=" then Val(Bool(!ints || l.i != r.i))
    else if c == '<' && ints then Val(Bool(l.i < r.i))
    else if c == '>' && ints then Val(Bool(l.i > r.i))
    else if op == "<=" && ints then Val(Bool(l.i <= r.i))
    else if op == ">=" && ints then Val(Bool(l.i >= r.i))
    else if op == "&&" then Logical(true, l, r)
    else if op == "||" then Logical(false, l, r)
    else Val(Null)
  }

  function UnaryOp(op: string, v: Value): Result {
    var c := if op == "" then '\0' else op[0];
    if c == '-' && v.Int? then InRange(-v.i)
    else if c == '!' then if Truthy(v).None? then Undefined else Val(Bool(!Truthy(v).value))
    else Val(Null)
  }

  function Show(v: Value): string {
    match v
    case Null => "nic"
    case Int(i) => if i >= 0 then Decimal(i) else "-" + Decimal(-i)
    case Bool(b) => if b then "prawda" else "falsz"
  }

  // ----- The evaluator -----

  datatype Machine = Machine(env: Env, out: string, brk: bool, cont: bool, ret: bool, retv: Value, err: bool)

  /** `Slow`: the loop bound was too small.  `Lost`: undefined behaviour, or a value that is
      not modelled. */
  datatype Outcome = Done(v: Value, m: Machine) | Slow | Lost

  function Fail(m: Machine): Outcome {
    Done(Null, m.(err := true))
  }

  function FromResult(r: Result, m: Machine): Outcome {
    match r
    case Val(v) => Done(v, m)
    case DivisionByZero => Fail(m)
    case Undefined => Lost
  }

  /** interpreter_eval, where each loop may go round at most `fuel` times. */
  function Eval(fuel: nat, n: Node, m: Machine): Outcome
    decreases fuel, n, 1
  {
    if m.err then Done(Null, m)
    else
      match n.typ
      case AstLiteralInt => Done(Int(n.num), m)
      case AstLiteralBool => Done(Bool(n.flag), m)
      case AstLiteralNull => Done(Null, m)
      case AstLiteralFloat => Lost
      case AstLiteralString => Lost
      case AstIdentifier => if Get(m.env, n.str).Some? then Done(Get(m.env, n.str).value, m) else Fail(m)
      case AstVarDecl =>
        if n.kids == [] then Done(Null, m.(env := Define(m.env, n.str, Null)))
        else
          (match Eval(fuel, n.kids[0], m)
           case Done(v, m1) => Done(Null, m1.(env := Define(m1.env, n.str, v)))
           case o => o)
      case AstAssign =>
        if n.kids == [] then Lost
        else
          (match Eval(fuel, n.kids[0], m)
           case Done(v, m1) =>
             if Set(m1.env, n.str, v).Some? then Done(v, m1.(env := Set(m1.env, n.str, v).value))
             else Done(v, m1.(err := true))
           case o => o)
      case AstBinaryOp =>
        if |n.kids| < 2 then Lost
        else
          (match Eval(fuel, n.kids[0], m)
           case Done(l, m1) =>
             (match Eval(fuel, n.kids[1], m1)
              case Done(r, m2) => FromResult(BinaryOp(n.str, l, r), m2)
              case o => o)
           case o => o)
      case AstUnaryOp =>
        if n.kids == [] then Lost
        else
          (match Eval(fuel, n.kids[0], m)
           case Done(v, m1) => FromResult(UnaryOp(n.str, v), m1)
           case o => o)
      case AstPrint => EvalPrint(fuel, n.kids, m)
      case AstIf =>
        if |n.kids| < 2 then Lost
        else
          (match Eval(fuel, n.kids[0], m)
           case Done(v, m1) =>
             if Truthy(v).None? then Lost
             else if Truthy(v).value then Eval(fuel, n.kids[1], m1)
             else if |n.kids| > 2 then Eval(fuel, n.kids[2], m1)
             else Done(Null, m1)
           case o => o)
      case AstWhile => if |n.kids| < 2 then Lost else EvalLoop(fuel, n, m)
      case AstReturn =>
        if n.kids == [] then Done(Null, m.(retv := Null, ret := true))
        else
          (match Eval(fuel, n.kids[0], m)
           case Done(v, m1) => Done(Null, m1.(retv := v, ret := true))
           case o => o)
      case AstBreak => Done(Null, m.(brk := true))
      case AstContinue => Done(Null, m.(cont := true))
      case AstBlock => EvalBlock(fuel, n.kids, m)
      case AstProgram => EvalProgram(fuel, n.kids, m)
      case _ => Done(Null, m)
  }

  /** Prints the values, with blanks between them, and a newline. */
  function EvalPrint(fuel: nat, kids: seq<Node>, m: Machine): Outcome
    decreases fuel, kids, 0
  {
    if kids == [] then Done(Null, m.(out := m.out + "\n"))
    else
      match Eval(fuel, kids[0], m)
      case Done(v, m1) => EvalPrint(fuel, kids[1..], m1.(out := m1.out + Show(v) + if |kids| > 1 then " " else ""))
      case o => o
  }

  function EvalLoop(fuel: nat, n: Node, m: Machine): Outcome
    requires |n.kids| >= 2
    decreases fuel, n, 0
  {
    if fuel == 0 then Slow
    else
      match Eval(fuel - 1, n.kids[0], m)
      case Done(v, m1) =>
        if Truthy(v).None? then Lost
        else if !Truthy(v).value then Done(Null, m1)
        else
          (match Eval(fuel - 1, n.kids[1], m1)
           case Done(_, m2) =>
             if m2.brk then Done(Null, m2.(brk := false))
             else if m2.cont then EvalLoop(fuel - 1, n, m2.(cont := false))
             else if m2.ret then Done(Null, m2)
             else EvalLoop(fuel - 1, n, m2)
           case o => o)
      case o => o
  }

  function EvalBlock(fuel: nat, kids: seq<Node>, m: Machine): Outcome
    decreases fuel, kids, 0
  {
    if kids == [] then Done(Null, m)
    else
      match Eval(fuel, kids[0], m)
      case Done(_, m1) => if m1.ret || m1.brk || m1.cont then Done(Null, m1) else EvalBlock(fuel, kids[1..], m1)
      case o => o
  }

  function EvalProgram(fuel: nat, kids: seq<Node>, m: Machine): Outcome
    decreases fuel, kids, 0
  {
    if kids == [] then Done(Null, m)
    else
      match Eval(fuel, kids[0], m)
      case Done(_, m1) => if m1.err then Done(Null, m1) else EvalProgram(fuel, kids[1..], m1)
      case o => o
  }
}
