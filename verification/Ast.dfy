/** PolskiScript programs as typed trees: the nodes they stand for, and their printed form. */
module Ast {
  import opened Numerals
  import opened Lexer
  import opened Syntax

  datatype Expr =
    | Num(n: nat)
    | Text(s: string)
    | Truth(b: bool)
    | Nothing
    | Name(x: string)
    | Apply(f: string, args: seq<Expr>)
    | Prefix(op: Kind, e: Expr)
    | Infix(op: Kind, l: Expr, r: Expr)

  datatype Stmt =
    | Declare(x: string)
    | Define(x: string, e: Expr)
    | Assign(x: string, e: Expr)
    | Print(args: seq<Expr>)
    | If(c: Expr, t: seq<Stmt>)
    | IfElse(c: Expr, t: seq<Stmt>, f: seq<Stmt>)
    | While(c: Expr, body: seq<Stmt>)
    | Return
    | ReturnValue(e: Expr)
    | Break
    | Continue
    | Group(body: seq<Stmt>)

  // ----- Well-formed programs -----

  function LevelOf(op: Kind): (level: nat)
    ensures level <= 3
  {
    if IsOperator(0, op) then 0 else if IsOperator(1, op) then 1 else if IsOperator(2, op) then 2 else 3
  }

  predicate IsName(x: string) {
    && 0 < |x| <= 255 && IsLetter(x[0]) && x !in KEYWORDS
    && forall i :: 0 <= i < |x| ==> IsWord(x[i])
  }

  predicate IsText(s: string) {
    |s| <= 255 && '"' !in s && '\0' !in s
  }

  predicate GoodExpr(e: Expr) {
    match e
    case Num(n) => n < 0x8000_0000_0000_0000
    case Text(s) => IsText(s)
    case Truth(_) => true
    case Nothing => true
    case Name(x) => IsName(x)
    case Apply(f, args) => IsName(f) && GoodExprs(args)
    case Prefix(op, e) => op in {Minus, Nie} && GoodExpr(e)
    case Infix(op, l, r) => IsOperator(LevelOf(op), op) && GoodExpr(l) && GoodExpr(r)
  }

  predicate GoodExprs(es: seq<Expr>) {
    forall i :: 0 <= i < |es| ==> GoodExpr(es[i])
  }

  predicate Good(s: Stmt) {
    match s
    case Declare(x) => IsName(x)
    case Define(x, e) => IsName(x) && GoodExpr(e)
    case Assign(x, e) => IsName(x) && GoodExpr(e)
    case Print(args) => GoodExprs(args)
    case If(c, t) => GoodExpr(c) && AllGood(t)
    case IfElse(c, t, f) => GoodExpr(c) && AllGood(t) && AllGood(f)
    case While(c, body) => GoodExpr(c) && AllGood(body)
    case ReturnValue(e) => GoodExpr(e)
    case Group(body) => AllGood(body)
    case _ => true
  }

  predicate AllGood(ss: seq<Stmt>) {
    forall i :: 0 <= i < |ss| ==> Good(ss[i])
  }

  // ----- The nodes of a program -----

  function OpText(op: Kind): string {
    match op
    case Plus => "+"
    case Minus => "-"
    case Mnozenie => "*"
    case Dzielenie => "/"
    case Modulo => "%"
    case Rowne => "=="
    case Nierowne => "!="
    case Mniejsze => "<"
    case Wieksze => ">"
    case MniejszeRowne => "<="
    case WiekszeRowne => ">="
    case I => "&&"
    case Lub => "||"
    case _ => "!"
  }

  function ExprNode(e: Expr): Node {
    match e
    case Num(n) => Bare(AstLiteralInt, "", []).(num := n)
    case Text(s) => Bare(AstLiteralString, s, [])
    case Truth(b) => Bare(AstLiteralBool, "", []).(flag := b)
    case Nothing => Bare(AstLiteralNull, "", [])
    case Name(x) => Bare(AstIdentifier, x, [])
    case Apply(f, args) => Bare(AstCall, "", [Bare(AstIdentifier, f, [])] + ExprNodes(args))
    case Prefix(op, e) => Bare(AstUnaryOp, OpText(op), [ExprNode(e)])
    case Infix(op, l, r) => Bare(AstBinaryOp, OpText(op), [ExprNode(l), ExprNode(r)])
  }

  function ExprNodes(es: seq<Expr>): (ns: seq<Node>)
    ensures |ns| == |es|
  {
    if es == [] then [] else [ExprNode(es[0])] + ExprNodes(es[1..])
  }

  function StmtNode(s: Stmt): Node {
    match s
    case Declare(x) => Bare(AstVarDecl, x, [])
    case Define(x, e) => Bare(AstVarDecl, x, [ExprNode(e)])
    case Assign(x, e) => Bare(AstAssign, x, [ExprNode(e)])
    case Print(args) => Bare(AstPrint, "", ExprNodes(args))
    case If(c, t) => Bare(AstIf, "", [ExprNode(c), Bare(AstBlock, "", StmtNodes(t))])
    case IfElse(c, t, f) =>
      Bare(AstIf, "", [ExprNode(c), Bare(AstBlock, "", StmtNodes(t)), Bare(AstBlock, "", StmtNodes(f))])
    case While(c, body) => Bare(AstWhile, "", [ExprNode(c), Bare(AstBlock, "", StmtNodes(body))])
    case Return => Bare(AstReturn, "", [])
    case ReturnValue(e) => Bare(AstReturn, "", [ExprNode(e)])
    case Break => Bare(AstBreak, "", [])
    case Continue => Bare(AstContinue, "", [])
    case Group(body) => Bare(AstBlock, "", StmtNodes(body))
  }

  function StmtNodes(ss: seq<Stmt>): (ns: seq<Node>)
    ensures |ns| == |ss|
  {
    if ss == [] then [] else [StmtNode(ss[0])] + StmtNodes(ss[1..])
  }

  // ----- Printing -----

  /** Binding strength: 0 to 3 for the binary levels, 4 for prefix operators, 5 otherwise. */
  function Strength(e: Expr): nat {
    match e
    case Infix(op, _, _) => LevelOf(op)
    case Prefix(_, _) => 4
    case _ => 5
  }

  /** `e` as tokens where only expressions at least as strong as `k` may stand bare. */
  function ExprTokens(e: Expr, k: nat): (ts: seq<Lexeme>)
    ensures ts != []
    decreases e, if Strength(e) < k then 1 else 0
  {
    if Strength(e) < k then [Lexeme(NawiasLewy, "(")] + ExprTokens(e, 0) + [Lexeme(NawiasPrawy, ")")]
    else
      match e
      case Num(n) => [Lexeme(Liczba, Decimal(n))]
      case Text(s) => [Lexeme(Tekst, s)]
      case Truth(b) => [if b then Lexeme(Prawda, "prawda") else Lexeme(Falsz, "falsz")]
      case Nothing => [Lexeme(Nic, "nic")]
      case Name(x) => [Lexeme(Identyfikator, x)]
      case Apply(f, args) => [Lexeme(Identyfikator, f)] + ListTokens(args)
      case Prefix(op, e1) => [Lexeme(op, OpText(op))] + ExprTokens(e1, 4)
      case Infix(op, l, r) => ExprTokens(l, LevelOf(op)) + [Lexeme(op, OpText(op))] + ExprTokens(r, LevelOf(op) + 1)
  }

  /** A parenthesised list of arguments. */
  function ListTokens(es: seq<Expr>): seq<Lexeme>
    decreases es, 1
  {
    [Lexeme(NawiasLewy, "(")] + ArgTokens(es) + [Lexeme(NawiasPrawy, ")")]
  }

  function ArgTokens(es: seq<Expr>): seq<Lexeme>
    decreases es, 0
  {
    if es == [] then []
    else if |es| == 1 then ExprTokens(es[0], 0)
    else ExprTokens(es[0], 0) + [Lexeme(Przecinek, ",")] + ArgTokens(es[1..])
  }

  function StmtTokens(s: Stmt): (ts: seq<Lexeme>)
    ensures ts != []
    decreases s, 0
  {
    match s
    case Declare(x) => [Lexeme(Zmienna, "zmienna"), Lexeme(Identyfikator, x), END]
    case Define(x, e) => [Lexeme(Zmienna, "zmienna"), Lexeme(Identyfikator, x), SET] + ExprTokens(e, 0) + [END]
    case Assign(x, e) => [Lexeme(Identyfikator, x), SET] + ExprTokens(e, 0) + [END]
    case Print(args) => [Lexeme(Drukuj, "drukuj")] + ListTokens(args) + [END]
    case If(c, t) => [Lexeme(Jesli, "jesli")] + GuardTokens(c) + BlockTokens(t)
    case IfElse(c, t, f) =>
      [Lexeme(Jesli, "jesli")] + GuardTokens(c) + BlockTokens(t) + [Lexeme(Inaczej, "inaczej")] + BlockTokens(f)
    case While(c, body) => [Lexeme(Dopoki, "dopoki")] + GuardTokens(c) + BlockTokens(body)
    case Return => [Lexeme(Zwroc, "zwroc"), END]
    case ReturnValue(e) => [Lexeme(Zwroc, "zwroc")] + ExprTokens(e, 0) + [END]
    case Break => [Lexeme(Przerwij, "przerwij"), END]
    case Continue => [Lexeme(Kontynuuj, "kontynuuj"), END]
    case Group(body) => BlockTokens(body)
  }

  const END := Lexeme(Srednik, ";")
  const SET := Lexeme(Przypisanie, "=")

  function GuardTokens(c: Expr): seq<Lexeme> {
    [Lexeme(NawiasLewy, "(")] + ExprTokens(c, 0) + [Lexeme(NawiasPrawy, ")")]
  }

  function BlockTokens(ss: seq<Stmt>): (ts: seq<Lexeme>)
    ensures ts != []
    decreases ss, 1
  {
    [Lexeme(KlamraLewa, "{")] + StmtsTokens(ss) + [Lexeme(KlamraPrawa, "}")]
  }

  function StmtsTokens(ss: seq<Stmt>): seq<Lexeme>
    decreases ss, 0
  {
    if ss == [] then [] else StmtTokens(ss[0]) + StmtsTokens(ss[1..])
  }

  // ----- Text -----

  function LexemeText(t: Lexeme): string {
    if t.kind == Tekst then "\"" + t.value + "\"" else t.value
  }

  /** The tokens as text, each followed by a blank. */
  function Render(ts: seq<Lexeme>): string {
    if ts == [] then "" else LexemeText(ts[0]) + " " + Render(ts[1..])
  }

  /** The printed text of a program. */
  function PrintProgram(ss: seq<Stmt>): string {
    Render(StmtsTokens(ss))
  }
}
