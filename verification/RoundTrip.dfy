/** Parsing undoes printing, through the lexer (kernel/lang/polskiscript.c). */
module RoundTrip {
  import opened Common
  import opened Numerals
  import opened Lexer
  import opened Syntax
  import opened Ast
  import opened Relexing

  // ----- States with tokens put in front -----

  function On(ts: seq<Lexeme>, s: State): (s1: State)
    ensures s1.status == s.status
  {
    s.(ts := ts + s.ts)
  }

  function Push(t: Lexeme, s: State): (s1: State)
    ensures Head(s1) == t && Next(s1) == s && s1.status == s.status
  {
    assert ([t] + s.ts)[1..] == s.ts;
    s.(ts := [t] + s.ts)
  }

  lemma OnAppend(a: seq<Lexeme>, b: seq<Lexeme>, s: State)
    ensures On(a + b, s) == On(a, On(b, s))
  {
    assert a + b + s.ts == a + (b + s.ts);
  }

  lemma FrontUnfold(t: Lexeme, ts: seq<Lexeme>, s: State)
    ensures On([t] + ts, s) == Push(t, On(ts, s))
  {
    assert [t] + ts + s.ts == [t] + (ts + s.ts);
  }

  lemma Between(a: seq<Lexeme>, t: Lexeme, b: seq<Lexeme>, s: State)
    ensures On(a + [t] + b, s) == On(a, Push(t, On(b, s)))
  {
    hide On, Push;
    assert a + [t] + b == a + ([t] + b);
    OnAppend(a, [t] + b, s);
    FrontUnfold(t, b, s);
  }

  lemma OnEmpty(s: State)
    ensures On([], s) == s
  {
    assert [] + s.ts == s.ts;
  }

  const OPEN := Lexeme(NawiasLewy, "(")
  const CLOSE := Lexeme(NawiasPrawy, ")")
  const COMMA := Lexeme(Przecinek, ",")

  // ----- What follows an expression -----

  /** The token after an expression of level `k`: it neither continues the expression with
      an operator that binds more tightly, nor turns a name into a call. */
  predicate Stops(k: nat, s: State) {
    var kind := Head(s).kind;
    kind != NawiasLewy && (IsOperator(LevelOf(kind), kind) ==> LevelOf(kind) <= k)
  }

  /** The tokens after a whole expression. */
  predicate Ends(s: State) {
    Head(s).kind in {NawiasPrawy, Przecinek, Srednik}
  }

  lemma EndsStop(k: nat, s: State)
    requires Ends(s)
    ensures Stops(k, s) && !IsOperator(k, Head(s).kind)
  {
  }

  lemma OperatorStops(op: Kind, s: State)
    requires IsOperator(LevelOf(op), op)
    ensures Stops(LevelOf(op), Push(Lexeme(op, OpText(op)), s))
  {
    hide OpText, Push;
  }

  lemma LevelOfOperator(j: nat, kind: Kind)
    requires IsOperator(j, kind)
    ensures LevelOf(kind) == j
  {
  }

  lemma NoChain(k: nat, n: Option<Node>, s: State)
    requires k < 4 && !IsOperator(k, Head(s).kind)
    ensures Chain(k, n, s) == Parsed(n, s)
  {
  }

  lemma ChainStep(k: nat, left: Option<Node>, s: State)
    requires k < 4 && IsOperator(k, Head(s).kind)
    ensures var p := Level(k + 1, Next(s));
            Chain(k, left, s) == Chain(k, Some(Bare(AstBinaryOp, Head(s).value, Add(Add([], left), p.node))), p.st)
  {
    hide Level, IsOperator;
  }

  /** An operand that is followed by nothing tighter goes up through the levels unchanged. */
  lemma {:induction false} Climb(k: nat, s: State, n: Option<Node>, s1: State)
    requires k <= 4 && Unary(s) == Parsed(n, s1) && Stops(k, s1)
    ensures Level(k, s) == if k == 4 then Parsed(n, s1) else Chain(k, n, s1)
    decreases 4 - k
  {
    hide Chain, Unary, IsOperator, LevelOf;
    if k < 4 {
      Climb(k + 1, s, n, s1);
      if k < 3 {
        if IsOperator(k + 1, Head(s1).kind) {
          LevelOfOperator(k + 1, Head(s1).kind);
        }
        NoChain(k + 1, n, s1);
      }
    }
  }

  // ----- Expressions -----

  /** The tokens an expression can start with. */
  predicate Begins(kind: Kind) {
    kind in {Liczba, Tekst, Prawda, Falsz, Nic, Identyfikator, NawiasLewy, Minus, Nie}
  }

  lemma {:induction false} FirstToken(e: Expr, k: nat)
    requires GoodExpr(e)
    ensures Begins(ExprTokens(e, k)[0].kind)
    decreases e
  {
    if Strength(e) >= k && e.Infix? {
      FirstToken(e.l, LevelOf(e.op));
    }
  }

  lemma ExprStart(e: Expr, k: nat, s: State)
    requires GoodExpr(e)
    ensures Begins(Head(On(ExprTokens(e, k), s)).kind)
  {
    hide ExprTokens;
    FirstToken(e, k);
  }

  /** What parsing the tokens of `e` at level `k` leaves to do. */
  function Remaining(e: Expr, k: nat, s: State): Parsed
    requires k <= 4
  {
    if k == 4 then Parsed(Some(ExprNode(e)), s) else Chain(k, Some(ExprNode(e)), s)
  }

  /** Nothing tighter than level `k` follows, so level `k + 1` is done. */
  lemma Done(e: Expr, k: nat, s: State)
    requires k < 4 && Stops(k, s)
    ensures Remaining(e, k + 1, s) == Parsed(Some(ExprNode(e)), s) && Stops(k + 1, s)
  {
    hide Chain, IsOperator, LevelOf, ExprNode;
    if k + 1 < 4 {
      if IsOperator(k + 1, Head(s).kind) {
        LevelOfOperator(k + 1, Head(s).kind);
      }
      NoChain(k + 1, Some(ExprNode(e)), s);
    }
  }

  lemma ParensUnfold(e: Expr, k: nat, s: State)
    requires Strength(e) < k
    ensures On(ExprTokens(e, k), s) == Push(OPEN, On(ExprTokens(e, 0), Push(CLOSE, s)))
  {
    assert ExprTokens(e, k) == [OPEN] + ExprTokens(e, 0) + [CLOSE];
    hide ExprTokens, Strength;
    Between([OPEN] + ExprTokens(e, 0), CLOSE, [], s);
    OnEmpty(s);
    hide On, Push;
    assert [OPEN] + ExprTokens(e, 0) + [CLOSE] + [] == [OPEN] + ExprTokens(e, 0) + [CLOSE];
    FrontUnfold(OPEN, ExprTokens(e, 0), Push(CLOSE, s));
  }

  /** An expression in parentheses is read by parser_parse_primary. */
  lemma ParseParens(e: Expr, k: nat, s: State)
    requires Strength(e) < k
    requires Level(0, On(ExprTokens(e, 0), Push(CLOSE, s))) == Parsed(Some(ExprNode(e)), Push(CLOSE, s))
    ensures Unary(On(ExprTokens(e, k), s)) == Parsed(Some(ExprNode(e)), s)
  {
    ParensUnfold(e, k, s);
    hide Level, ExprTokens, ExprNode, On, Push, Next;
    var s0 := Push(OPEN, On(ExprTokens(e, 0), Push(CLOSE, s)));
    assert Unary(s0) == Primary(s0);
  }

  lemma InfixUnfold(op: Kind, l: Expr, r: Expr, s: State)
    ensures var e, k := Infix(op, l, r), LevelOf(op);
            && On(ExprTokens(e, k), s) ==
               On(ExprTokens(l, k), Push(Lexeme(op, OpText(op)), On(ExprTokens(r, k + 1), s)))
            && ExprNode(e) == Bare(AstBinaryOp, OpText(op), [ExprNode(l), ExprNode(r)])
  {
    hide LevelOf, OpText;
    var k, t := LevelOf(op), Lexeme(op, OpText(op));
    assert ExprTokens(Infix(op, l, r), k) == ExprTokens(l, k) + [t] + ExprTokens(r, k + 1);
    hide ExprTokens, On, Push;
    Between(ExprTokens(l, k), t, ExprTokens(r, k + 1), s);
  }

  lemma ParseInfix(op: Kind, l: Expr, r: Expr, s: State)
    requires IsOperator(LevelOf(op), op)
    requires var k := LevelOf(op);
             var s2 := Push(Lexeme(op, OpText(op)), On(ExprTokens(r, k + 1), s));
             Level(k, On(ExprTokens(l, k), s2)) == Chain(k, Some(ExprNode(l)), s2)
    requires Level(LevelOf(op) + 1, On(ExprTokens(r, LevelOf(op) + 1), s)) == Parsed(Some(ExprNode(r)), s)
    ensures var e := Infix(op, l, r);
            Level(LevelOf(op), On(ExprTokens(e, LevelOf(op)), s)) == Chain(LevelOf(op), Some(ExprNode(e)), s)
  {
    hide Level, IsOperator, OpText, ExprTokens, ExprNode, Chain, Head, Next, On, Push, LevelOf;
    InfixUnfold(op, l, r, s);
    var k := LevelOf(op);
    ChainStep(k, Some(ExprNode(l)), Push(Lexeme(op, OpText(op)), On(ExprTokens(r, k + 1), s)));
    assert Add(Add([], Some(ExprNode(l))), Some(ExprNode(r))) == [ExprNode(l), ExprNode(r)];
  }

  lemma PrefixUnfold(op: Kind, e: Expr, s: State)
    ensures On(ExprTokens(Prefix(op, e), 4), s) == Push(Lexeme(op, OpText(op)), On(ExprTokens(e, 4), s))
    ensures ExprNode(Prefix(op, e)) == Bare(AstUnaryOp, OpText(op), [ExprNode(e)])
  {
    hide OpText, On, Push;
    var t := Lexeme(op, OpText(op));
    assert ExprTokens(Prefix(op, e), 4) == [t] + ExprTokens(e, 4);
    hide ExprTokens;
    FrontUnfold(t, ExprTokens(e, 4), s);
  }

  lemma ParsePrefix(op: Kind, e: Expr, s: State)
    requires op in {Minus, Nie} && Unary(On(ExprTokens(e, 4), s)) == Parsed(Some(ExprNode(e)), s)
    ensures Unary(On(ExprTokens(Prefix(op, e), 4), s)) == Parsed(Some(ExprNode(Prefix(op, e))), s)
  {
    hide Primary, On, Head, Next, OpText, ExprTokens, ExprNode, Push;
    PrefixUnfold(op, e, s);
    assert Add([], Some(ExprNode(e))) == [ExprNode(e)];
  }

  lemma ListUnfold(es: seq<Expr>, s: State)
    ensures On(ListTokens(es), s) == Push(OPEN, On(ArgTokens(es), Push(CLOSE, s)))
  {
    hide ArgTokens;
    assert ListTokens(es) == [OPEN] + ArgTokens(es) + [CLOSE];
    assert [OPEN] + ArgTokens(es) + [CLOSE] + s.ts == [OPEN] + (ArgTokens(es) + ([CLOSE] + s.ts));
  }

  lemma CallUnfold(f: string, args: seq<Expr>, s: State)
    ensures On(ExprTokens(Apply(f, args), 4), s) == Push(Lexeme(Identyfikator, f), On(ListTokens(args), s))
  {
    var t := Lexeme(Identyfikator, f);
    assert ExprTokens(Apply(f, args), 4) == [t] + ListTokens(args);
    hide ExprTokens, ListTokens;
    assert [t] + ListTokens(args) + s.ts == [t] + (ListTokens(args) + s.ts);
  }

  lemma ParseCall(f: string, args: seq<Expr>, s: State)
    requires Arguments([Bare(AstIdentifier, f, [])], On(ArgTokens(args), Push(CLOSE, s)))
          == ParsedMany([Bare(AstIdentifier, f, [])] + ExprNodes(args), Push(CLOSE, s))
    ensures Unary(On(ExprTokens(Apply(f, args), 4), s)) == Parsed(Some(ExprNode(Apply(f, args))), s)
  {
    hide Arguments, ArgTokens, ExprNodes, Level, On, Next, ExprTokens, Push, ListTokens;
    CallUnfold(f, args, s);
    ListUnfold(args, s);
    var s0 := On(ExprTokens(Apply(f, args), 4), s);
    assert Unary(s0) == Primary(s0);
  }

  /** The one token of an expression that is neither an operation nor a call. */
  function LeafToken(e: Expr): Lexeme {
    match e
    case Num(n) => Lexeme(Liczba, Decimal(n))
    case Text(s) => Lexeme(Tekst, s)
    case Truth(b) => if b then Lexeme(Prawda, "prawda") else Lexeme(Falsz, "falsz")
    case Name(x) => Lexeme(Identyfikator, x)
    case _ => Lexeme(Nic, "nic")
  }

  predicate IsLeaf(e: Expr) { !e.Apply? && !e.Prefix? && !e.Infix? }

  lemma LeafUnfold(e: Expr, k: nat, s: State)
    requires IsLeaf(e) && k <= 4
    ensures ExprTokens(e, k) == [LeafToken(e)] && On(ExprTokens(e, k), s) == Push(LeafToken(e), s)
  {
    hide Decimal;
  }

  lemma ParseLeaf(e: Expr, s: State)
    requires IsLeaf(e) && Stops(4, s)
    ensures Unary(On(ExprTokens(e, 4), s)) == Parsed(Some(ExprNode(e)), s)
  {
    hide IsOperator, LevelOf, Level, Arguments, On, Next, Literal, Decimal, ExprTokens, Push;
    LeafUnfold(e, 4, s);
    if e.Num? {
      ReadNumber(e.n);
    }
    var s0 := Push(LeafToken(e), s);
    assert Head(s0).kind != Koniec;
    assert Unary(s0) == Primary(s0);
  }

  lemma ReadNumber(n: nat)
    ensures Literal(Decimal(n)) == ExprNode(Num(n))
  {
    DigitsRead(n);
  }

  lemma {:induction false} DigitsRead(n: nat)
    ensures IntValue(Decimal(n)) == n && Decimal(n) != ""
    ensures forall i :: 0 <= i < |Decimal(n)| ==> IsDigit(Decimal(n)[i])
  {
    hide Decimal;
    DecimalDigits(n);
    DecimalStep(n);
    if n >= 10 {
      DigitsRead(n / 10);
      assert Decimal(n)[..|Decimal(n)| - 1] == Decimal(n / 10);
    } else {
      assert Decimal(n)[..0] == "" && |Decimal(n)| == 1;
    }
  }

  lemma UnaryIsLevel(s: State)
    ensures Level(4, s) == Unary(s)
  {
    hide Unary;
  }

  lemma UpOne(e: Expr, k: nat, s: State)
    requires k < 4 && Strength(e) > k && Level(k + 1, On(ExprTokens(e, k + 1), s)) == Parsed(Some(ExprNode(e)), s)
    ensures Level(k, On(ExprTokens(e, k), s)) == Chain(k, Some(ExprNode(e)), s)
  {
    assert ExprTokens(e, k) == ExprTokens(e, k + 1);
    hide Chain, ExprNode, On, Unary, ExprTokens;
  }

  /** Level `k` reads back an expression printed for level `k`, whatever follows. */
  lemma {:induction false} ParseExpr(e: Expr, k: nat, s: State)
    requires GoodExpr(e) && k <= 4 && Stops(k, s)
    ensures Level(k, On(ExprTokens(e, k), s)) == Remaining(e, k, s)
    decreases e, if Strength(e) < k then 1 else 0, 5 - k
  {
    hide IsOperator, LevelOf, Chain, Unary, On, Level, Push, ExprTokens, ExprNode, OpText;
    if Strength(e) < k {
      ParseWhole(e, Push(CLOSE, s));
      ParseParens(e, k, s);
      Climb(k, On(ExprTokens(e, k), s), Some(ExprNode(e)), s);
    } else if k < 4 && Strength(e) > k {
      Done(e, k, s);
      ParseExpr(e, k + 1, s);
      UpOne(e, k, s);
    } else if e.Infix? {
      var s2 := On(ExprTokens(e.r, k + 1), s);
      OperatorStops(e.op, s2);
      ParseExpr(e.l, k, Push(Lexeme(e.op, OpText(e.op)), s2));
      Done(e.r, k, s);
      ParseExpr(e.r, k + 1, s);
      ParseInfix(e.op, e.l, e.r, s);
    } else {
      if e.Prefix? {
        ParseExpr(e.e, 4, s);
        UnaryIsLevel(On(ExprTokens(e.e, 4), s));
        ParsePrefix(e.op, e.e, s);
      } else if e.Apply? {
        ParseArguments([Bare(AstIdentifier, e.f, [])], e.args, Push(CLOSE, s));
        ParseCall(e.f, e.args, s);
      } else {
        ParseLeaf(e, s);
      }
      UnaryIsLevel(On(ExprTokens(e, 4), s));
    }
  }

  /** parser_parse_expression reads back a printed expression. */
  lemma {:induction false} ParseWhole(e: Expr, s: State)
    requires GoodExpr(e) && Ends(s)
    ensures Level(0, On(ExprTokens(e, 0), s)) == Parsed(Some(ExprNode(e)), s)
    decreases e, 0, 6
  {
    hide IsOperator, LevelOf, Chain, Level, On, Stops, Ends;
    EndsStop(0, s);
    ParseExpr(e, 0, s);
    NoChain(0, Some(ExprNode(e)), s);
  }

  // ----- Arguments -----

  lemma {:induction false} ParseArguments(nodes: seq<Node>, es: seq<Expr>, s: State)
    requires GoodExprs(es) && Head(s).kind == NawiasPrawy
    ensures Arguments(nodes, On(ArgTokens(es), s)) == ParsedMany(nodes + ExprNodes(es), s)
    decreases es, 1
  {
    hide ArgumentLoop, On, Head;
    if es == [] {
      OnEmpty(s);
      assert nodes + ExprNodes(es) == nodes;
    } else {
      ArgStart(es, s);
      ParseArgs(nodes, es, s);
    }
  }

  lemma ArgStart(es: seq<Expr>, s: State)
    requires GoodExprs(es) && es != []
    ensures Begins(Head(On(ArgTokens(es), s)).kind)
  {
    hide ExprTokens;
    FirstToken(es[0], 0);
  }

  lemma ArgUnfold(es: seq<Expr>, s: State)
    requires |es| > 1
    ensures On(ArgTokens(es), s) == On(ExprTokens(es[0], 0), Push(COMMA, On(ArgTokens(es[1..]), s)))
  {
    hide ExprTokens;
    var a, b := ExprTokens(es[0], 0), ArgTokens(es[1..]);
    assert ArgTokens(es) == a + [COMMA] + b;
    hide ArgTokens, On, Push;
    Between(a, COMMA, b, s);
  }

  /** The argument loop reads back a printed list, also when entered at a comma. */
  lemma {:induction false} ParseArgs(nodes: seq<Node>, es: seq<Expr>, s: State)
    requires GoodExprs(es) && es != [] && Head(s).kind == NawiasPrawy
    ensures ArgumentLoop(nodes, On(ArgTokens(es), s)) == ParsedMany(nodes + ExprNodes(es), s)
    ensures ArgumentLoop(nodes, Push(COMMA, On(ArgTokens(es), s))) == ParsedMany(nodes + ExprNodes(es), s)
    decreases es, 0
  {
    hide ExprTokens, ExprNode, Level, On, Next, Push, Head;
    ArgStart(es, s);
    if |es| == 1 {
      ParseWhole(es[0], s);
      assert ExprNodes(es) == [ExprNode(es[0])];
    } else {
      var next := Push(COMMA, On(ArgTokens(es[1..]), s));
      ArgUnfold(es, s);
      hide ArgTokens;
      ParseWhole(es[0], next);
      ParseArgs(nodes + [ExprNode(es[0])], es[1..], s);
      assert nodes + [ExprNode(es[0])] + ExprNodes(es[1..]) == nodes + ExprNodes(es);
    }
  }

  // ----- What parser_parse_statement does after each first token -----

  lemma SimpleStep(s: State)
    ensures Head(s).kind == Zmienna ==> Statement(s) == Declaration(Next(s))
    ensures Head(s).kind == Drukuj ==> Statement(s) == Printing(Next(s))
    ensures Head(s).kind == Zwroc ==> Statement(s) == Returning(Next(s))
    ensures Head(s).kind == Identyfikator ==> Statement(s) == Assignment(Head(s).value, Next(s))
    ensures Head(s).kind == Przerwij ==> Statement(s) == Terminated(Bare(AstBreak, "", []), Next(s))
    ensures Head(s).kind == Kontynuuj ==> Statement(s) == Terminated(Bare(AstContinue, "", []), Next(s))
  {
    hide Next, Declaration, Printing, Returning, Assignment;
  }

  lemma NestedStep(s: State)
    ensures Head(s).kind == Jesli ==> Statement(s) == Conditional(Next(s))
    ensures Head(s).kind == Dopoki ==> Statement(s) == Looping(Next(s))
    ensures Head(s).kind == KlamraLewa ==> Statement(s) == Block(s)
  {
    hide Next, Conditional, Looping, Block;
  }

  lemma BlockStep(s: State)
    ensures var p := Items([], Expect(KlamraLewa, s));
            Block(s) ==
            Parsed(Some(Bare(AstBlock, "", p.nodes)), if Over(p.st.status) then p.st else Expect(KlamraPrawa, p.st))
  {
    hide Items, Expect;
  }

  // ----- Statements without blocks -----

  /** The semicolon after `node`. */
  lemma EndHere(node: Node, s: State)
    ensures Ends(Push(END, s)) && Terminated(node, Push(END, s)) == Parsed(Some(node), s)
  {
    hide Push;
  }

  lemma EndedUnfold(ts: seq<Lexeme>, s: State)
    ensures On(ts + [END], s) == On(ts, Push(END, s))
  {
    assert ts + [END] + s.ts == ts + ([END] + s.ts);
  }

  lemma PrintUnfold(args: seq<Expr>, s: State)
    ensures On(StmtTokens(Print(args)), s) == Push(Lexeme(Drukuj, "drukuj"), On(ListTokens(args), Push(END, s)))
  {
    hide On, Push, ListTokens;
    var word, ts := Lexeme(Drukuj, "drukuj"), ListTokens(args);
    assert StmtTokens(Print(args)) == [word] + ts + [END];
    hide StmtTokens;
    EndedUnfold([word] + ts, s);
    FrontUnfold(word, ts, Push(END, s));
  }

  lemma ParsePrint(args: seq<Expr>, s: State)
    requires GoodExprs(args)
    ensures Statement(On(StmtTokens(Print(args)), s)) == Parsed(Some(StmtNode(Print(args))), s)
  {
    hide ArgTokens, ExprNodes, Arguments, On, Next, Statement, Head, Push, ListTokens, Terminated;
    var word, s1 := Lexeme(Drukuj, "drukuj"), Push(END, s);
    PrintUnfold(args, s);
    hide StmtTokens;
    ListUnfold(args, s1);
    ParseArguments([], args, Push(CLOSE, s1));
    assert [] + ExprNodes(args) == ExprNodes(args);
    SimpleStep(Push(word, On(ListTokens(args), s1)));
    EndHere(Bare(AstPrint, "", ExprNodes(args)), s);
  }

  lemma DefineUnfold(x: string, e: Expr, s: State)
    ensures On(StmtTokens(Define(x, e)), s)
         == Push(Lexeme(Zmienna, "zmienna"),
           Push(Lexeme(Identyfikator, x), Push(SET, On(ExprTokens(e, 0), Push(END, s)))))
  {
    hide ExprTokens, On, Push;
    var word, n, ts, s1 := Lexeme(Zmienna, "zmienna"), Lexeme(Identyfikator, x), ExprTokens(e, 0), Push(END, s);
    assert StmtTokens(Define(x, e)) == [word] + ([n] + ([SET] + ts)) + [END];
    hide StmtTokens;
    EndedUnfold([word] + ([n] + ([SET] + ts)), s);
    FrontUnfold(word, [n] + ([SET] + ts), s1);
    FrontUnfold(n, [SET] + ts, s1);
    FrontUnfold(SET, ts, s1);
  }

  lemma ParseDefine(x: string, e: Expr, s: State)
    requires GoodExpr(e)
    ensures Statement(On(StmtTokens(Define(x, e)), s)) == Parsed(Some(StmtNode(Define(x, e))), s)
  {
    hide ExprTokens, ExprNode, Level, On, Next, Statement, Head, Push, Terminated;
    var word, n, ts, s1 := Lexeme(Zmienna, "zmienna"), Lexeme(Identyfikator, x), ExprTokens(e, 0), Push(END, s);
    DefineUnfold(x, e, s);
    hide StmtTokens;
    SimpleStep(Push(word, Push(n, Push(SET, On(ts, s1)))));
    EndHere(Bare(AstVarDecl, x, [ExprNode(e)]), s);
    ParseWhole(e, s1);
    assert Add([], Some(ExprNode(e))) == [ExprNode(e)];
  }

  lemma AssignUnfold(x: string, e: Expr, s: State)
    ensures On(StmtTokens(Assign(x, e)), s) ==
            Push(Lexeme(Identyfikator, x), Push(SET, On(ExprTokens(e, 0), Push(END, s))))
  {
    hide ExprTokens, On, Push;
    var n, ts, s1 := Lexeme(Identyfikator, x), ExprTokens(e, 0), Push(END, s);
    assert StmtTokens(Assign(x, e)) == [n] + ([SET] + ts) + [END];
    hide StmtTokens;
    EndedUnfold([n] + ([SET] + ts), s);
    FrontUnfold(n, [SET] + ts, s1);
    FrontUnfold(SET, ts, s1);
  }

  lemma ParseAssign(x: string, e: Expr, s: State)
    requires GoodExpr(e)
    ensures Statement(On(StmtTokens(Assign(x, e)), s)) == Parsed(Some(StmtNode(Assign(x, e))), s)
  {
    hide ExprTokens, ExprNode, Level, On, Next, Statement, Head, Push, Terminated;
    var n, ts, s1 := Lexeme(Identyfikator, x), ExprTokens(e, 0), Push(END, s);
    AssignUnfold(x, e, s);
    hide StmtTokens;
    SimpleStep(Push(n, Push(SET, On(ts, s1))));
    EndHere(Bare(AstAssign, x, [ExprNode(e)]), s);
    ParseWhole(e, s1);
    assert Add([], Some(ExprNode(e))) == [ExprNode(e)];
  }

  lemma ReturnUnfold(e: Expr, s: State)
    ensures On(StmtTokens(ReturnValue(e)), s) == Push(Lexeme(Zwroc, "zwroc"), On(ExprTokens(e, 0), Push(END, s)))
  {
    hide ExprTokens, On, Push;
    var word, ts, s1 := Lexeme(Zwroc, "zwroc"), ExprTokens(e, 0), Push(END, s);
    assert StmtTokens(ReturnValue(e)) == [word] + ts + [END];
    hide StmtTokens;
    EndedUnfold([word] + ts, s);
    FrontUnfold(word, ts, s1);
  }

  lemma ParseReturn(e: Expr, s: State)
    requires GoodExpr(e)
    ensures Statement(On(StmtTokens(ReturnValue(e)), s)) == Parsed(Some(StmtNode(ReturnValue(e))), s)
  {
    hide ExprTokens, ExprNode, Level, On, Next, Statement, Head, Push, Terminated;
    var word, ts, s1 := Lexeme(Zwroc, "zwroc"), ExprTokens(e, 0), Push(END, s);
    ReturnUnfold(e, s);
    hide StmtTokens;
    SimpleStep(Push(word, On(ts, s1)));
    ExprStart(e, 0, s1);
    EndHere(Bare(AstReturn, "", [ExprNode(e)]), s);
    ParseWhole(e, s1);
    assert Add([], Some(ExprNode(e))) == [ExprNode(e)];
  }

  lemma ShortUnfold(t: Lexeme, s: State)
    ensures On([t, END], s) == Push(t, Push(END, s))
  {
    assert [t, END] + s.ts == [t] + ([END] + s.ts);
  }

  lemma ParseDeclare(x: string, s: State)
    ensures Statement(On(StmtTokens(Declare(x)), s)) == Parsed(Some(StmtNode(Declare(x))), s)
  {
    hide On, Next, Statement, Head, Push, Terminated;
    var word, n := Lexeme(Zmienna, "zmienna"), Lexeme(Identyfikator, x);
    assert StmtTokens(Declare(x)) == [word] + [n, END];
    FrontUnfold(word, [n, END], s);
    ShortUnfold(n, s);
    SimpleStep(Push(word, Push(n, Push(END, s))));
    EndHere(Bare(AstVarDecl, x, []), s);
  }

  /** A statement of one word. */
  lemma ParseWord(st: Stmt, s: State)
    requires st.Return? || st.Break? || st.Continue?
    ensures Statement(On(StmtTokens(st), s)) == Parsed(Some(StmtNode(st)), s)
  {
    hide On, Next, Statement, Head, Push, Terminated;
    var t := StmtTokens(st)[0];
    assert StmtTokens(st) == [t, END];
    ShortUnfold(t, s);
    var s0 := Push(t, Push(END, s));
    SimpleStep(s0);
    EndHere(StmtNode(st), s);
  }

  // ----- Statements with blocks -----

  lemma GuardUnfold(c: Expr, s: State)
    ensures On(GuardTokens(c), s) == Push(OPEN, On(ExprTokens(c, 0), Push(CLOSE, s)))
  {
    hide ExprTokens;
    assert [OPEN] + ExprTokens(c, 0) + [CLOSE] + s.ts == [OPEN] + (ExprTokens(c, 0) + ([CLOSE] + s.ts));
  }

  lemma ParseGuard(c: Expr, s: State)
    requires GoodExpr(c)
    ensures Condition(On(GuardTokens(c), s)) == Parsed(Some(ExprNode(c)), s)
  {
    hide ExprTokens, ExprNode, Level, On, Next, Push, GuardTokens;
    GuardUnfold(c, s);
    ParseWhole(c, Push(CLOSE, s));
  }

  /** A block is read back, and then `s` is left. */
  predicate ReadsBlock(ss: seq<Stmt>, s: State) {
    Block(On(BlockTokens(ss), s)) == Parsed(Some(Bare(AstBlock, "", StmtNodes(ss))), s)
  }

  lemma GuardedUnfold(word: Lexeme, c: Expr, ts: seq<Lexeme>, s: State)
    ensures On([word] + GuardTokens(c) + ts, s) == Push(word, On(GuardTokens(c), On(ts, s)))
  {
    hide GuardTokens, Push, On;
    assert [word] + GuardTokens(c) + ts == [word] + (GuardTokens(c) + ts);
    FrontUnfold(word, GuardTokens(c) + ts, s);
    OnAppend(GuardTokens(c), ts, s);
  }

  lemma ParseIf(c: Expr, t: seq<Stmt>, s: State)
    requires GoodExpr(c) && Head(s).kind != Inaczej && ReadsBlock(t, s)
    ensures Statement(On(StmtTokens(If(c, t)), s)) == Parsed(Some(StmtNode(If(c, t))), s)
  {
    hide ExprNode, On, Next, Head, Push, Block, BlockTokens, StmtNodes, Condition, GuardTokens, Statement;
    var word := Lexeme(Jesli, "jesli");
    GuardedUnfold(word, c, BlockTokens(t), s);
    NestedStep(On(StmtTokens(If(c, t)), s));
    ParseGuard(c, On(BlockTokens(t), s));
    assert Add(Add([], Some(ExprNode(c))), Some(Bare(AstBlock, "", StmtNodes(t))))
        == [ExprNode(c), Bare(AstBlock, "", StmtNodes(t))];
  }

  lemma ParseWhile(c: Expr, body: seq<Stmt>, s: State)
    requires GoodExpr(c) && ReadsBlock(body, s)
    ensures Statement(On(StmtTokens(While(c, body)), s)) == Parsed(Some(StmtNode(While(c, body))), s)
  {
    hide ExprNode, On, Next, Head, Push, Block, BlockTokens, StmtNodes, Condition, GuardTokens, Statement;
    var word := Lexeme(Dopoki, "dopoki");
    GuardedUnfold(word, c, BlockTokens(body), s);
    NestedStep(On(StmtTokens(While(c, body)), s));
    ParseGuard(c, On(BlockTokens(body), s));
    assert Add(Add([], Some(ExprNode(c))), Some(Bare(AstBlock, "", StmtNodes(body))))
        == [ExprNode(c), Bare(AstBlock, "", StmtNodes(body))];
  }

  lemma IfElseUnfold(c: Expr, t: seq<Stmt>, f: seq<Stmt>, s: State)
    ensures var s1 := Push(Lexeme(Inaczej, "inaczej"), On(BlockTokens(f), s));
            On(StmtTokens(IfElse(c, t, f)), s) ==
              Push(Lexeme(Jesli, "jesli"), On(GuardTokens(c), On(BlockTokens(t), s1)))
  {
    hide On, Push, BlockTokens, GuardTokens;
    var word, other := Lexeme(Jesli, "jesli"), Lexeme(Inaczej, "inaczej");
    var a, b := BlockTokens(t), [other] + BlockTokens(f);
    assert StmtTokens(IfElse(c, t, f)) == [word] + GuardTokens(c) + (a + b);
    hide StmtTokens;
    GuardedUnfold(word, c, a + b, s);
    OnAppend(a, b, s);
    FrontUnfold(other, BlockTokens(f), s);
  }

  lemma ParseIfElse(c: Expr, t: seq<Stmt>, f: seq<Stmt>, s: State)
    requires GoodExpr(c) && s.status == Fine && ReadsBlock(f, s)
    requires ReadsBlock(t, Push(Lexeme(Inaczej, "inaczej"), On(BlockTokens(f), s)))
    ensures Statement(On(StmtTokens(IfElse(c, t, f)), s)) == Parsed(Some(StmtNode(IfElse(c, t, f))), s)
  {
    hide ExprNode, On, Next, Head, Push, Block, BlockTokens, StmtNodes, Condition, GuardTokens, Statement, StmtTokens;
    var s1 := Push(Lexeme(Inaczej, "inaczej"), On(BlockTokens(f), s));
    IfElseUnfold(c, t, f, s);
    NestedStep(On(StmtTokens(IfElse(c, t, f)), s));
    ParseGuard(c, On(BlockTokens(t), s1));
    assert Add(Add(Add([], Some(ExprNode(c))), Some(Bare(AstBlock, "", StmtNodes(t)))),
      Some(Bare(AstBlock, "", StmtNodes(f))))
        == [ExprNode(c), Bare(AstBlock, "", StmtNodes(t)), Bare(AstBlock, "", StmtNodes(f))];
  }

  lemma ParseGroup(body: seq<Stmt>, s: State)
    requires ReadsBlock(body, s)
    ensures Statement(On(StmtTokens(Group(body)), s)) == Parsed(Some(StmtNode(Group(body))), s)
  {
    hide On, Next, Block, BlockTokens, StmtNodes, Statement;
    BlockUnfold(body, s);
    NestedStep(On(BlockTokens(body), s));
  }

  lemma BlockUnfold(ss: seq<Stmt>, s: State)
    ensures On(BlockTokens(ss), s) ==
            Push(Lexeme(KlamraLewa, "{"), On(StmtsTokens(ss), Push(Lexeme(KlamraPrawa, "}"), s)))
  {
    hide StmtsTokens;
    var open, ts, close := Lexeme(KlamraLewa, "{"), StmtsTokens(ss), Lexeme(KlamraPrawa, "}");
    assert BlockTokens(ss) == [open] + ts + [close];
    assert [open] + ts + [close] + s.ts == [open] + (ts + ([close] + s.ts));
  }

  /** A printed statement is read back, unless `inaczej` would attach to it. */
  lemma {:induction false} ParseStmt(st: Stmt, s: State)
    requires Good(st) && s.status == Fine && Head(s).kind != Inaczej
    ensures Statement(On(StmtTokens(st), s)) == Parsed(Some(StmtNode(st)), s)
    decreases st, 0
  {
    hide ReadsBlock, On, Push, Statement, StmtTokens, StmtNode, Head;
    match st
    case If(c, t) =>
      ParseBlock(t, s);
      ParseIf(c, t, s);
    case IfElse(c, t, f) =>
      ParseBlock(t, Push(Lexeme(Inaczej, "inaczej"), On(BlockTokens(f), s)));
      ParseBlock(f, s);
      ParseIfElse(c, t, f, s);
    case While(c, body) =>
      ParseBlock(body, s);
      ParseWhile(c, body, s);
    case Group(body) =>
      ParseBlock(body, s);
      ParseGroup(body, s);
    case Print(args) => ParsePrint(args, s);
    case Declare(x) => ParseDeclare(x, s);
    case Define(x, e) => ParseDefine(x, e, s);
    case Assign(x, e) => ParseAssign(x, e, s);
    case ReturnValue(e) => ParseReturn(e, s);
    case _ => ParseWord(st, s);
  }

  lemma {:induction false} ParseBlock(ss: seq<Stmt>, s: State)
    requires AllGood(ss) && s.status == Fine
    ensures ReadsBlock(ss, s)
    decreases ss, 2
  {
    hide On, Next, Items, StmtsTokens, StmtNodes, Block, Head, Push, BlockTokens;
    BlockUnfold(ss, s);
    BlockStep(On(BlockTokens(ss), s));
    ParseItems([], ss, Push(Lexeme(KlamraPrawa, "}"), s));
    assert [] + StmtNodes(ss) == StmtNodes(ss);
  }

  lemma StmtStart(st: Stmt, s: State)
    ensures Starts(Head(On(StmtTokens(st), s)).kind)
  {
  }

  lemma ListStart(ss: seq<Stmt>, s: State)
    requires Head(s).kind != Inaczej
    ensures Head(On(StmtsTokens(ss), s)).kind != Inaczej
  {
    hide StmtTokens, On, Head;
    if ss == [] {
      OnEmpty(s);
    } else {
      StmtStart(ss[0], On(StmtsTokens(ss[1..]), s));
      OnAppend(StmtTokens(ss[0]), StmtsTokens(ss[1..]), s);
    }
  }

  /** The first statement of a printed list, what it starts with, and what is then left. */
  lemma {:induction false} ParseFirst(ss: seq<Stmt>, s: State)
    requires AllGood(ss) && ss != [] && s.status == Fine && Head(s).kind != Inaczej
    ensures var next := On(StmtsTokens(ss[1..]), s);
            && Statement(On(StmtsTokens(ss), s)) == Parsed(Some(StmtNode(ss[0])), next)
            && Starts(Head(On(StmtsTokens(ss), s)).kind)
    decreases ss, 0
  {
    hide StmtTokens, StmtNode, Statement, On, Head;
    var next := On(StmtsTokens(ss[1..]), s);
    OnAppend(StmtTokens(ss[0]), StmtsTokens(ss[1..]), s);
    StmtStart(ss[0], next);
    ListStart(ss[1..], s);
    ParseStmt(ss[0], next);
  }

  lemma {:induction false} ParseItems(nodes: seq<Node>, ss: seq<Stmt>, s: State)
    requires AllGood(ss) && s.status == Fine && Head(s).kind == KlamraPrawa
    ensures Items(nodes, On(StmtsTokens(ss), s)) == ParsedMany(nodes + StmtNodes(ss), s)
    decreases ss, 1
  {
    hide StmtTokens, StmtNode, Statement, On, Head;
    if ss == [] {
      OnEmpty(s);
      assert nodes + StmtNodes(ss) == nodes;
    } else {
      ParseFirst(ss, s);
      ParseItems(nodes + [StmtNode(ss[0])], ss[1..], s);
      assert nodes + [StmtNode(ss[0])] + StmtNodes(ss[1..]) == nodes + StmtNodes(ss);
    }
  }

  const DONE := State([], Fine)

  /** parser_parse_program reads back the tokens of a program. */
  lemma {:induction false} ParseTokens(nodes: seq<Node>, ss: seq<Stmt>)
    requires AllGood(ss)
    ensures Program(nodes, State(StmtsTokens(ss), Fine)) ==
            Parsed(Some(Bare(AstProgram, "", nodes + StmtNodes(ss))), DONE)
    decreases ss
  {
    hide StmtTokens, StmtNode, Statement;
    assert On(StmtsTokens(ss), DONE) == State(StmtsTokens(ss), Fine);
    if ss == [] {
      assert nodes + StmtNodes(ss) == nodes;
    } else {
      ParseFirst(ss, DONE);
      assert On(StmtsTokens(ss[1..]), DONE) == State(StmtsTokens(ss[1..]), Fine);
      ParseTokens(nodes + [StmtNode(ss[0])], ss[1..]);
      assert nodes + [StmtNode(ss[0])] + StmtNodes(ss[1..]) == nodes + StmtNodes(ss);
    }
  }

  /** Lexing and parsing the printed text of a program gives its tree, with no error. */
  lemma ParseUndoesPrint(ss: seq<Stmt>)
    requires AllGood(ss)
    ensures '\0' !in PrintProgram(ss)
    ensures Program([], State(Tokens(PrintProgram(ss)), Fine)) ==
            Parsed(Some(Bare(AstProgram, "", StmtNodes(ss))), DONE)
  {
    hide GoodToken, Program, StmtsTokens, Tokens, Render, StmtNodes;
    StmtsWritable(ss);
    RenderNoNul(StmtsTokens(ss));
    LexUndoesRender(StmtsTokens(ss));
    ParseTokens([], ss);
    assert [] + StmtNodes(ss) == StmtNodes(ss);
  }
}
