/** The syntax tree of PolskiScript, and what its parser makes of a token stream
    (kernel/lang/polskiscript.c).  The functions here specify the methods of Parser.dfy. */
module Syntax {
  import opened Common
  import opened Lexer

  datatype NodeType =
    | AstProgram | AstVarDecl | AstAssign | AstBinaryOp | AstUnaryOp | AstCall | AstIf | AstWhile | AstReturn
    | AstPrint | AstBreak | AstContinue | AstBlock | AstIdentifier
    | AstLiteralInt | AstLiteralFloat | AstLiteralString | AstLiteralBool | AstLiteralNull

  /** An ASTNode; fields a node type does not use are zero. */
  datatype Node = Node(typ: NodeType, str: string, num: int, frac: real, flag: bool, kids: seq<Node>)

  function Bare(typ: NodeType, str: string, kids: seq<Node>): Node {
    Node(typ, str, 0, 0.0, false, kids)
  }

  /** ast_node_add_child: a missing child is not added. */
  function Add(kids: seq<Node>, child: Option<Node>): seq<Node> {
    if child.Some? then kids + [child.value] else kids
  }

  // ----- Literals -----

  function DigitOf(c: char): int { c as int - '0' as int }

  function IntValue(v: string): int {
    if v == "" then 0 else IntValue(v[..|v| - 1]) * 10 + DigitOf(v[|v| - 1])
  }

  /** The state of the loop that reads a number with a dot. */
  datatype Reading = Reading(val: real, frac: real, after: bool)

  function FloatReading(v: string): Reading {
    if v == "" then Reading(0.0, 0.1, false)
    else
      var r, c := FloatReading(v[..|v| - 1]), v[|v| - 1];
      if c == '.' then r.(after := true)
      else if r.after then r.(val := r.val + DigitOf(c) as real * r.frac, frac := r.frac * 0.1)
      else r.(val := r.val * 10.0 + DigitOf(c) as real)
  }

  function Literal(v: string): Node {
    if '.' in v then Bare(AstLiteralFloat, "", []).(frac := FloatReading(v).val)
    else Bare(AstLiteralInt, "", []).(num := IntValue(v))
  }

  /** One tenth, `k` times. */
  function Tenths(k: nat): real { if k == 0 then 1.0 else Tenths(k - 1) * 0.1 }

  lemma {:induction false} WholePart(a: string)
    requires '.' !in a
    ensures FloatReading(a) == Reading(IntValue(a) as real, 0.1, false)
  {
    if a != "" {
      WholePart(a[..|a| - 1]);
    }
  }

  /** A literal with a dot is read as its whole part and that many tenths of its other digits. */
  lemma {:induction false} FloatExact(a: string, b: string)
    requires '.' !in a && '.' !in b
    ensures FloatReading(a + "." + b) ==
            Reading(IntValue(a) as real + IntValue(b) as real * Tenths(|b|), 0.1 * Tenths(|b|), true)
    decreases |b|
  {
    var v := a + "." + b;
    if b == "" {
      assert v[..|v| - 1] == a;
      WholePart(a);
    } else {
      var c := b[..|b| - 1];
      assert v[..|v| - 1] == a + "." + c;
      FloatExact(a, c);
      NextTenth(IntValue(c) as real, DigitOf(b[|b| - 1]) as real, Tenths(|c|));
    }
  }

  lemma NextTenth(v: real, d: real, t: real)
    ensures (v * 10.0 + d) * (t * 0.1) == v * t + d * (0.1 * t)
    ensures 0.1 * t * 0.1 == 0.1 * (t * 0.1)
  {
  }

  // ----- Parser states -----

  /** `Error` is has_error.  The model stops with `Spins` where a statement loop would go on
      forever without consuming a token, and with `Rewinds` where the source moves the lexer
      back to re-read an expression statement. */
  datatype Status = Fine | Error | Spins | Rewinds

  predicate Over(status: Status) { status == Spins || status == Rewinds }

  /** The tokens ahead, the end token left out, and the status. */
  datatype State = State(ts: seq<Lexeme>, status: Status)

  datatype Parsed = Parsed(node: Option<Node>, st: State)

  datatype ParsedMany = ParsedMany(nodes: seq<Node>, st: State)

  function Head(s: State): Lexeme {
    if s.ts == [] then Lexeme(Koniec, "") else s.ts[0]
  }

  function Next(s: State): State {
    if s.ts == [] then s else s.(ts := s.ts[1..])
  }

  function Expect(kind: Kind, s: State): (s1: State)
    ensures |s1.ts| <= |s.ts|
  {
    if Head(s).kind == kind then Next(s) else s.(status := Error)
  }

  /** `s1` is left of `s` once some tokens, or none, are consumed. */
  predicate Consumes(s: State, s1: State) {
    |s1.ts| < |s.ts| || s1.ts == s.ts
  }

  // ----- Expressions -----

  /** The operators of each binary level, loosest first. */
  predicate IsOperator(level: nat, kind: Kind) {
    match level
    case 0 => kind in {I, Lub}
    case 1 => kind in {Mniejsze, Wieksze, MniejszeRowne, WiekszeRowne, Rowne, Nierowne}
    case 2 => kind in {Plus, Minus}
    case 3 => kind in {Mnozenie, Dzielenie, Modulo}
    case _ => false
  }

  /** The operators from the loosest level to the tightest; each has one level. */
  lemma OperatorsExact(level: nat, kind: Kind)
    ensures IsOperator(level, kind) <==>
            || (level == 0 && (kind == I || kind == Lub))
            || (level == 1 && (kind == Rowne || kind == Nierowne))
            || (level == 1 && (kind == Mniejsze || kind == Wieksze || kind == MniejszeRowne || kind == WiekszeRowne))
            || (level == 2 && (kind == Plus || kind == Minus))
            || (level == 3 && (kind == Mnozenie || kind == Dzielenie || kind == Modulo))
  {
  }

  /** Levels 0 to 3 are the binary ones; level 4 is parser_parse_unary. */
  function Level(k: nat, s: State): (p: Parsed)
    requires k <= 4
    ensures Consumes(s, p.st)
    decreases |s.ts|, 2 * (4 - k) + 2
  {
    if k == 4 then Unary(s)
    else
      var p := Level(k + 1, s);
      Chain(k, p.node, p.st)
  }

  /** The rest of a left-associative chain of level `k` after its operand `left`. */
  function Chain(k: nat, left: Option<Node>, s: State): (p: Parsed)
    requires k < 4
    ensures Consumes(s, p.st)
    decreases |s.ts|, 2 * (4 - k) + 1
  {
    if IsOperator(k, Head(s).kind) then
      var p := Level(k + 1, Next(s));
      Chain(k, Some(Bare(AstBinaryOp, Head(s).value, Add(Add([], left), p.node))), p.st)
    else
      Parsed(left, s)
  }

  function Unary(s: State): (p: Parsed)
    ensures Consumes(s, p.st)
    decreases |s.ts|, 1
  {
    if Head(s).kind in {Minus, Nie} then
      var p := Unary(Next(s));
      Parsed(Some(Bare(AstUnaryOp, Head(s).value, Add([], p.node))), p.st)
    else
      Primary(s)
  }

  function Primary(s: State): (p: Parsed)
    ensures Consumes(s, p.st)
    decreases |s.ts|, 0
  {
    match Head(s).kind
    case Liczba => Parsed(Some(Literal(Head(s).value)), Next(s))
    case Tekst => Parsed(Some(Bare(AstLiteralString, Head(s).value, [])), Next(s))
    case Prawda => Parsed(Some(Bare(AstLiteralBool, "", []).(flag := true)), Next(s))
    case Falsz => Parsed(Some(Bare(AstLiteralBool, "", [])), Next(s))
    case Nic => Parsed(Some(Bare(AstLiteralNull, "", [])), Next(s))
    case Identyfikator =>
      var name := Bare(AstIdentifier, Head(s).value, []);
      if Head(Next(s)).kind == NawiasLewy then
        var p := Arguments([name], Next(Next(s)));
        Parsed(Some(Bare(AstCall, "", p.nodes)), Expect(NawiasPrawy, p.st))
      else
        Parsed(Some(name), Next(s))
    case NawiasLewy =>
      var p := Level(0, Next(s));
      Parsed(p.node, Expect(NawiasPrawy, p.st))
    case _ => Parsed(None, s)
  }

  /** The arguments up to the closing parenthesis, after the ones in `nodes`. */
  function Arguments(nodes: seq<Node>, s: State): (p: ParsedMany)
    ensures Consumes(s, p.st)
    decreases |s.ts|, 12
  {
    if Head(s).kind == NawiasPrawy then ParsedMany(nodes, s) else ArgumentLoop(nodes, s)
  }

  function ArgumentLoop(nodes: seq<Node>, s: State): (p: ParsedMany)
    ensures Consumes(s, p.st)
    decreases |s.ts|, 11
  {
    var s1 := if Head(s).kind == Przecinek then Next(s) else s;
    var p := Level(0, s1);
    if Head(p.st).kind == Przecinek then ArgumentLoop(Add(nodes, p.node), p.st)
    else ParsedMany(Add(nodes, p.node), p.st)
  }

  // ----- Statements -----

  function Terminated(node: Node, s: State): Parsed {
    Parsed(Some(node), Expect(Srednik, s))
  }

  /** Some statement starts with a token of this kind. */
  predicate Starts(kind: Kind) {
    kind in {Zmienna, Drukuj, Jesli, Dopoki, Zwroc, Przerwij, Kontynuuj, Identyfikator, KlamraLewa}
  }

  function Statement(s: State): (p: Parsed)
    ensures if Starts(Head(s).kind) then |p.st.ts| < |s.ts| else p == Parsed(None, s)
    decreases |s.ts|, 1
  {
    match Head(s).kind
    case Zmienna => Declaration(Next(s))
    case Drukuj => Printing(Next(s))
    case Jesli => Conditional(Next(s))
    case Dopoki => Looping(Next(s))
    case Zwroc => Returning(Next(s))
    case Przerwij => Terminated(Bare(AstBreak, "", []), Next(s))
    case Kontynuuj => Terminated(Bare(AstContinue, "", []), Next(s))
    case Identyfikator => Assignment(Head(s).value, Next(s))
    case KlamraLewa => Block(s)
    case _ => Parsed(None, s)
  }

  /** After the name of an assignment. */
  function Assignment(name: string, s: State): (p: Parsed)
    ensures |p.st.ts| <= |s.ts|
  {
    if Head(s).kind == Przypisanie then
      var p := Level(0, Next(s));
      Terminated(Bare(AstAssign, name, Add([], p.node)), p.st)
    else
      Parsed(None, s.(status := Rewinds))
  }

  /** After `drukuj`. */
  function Printing(s: State): (p: Parsed)
    ensures |p.st.ts| <= |s.ts|
  {
    var p := Arguments([], Expect(NawiasLewy, s));
    Terminated(Bare(AstPrint, "", p.nodes), Expect(NawiasPrawy, p.st))
  }

  /** After `zwroc`. */
  function Returning(s: State): (p: Parsed)
    ensures |p.st.ts| <= |s.ts|
  {
    if Head(s).kind == Srednik then Terminated(Bare(AstReturn, "", []), s)
    else
      var p := Level(0, s);
      Terminated(Bare(AstReturn, "", Add([], p.node)), p.st)
  }

  /** After `zmienna`. */
  function Declaration(s: State): (p: Parsed)
    ensures |p.st.ts| <= |s.ts|
  {
    if Head(s).kind != Identyfikator then Parsed(None, s.(status := Error))
    else if Head(Next(s)).kind == Przypisanie then
      var p := Level(0, Next(Next(s)));
      Terminated(Bare(AstVarDecl, Head(s).value, Add([], p.node)), p.st)
    else
      Terminated(Bare(AstVarDecl, Head(s).value, []), Next(s))
  }

  function Condition(s: State): (p: Parsed)
    ensures |p.st.ts| <= |s.ts|
  {
    var p := Level(0, Expect(NawiasLewy, s));
    Parsed(p.node, Expect(NawiasPrawy, p.st))
  }

  /** After `jesli`. */
  function Conditional(s: State): (p: Parsed)
    ensures |p.st.ts| <= |s.ts|
    decreases |s.ts|, 4
  {
    var c := Condition(s);
    var t := Block(c.st);
    var kids := Add(Add([], c.node), t.node);
    if !Over(t.st.status) && Head(t.st).kind == Inaczej then
      var e := Block(Next(t.st));
      Parsed(Some(Bare(AstIf, "", Add(kids, e.node))), e.st)
    else
      Parsed(Some(Bare(AstIf, "", kids)), t.st)
  }

  /** After `dopoki`. */
  function Looping(s: State): (p: Parsed)
    ensures |p.st.ts| <= |s.ts|
    decreases |s.ts|, 4
  {
    var c := Condition(s);
    var b := Block(c.st);
    Parsed(Some(Bare(AstWhile, "", Add(Add([], c.node), b.node))), b.st)
  }

  function Block(s: State): (p: Parsed)
    ensures |p.st.ts| <= |s.ts|
    ensures Head(s).kind == KlamraLewa ==> |p.st.ts| < |s.ts|
    decreases |s.ts|, if Head(s).kind == KlamraLewa then 0 else 3
  {
    var p := Items([], Expect(KlamraLewa, s));
    Parsed(Some(Bare(AstBlock, "", p.nodes)), if Over(p.st.status) then p.st else Expect(KlamraPrawa, p.st))
  }

  /** The statements of a block, after the ones in `nodes`. */
  function Items(nodes: seq<Node>, s: State): (p: ParsedMany)
    ensures |p.st.ts| <= |s.ts|
    decreases |s.ts|, 2
  {
    if Head(s).kind == KlamraPrawa || Head(s).kind == Koniec then ParsedMany(nodes, s)
    else
      var p := Statement(s);
      if p.st.status != Fine then ParsedMany(Add(nodes, p.node), p.st)
      else if !Starts(Head(s).kind) then ParsedMany(nodes, s.(status := Spins))
      else Items(Add(nodes, p.node), p.st)
  }

  /** parser_parse_program: no tree when there is an error. */
  function Program(nodes: seq<Node>, s: State): (p: Parsed)
    requires s.status == Fine
    ensures |p.st.ts| <= |s.ts|
    decreases |s.ts|
  {
    if Head(s).kind == Koniec then Parsed(Some(Bare(AstProgram, "", nodes)), s)
    else
      var p := Statement(s);
      if p.st.status != Fine then Parsed(None, p.st)
      else if !Starts(Head(s).kind) then Parsed(None, s.(status := Spins))
      else Program(Add(nodes, p.node), p.st)
  }

  /** Where a statement of the program is due, a token that starts none is never passed: the
      loop of parser_parse_program goes round forever. */
  lemma StrayToken(nodes: seq<Node>, s: State)
    requires s.status == Fine && s.ts != [] && Head(s).kind != Koniec
    ensures Program(nodes, s).st == s.(status := Spins) <==> !Starts(Head(s).kind)
  {
    hide Statement;
  }

  /** The loop of parser_parse_block does the same, except at the closing brace. */
  lemma StrayInBlock(nodes: seq<Node>, s: State)
    requires s.status == Fine && s.ts != [] && Head(s).kind != Koniec && Head(s).kind != KlamraPrawa
    ensures Items(nodes, s) == ParsedMany(nodes, s.(status := Spins)) <==> !Starts(Head(s).kind)
  {
    hide Statement;
  }

  const OPENS := Lexeme(KlamraLewa, "{")
  const RIGHT := Lexeme(NawiasPrawy, ")")
  const CLOSES := Lexeme(KlamraPrawa, "}")

  /** A single closing parenthesis is such a program. */
  lemma LoneParenthesis()
    ensures Tokens(")") == [RIGHT]
    ensures Program([], State(Tokens(")"), Fine)).st.status == Spins
  {
    hide Program, Tokens;
    LexStray("");
    LexNothing();
    assert [')'] + "" == ")";
    StrayToken([], State([RIGHT], Fine));
  }

  /** And one inside a block, although its first token starts a statement. */
  lemma ParenthesisInBlock()
    ensures Tokens("{)}") == [OPENS, RIGHT, CLOSES]
    ensures Program([], State(Tokens("{)}"), Fine)).st.status == Spins
  {
    hide Tokens, Program, Items, Statement;
    LexBlock();
    var s := State([OPENS, RIGHT, CLOSES], Fine);
    assert Next(s) == State([RIGHT, CLOSES], Fine);
    StrayInBlock([], Next(s));
    BlockSpins(s);
    StopsAtOnce([], s);
  }

  lemma BlockSpins(s: State)
    requires Head(s).kind == KlamraLewa && Items([], Next(s)).st.status == Spins
    ensures Statement(s).st.status == Spins
  {
    hide Items;
  }

  lemma StopsAtOnce(nodes: seq<Node>, s: State)
    requires s.status == Fine && Head(s).kind != Koniec && Statement(s).st.status == Spins
    ensures Program(nodes, s).st.status == Spins
  {
    hide Statement;
  }

  lemma LexBlock()
    ensures Tokens("{)}") == [OPENS, RIGHT, CLOSES]
  {
    hide Tokens;
    assert ['{'] + ")}" == "{)}" && [')'] + "}" == ")}" && ['}'] + "" == "}";
    LexOpens(")}");
    LexStray("}");
    LexCloses("");
    LexNothing();
  }

  lemma LexNothing()
    ensures Tokens("") == []
  {
  }

  lemma LexOpens(rest: string)
    ensures Tokens(['{'] + rest) == [OPENS] + Tokens(rest)
  {
    hide Tokens;
    LexBracket('{', rest);
  }

  lemma LexStray(rest: string)
    ensures Tokens([')'] + rest) == [RIGHT] + Tokens(rest)
  {
    hide Tokens;
    LexBracket(')', rest);
  }

  lemma LexCloses(rest: string)
    ensures Tokens(['}'] + rest) == [CLOSES] + Tokens(rest)
  {
    hide Tokens;
    LexBracket('}', rest);
  }

  lemma LexBracket(c: char, rest: string)
    requires c in {'{', ')', '}'}
    ensures Tokens([c] + rest) == [Lexeme(SingleKind(c), [c])] + Tokens(rest)
  {
    hide Scan, SingleKind;
    var s := [c] + rest;
    ScanBracket(s);
    assert Gap(s) == 0 && s[0..] == s && s[1..] == rest && s[..1] == [c];
  }

  lemma ScanBracket(s: string)
    requires s != "" && s[0] in {'{', ')', '}'}
    ensures Scan(s) == (Lexeme(SingleKind(s[0]), s[..1]), 1)
  {
    hide SingleKind;
  }
}
