/** The PolskiScript parser (kernel/lang/polskiscript.c), proved to compute the functions of
    Syntax.dfy on the tokens that the lexer has yet to give.  Tree nodes are values here. */
module Parser {
  import opened Common
  import opened Lexer
  import opened Syntax

  method ReadInt(v: string) returns (val: int)
    ensures val == IntValue(v)
  {
    val := 0;
    for i := 0 to |v|
      invariant val == IntValue(v[..i])
    {
      assert v[..i + 1][..i] == v[..i];
      val := val * 10 + DigitOf(v[i]);
    }
    assert v[..|v|] == v;
  }

  method ReadFloat(v: string) returns (val: real)
    ensures val == FloatReading(v).val
  {
    val := 0.0;
    var frac, after := 0.1, false;
    for i := 0 to |v|
      invariant Reading(val, frac, after) == FloatReading(v[..i])
    {
      assert v[..i + 1][..i] == v[..i];
      if v[i] == '.' {
        after := true;
      } else if after {
        val := val + DigitOf(v[i]) as real * frac;
        frac := frac * 0.1;
      } else {
        val := val * 10.0 + DigitOf(v[i]) as real;
      }
    }
    assert v[..|v|] == v;
  }

  method ReadNumber(v: string) returns (node: Node)
    ensures node == Literal(v)
  {
    var isFloat, i := false, 0;
    while i < |v| && !isFloat
      invariant i <= |v| && isFloat == ('.' in v[..i])
      decreases |v| - i, !isFloat
    {
      assert v[..i + 1] == v[..i] + [v[i]];
      isFloat := v[i] == '.';
      i := i + 1;
    }
    assert i == |v| ==> v[..i] == v;
    if isFloat {
      var val := ReadFloat(v);
      node := Bare(AstLiteralFloat, "", []).(frac := val);
    } else {
      var val := ReadInt(v);
      node := Bare(AstLiteralInt, "", []).(num := val);
    }
  }

  class Parser {
    const lexer: Lexer
    var current: Token
    var status: Status

    constructor (lexer: Lexer)
      requires lexer.Valid()
      modifies lexer
      ensures this.lexer == lexer && Valid() && Ahead() == State(Tokens(old(lexer.Rest())), Fine)
    {
      hide Scan, Gap, IsPosition, Tokens;
      this.lexer := lexer;
      status := Fine;
      new;
      current := lexer.NextToken();
      TokensAhead(old(lexer.Rest()), current.lexeme, lexer.Rest());
    }

    ghost predicate Valid()
      reads this, lexer
    {
      lexer.Valid() && (current.lexeme.kind == Koniec ==> lexer.Rest() == "")
    }

    /** The tokens from the current one on. */
    ghost function Ahead(): (s: State)
      requires Valid()
      reads this, lexer
      ensures Head(s).kind == current.lexeme.kind &&
              (s.ts != [] || current.lexeme.kind != Koniec ==> Head(s) == current.lexeme) && s.status == status
    {
      State(if current.lexeme.kind == Koniec then [] else [current.lexeme] + Tokens(lexer.Rest()), status)
    }

    method Advance()
      requires Valid()
      modifies this, lexer
      ensures Valid() && Ahead() == Next(old(Ahead()))
      ensures old(current.lexeme.kind) != Koniec ==> |Ahead().ts| < |old(Ahead()).ts|
    {
      hide Scan, Gap, IsPosition, Tokens;
      ghost var r := lexer.Rest();
      current := lexer.NextToken();
      TokensAhead(r, current.lexeme, lexer.Rest());
      assert old(Ahead()).ts != [] ==> old(Ahead()).ts[1..] == Tokens(r);
    }

    method Expect(kind: Kind) returns (ok: bool)
      requires Valid()
      modifies this, lexer
      ensures Valid() && Ahead() == Syntax.Expect(kind, old(Ahead()))
    {
      hide Valid, Ahead, Next;
      if current.lexeme.kind != kind {
        Mark(Error);
        return false;
      }
      Advance();
      return true;
    }

    /** parser_parse_unary at level 4, and below it parser_parse_factor, _term, _comparison and
        _logical, which are the same loop over other operators. */
    method Binary(k: nat) returns (left: Option<Node>)
      requires Valid() && k <= 4
      modifies this, lexer
      ensures Valid() && Parsed(left, Ahead()) == Level(k, old(Ahead()))
      decreases |Ahead().ts|, 2 * (4 - k) + 2
    {
      hide Valid, Ahead, Next, Head, Level, Chain, IsOperator, Syntax.Unary;
      LevelUnfold(k, Ahead());
      if k == 4 {
        left := Unary();
        return;
      }
      left := Binary(k + 1);
      ghost var size := |Ahead().ts|;
      while IsOperator(k, current.lexeme.kind)
        invariant Valid() && |Ahead().ts| <= size <= |old(Ahead()).ts|
        invariant Chain(k, left, Ahead()) == Level(k, old(Ahead()))
        decreases |Ahead().ts|
      {
        var op := current.lexeme;
        ChainUnfold(k, left, Ahead());
        Advance();
        var right := Binary(k + 1);
        left := Some(Bare(AstBinaryOp, op.value, Add(Add([], left), right)));
      }
      ChainUnfold(k, left, Ahead());
    }

    method Unary() returns (node: Option<Node>)
      requires Valid()
      modifies this, lexer
      ensures Valid() && Parsed(node, Ahead()) == Syntax.Unary(old(Ahead()))
      decreases |Ahead().ts|, 1
    {
      hide Valid, Ahead, Next, Head, Syntax.Primary;
      if current.lexeme.kind in {Minus, Nie} {
        var op := current.lexeme;
        Advance();
        var operand := Unary();
        node := Some(Bare(AstUnaryOp, op.value, Add([], operand)));
      } else {
        node := Primary();
      }
    }

    method Primary() returns (node: Option<Node>)
      requires Valid()
      modifies this, lexer
      ensures Valid() && Parsed(node, Ahead()) == Syntax.Primary(old(Ahead()))
      decreases |Ahead().ts|, 0
    {
      hide Valid, Ahead, Next, Head, Literal, Level, Syntax.Arguments, Syntax.Expect;
      var tok := current.lexeme;
      match tok.kind
      case Liczba =>
        var n := ReadNumber(tok.value);
        node := Some(n);
        Advance();
      case Tekst =>
        node := Some(Bare(AstLiteralString, tok.value, []));
        Advance();
      case Prawda =>
        node := Some(Bare(AstLiteralBool, "", []).(flag := true));
        Advance();
      case Falsz =>
        node := Some(Bare(AstLiteralBool, "", []));
        Advance();
      case Nic =>
        node := Some(Bare(AstLiteralNull, "", []));
        Advance();
      case Identyfikator =>
        var name := Bare(AstIdentifier, tok.value, []);
        Advance();
        if current.lexeme.kind == NawiasLewy {
          Advance();
          var nodes := Arguments([name]);
          var _ := Expect(NawiasPrawy);
          node := Some(Bare(AstCall, "", nodes));
        } else {
          node := Some(name);
        }
      case NawiasLewy =>
        Advance();
        node := Binary(0);
        var _ := Expect(NawiasPrawy);
      case _ =>
        node := None;
    }

    /** The loop over the arguments of a call or of drukuj. */
    method Arguments(nodes: seq<Node>) returns (all: seq<Node>)
      requires Valid()
      modifies this, lexer
      ensures Valid() && ParsedMany(all, Ahead()) == Syntax.Arguments(nodes, old(Ahead()))
      decreases |Ahead().ts|, 12
    {
      hide Valid, Ahead, Next, Head, Level, ArgumentLoop;
      all := nodes;
      if current.lexeme.kind == NawiasPrawy {
        return;
      }
      ghost var size := |Ahead().ts|;
      while true
        invariant Valid() && |Ahead().ts| <= size
        invariant ArgumentLoop(all, Ahead()) == Syntax.Arguments(nodes, old(Ahead()))
        decreases |Ahead().ts|
      {
        ArgumentUnfold(all, Ahead());
        if current.lexeme.kind == Przecinek {
          Advance();
        }
        var arg := Binary(0);
        all := Add(all, arg);
        if current.lexeme.kind != Przecinek {
          break;
        }
      }
    }

    method Mark(status: Status)
      requires Valid()
      modifies this
      ensures Valid() && Ahead() == old(Ahead()).(status := status)
    {
      hide Tokens, IsPosition;
      this.status := status;
    }

    /** The semicolon after `node`. */
    method Terminate(node: Node) returns (r: Option<Node>)
      requires Valid()
      modifies this, lexer
      ensures Valid() && Parsed(r, Ahead()) == Terminated(node, old(Ahead()))
    {
      hide Valid, Ahead, Syntax.Expect;
      var _ := Expect(Srednik);
      r := Some(node);
    }

    /** parser_parse_statement; each kind of statement with a part of its own has a method. */
    method Statement() returns (node: Option<Node>)
      requires Valid()
      modifies this, lexer
      ensures Valid() && Parsed(node, Ahead()) == Syntax.Statement(old(Ahead()))
      decreases |Ahead().ts|, 1
    {
      hide Valid, Ahead, Next, Head, Terminated, Syntax.Declaration, Syntax.Printing, Syntax.Conditional,
        Syntax.Looping,
           Syntax.Returning, Syntax.Assignment, Syntax.Block;
      match current.lexeme.kind
      case Zmienna =>
        Advance();
        node := Declaration();
      case Drukuj =>
        Advance();
        node := Printing();
      case Jesli =>
        Advance();
        node := Conditional();
      case Dopoki =>
        Advance();
        node := Looping();
      case Zwroc =>
        Advance();
        node := Returning();
      case Przerwij =>
        Advance();
        node := Terminate(Bare(AstBreak, "", []));
      case Kontynuuj =>
        Advance();
        node := Terminate(Bare(AstContinue, "", []));
      case Identyfikator =>
        var name := current.lexeme.value;
        Advance();
        node := Assignment(name);
      case KlamraLewa =>
        node := Block();
      case _ =>
        node := None;
    }

    method Declaration() returns (node: Option<Node>)
      requires Valid()
      modifies this, lexer
      ensures Valid() && Parsed(node, Ahead()) == Syntax.Declaration(old(Ahead()))
    {
      hide Valid, Ahead, Next, Head, Terminated, Level;
      if current.lexeme.kind != Identyfikator {
        Mark(Error);
        return None;
      }
      var name, kids := current.lexeme.value, [];
      Advance();
      if current.lexeme.kind == Przypisanie {
        Advance();
        var expr := Binary(0);
        kids := Add(kids, expr);
      }
      node := Terminate(Bare(AstVarDecl, name, kids));
    }

    method Printing() returns (node: Option<Node>)
      requires Valid()
      modifies this, lexer
      ensures Valid() && Parsed(node, Ahead()) == Syntax.Printing(old(Ahead()))
    {
      hide Valid, Ahead, Next, Head, Terminated, Syntax.Expect, Syntax.Arguments;
      var _ := Expect(NawiasLewy);
      var nodes := Arguments([]);
      var _ := Expect(NawiasPrawy);
      node := Terminate(Bare(AstPrint, "", nodes));
    }

    method Returning() returns (node: Option<Node>)
      requires Valid()
      modifies this, lexer
      ensures Valid() && Parsed(node, Ahead()) == Syntax.Returning(old(Ahead()))
    {
      hide Valid, Ahead, Next, Head, Terminated, Level;
      var kids := [];
      if current.lexeme.kind != Srednik {
        var expr := Binary(0);
        kids := Add(kids, expr);
      }
      node := Terminate(Bare(AstReturn, "", kids));
    }

    /** Where the source would rewind the lexer to read an expression statement, this stops. */
    method Assignment(name: string) returns (node: Option<Node>)
      requires Valid()
      modifies this, lexer
      ensures Valid() && Parsed(node, Ahead()) == Syntax.Assignment(name, old(Ahead()))
    {
      hide Valid, Ahead, Next, Head, Terminated, Level;
      if current.lexeme.kind != Przypisanie {
        Mark(Rewinds);
        return None;
      }
      Advance();
      var expr := Binary(0);
      node := Terminate(Bare(AstAssign, name, Add([], expr)));
    }

    method Condition() returns (node: Option<Node>)
      requires Valid()
      modifies this, lexer
      ensures Valid() && Parsed(node, Ahead()) == Syntax.Condition(old(Ahead()))
    {
      hide Valid, Ahead, Syntax.Expect, Level;
      var _ := Expect(NawiasLewy);
      node := Binary(0);
      var _ := Expect(NawiasPrawy);
    }

    method Conditional() returns (node: Option<Node>)
      requires Valid()
      modifies this, lexer
      ensures Valid() && Parsed(node, Ahead()) == Syntax.Conditional(old(Ahead()))
      decreases |Ahead().ts|, 4
    {
      hide Valid, Ahead, Next, Head, Syntax.Condition, Syntax.Block;
      var cond := Condition();
      var thenBlock := Block();
      var kids := Add(Add([], cond), thenBlock);
      if !Over(status) && current.lexeme.kind == Inaczej {
        Advance();
        var elseBlock := Block();
        kids := Add(kids, elseBlock);
      }
      node := Some(Bare(AstIf, "", kids));
    }

    method Looping() returns (node: Option<Node>)
      requires Valid()
      modifies this, lexer
      ensures Valid() && Parsed(node, Ahead()) == Syntax.Looping(old(Ahead()))
      decreases |Ahead().ts|, 4
    {
      hide Valid, Ahead, Next, Head, Syntax.Condition, Syntax.Block;
      var cond := Condition();
      var body := Block();
      node := Some(Bare(AstWhile, "", Add(Add([], cond), body)));
    }

    /** Stops with `Spins` where the source's loop meets the same token forever. */
    method Block() returns (node: Option<Node>)
      requires Valid()
      modifies this, lexer
      ensures Valid() && Parsed(node, Ahead()) == Syntax.Block(old(Ahead()))
      decreases |Ahead().ts|, if Head(Ahead()).kind == KlamraLewa then 0 else 3
    {
      hide Valid, Ahead, Next, Head, Items, Syntax.Statement, Starts, Syntax.Expect;
      BlockUnfold(Ahead());
      var _ := Expect(KlamraLewa);
      ghost var s := Ahead();
      var nodes := [];
      while current.lexeme.kind != KlamraPrawa && current.lexeme.kind != Koniec
        invariant Valid() && |Ahead().ts| <= |s.ts|
        invariant Items(nodes, Ahead()) == Items([], s)
        decreases |Ahead().ts|
      {
        var starts := Starts(current.lexeme.kind);
        ItemsUnfold(nodes, Ahead());
        var stmt := Statement();
        nodes := Add(nodes, stmt);
        if status == Fine && !starts {
          Mark(Spins);
        }
        if status != Fine {
          assert ParsedMany(nodes, Ahead()) == Items([], s);
          break;
        }
      }
      ItemsUnfold(nodes, Ahead());
      node := Some(Bare(AstBlock, "", nodes));
      if !Over(status) {
        var _ := Expect(KlamraPrawa);
      }
    }

    /** parser_parse_program: no tree when there is an error. */
    method Program() returns (node: Option<Node>)
      requires Valid() && status == Fine
      modifies this, lexer
      ensures Valid() && Parsed(node, Ahead()) == Syntax.Program([], old(Ahead()))
    {
      hide Valid, Ahead, Next, Head, Syntax.Program, Syntax.Statement, Starts;
      var nodes := [];
      while current.lexeme.kind != Koniec
        invariant Valid() && status == Fine && Syntax.Program(nodes, Ahead()) == Syntax.Program([], old(Ahead()))
        decreases |Ahead().ts|
      {
        var starts := Starts(current.lexeme.kind);
        ProgramUnfold(nodes, Ahead());
        var stmt := Statement();
        nodes := Add(nodes, stmt);
        if status == Fine && !starts {
          Mark(Spins);
        }
        if status != Fine {
          return None;
        }
      }
      ProgramUnfold(nodes, Ahead());
      node := Some(Bare(AstProgram, "", nodes));
    }
  }

  /** Lexing and parsing a whole source, as interpreter_execute starts. */
  method ParseSource(source: string) returns (node: Option<Node>, status: Status)
    requires '\0' !in source
    ensures var p := Syntax.Program([], State(Tokens(source), Fine));
            node == p.node && status == p.st.status
  {
    hide Tokens, Syntax.Program;
    var lexer := new Lexer(source);
    assert lexer.Rest() == source;
    var parser := new Parser(lexer);
    node := parser.Program();
    status := parser.status;
  }

  lemma BlockUnfold(s: State)
    ensures var s1 := Syntax.Expect(KlamraLewa, s);
            var p := Items([], s1);
            && Syntax.Block(s) ==
               Parsed(Some(Bare(AstBlock, "", p.nodes)),
                      if Over(p.st.status) then p.st else Syntax.Expect(KlamraPrawa, p.st))
            && |s1.ts| <= |s.ts| && (Head(s).kind == KlamraLewa ==> |s1.ts| < |s.ts|)
  {
    hide Items;
  }

  lemma ItemsUnfold(nodes: seq<Node>, s: State)
    ensures Items(nodes, s) ==
            if Head(s).kind == KlamraPrawa || Head(s).kind == Koniec then ParsedMany(nodes, s)
            else
              var p := Syntax.Statement(s);
              if p.st.status != Fine then ParsedMany(Add(nodes, p.node), p.st)
              else if !Starts(Head(s).kind) then ParsedMany(nodes, s.(status := Spins))
              else Items(Add(nodes, p.node), p.st)
    ensures var p := Syntax.Statement(s);
            if Starts(Head(s).kind) then |p.st.ts| < |s.ts| else p == Parsed(None, s)
  {
    hide Syntax.Statement;
  }

  lemma ProgramUnfold(nodes: seq<Node>, s: State)
    requires s.status == Fine
    ensures Syntax.Program(nodes, s) ==
            if Head(s).kind == Koniec then Parsed(Some(Bare(AstProgram, "", nodes)), s)
            else
              var p := Syntax.Statement(s);
              if p.st.status != Fine then Parsed(None, p.st)
              else if !Starts(Head(s).kind) then Parsed(None, s.(status := Spins))
              else Syntax.Program(Add(nodes, p.node), p.st)
    ensures var p := Syntax.Statement(s);
            if Starts(Head(s).kind) then |p.st.ts| < |s.ts| else p == Parsed(None, s)
  {
    hide Syntax.Statement;
  }

  lemma ArgumentUnfold(nodes: seq<Node>, s: State)
    ensures var s1 := if Head(s).kind == Przecinek then Next(s) else s;
            var p := Level(0, s1);
            && ArgumentLoop(nodes, s) ==
               (if Head(p.st).kind == Przecinek then ArgumentLoop(Add(nodes, p.node), p.st)
                 else ParsedMany(Add(nodes, p.node), p.st))
            && |p.st.ts| <= |s1.ts| <= |s.ts|
            && (Head(p.st).kind == Przecinek ==> |p.st.ts| < |s.ts|)
  {
    hide Level;
  }

  lemma LevelUnfold(k: nat, s: State)
    requires k <= 4
    ensures Level(k, s) == if k == 4 then Syntax.Unary(s) else Chain(k, Level(k + 1, s).node, Level(k + 1, s).st)
    ensures k < 4 ==> |Level(k + 1, s).st.ts| <= |s.ts|
  {
    hide Syntax.Unary, Chain;
  }

  lemma ChainUnfold(k: nat, left: Option<Node>, s: State)
    requires k < 4
    ensures Chain(k, left, s) ==
            if !IsOperator(k, Head(s).kind) then Parsed(left, s)
            else
              var p := Level(k + 1, Next(s));
              Chain(k, Some(Bare(AstBinaryOp, Head(s).value, Add(Add([], left), p.node))), p.st)
    ensures IsOperator(k, Head(s).kind) ==>
            Head(s).kind != Koniec && s.ts != [] && |Level(k + 1, Next(s)).st.ts| < |s.ts|
  {
    hide Level;
  }

  /** What the lexer's next token and rest `after` say about the tokens of `s`. */
  lemma TokensAhead(s: string, t: Lexeme, after: string)
    requires var g := Gap(s); t == Scan(s[g..]).0 && after == s[g + Scan(s[g..]).1..]
    ensures if t.kind == Koniec then Tokens(s) == [] && after == "" else Tokens(s) == [t] + Tokens(after)
  {
    hide Gap, Scan;
  }
}
