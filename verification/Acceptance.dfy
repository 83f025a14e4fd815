/** What parser_parse_program accepts derives from the grammar (kernel/lang/polskiscript.c). */
module Acceptance {
  import opened Common
  import opened Lexer
  import opened Syntax
  import opened Grammar

  /** If the parser is without an error in `s1`, it was in `s`, and has read `used` in between. */
  predicate Reads(s: State, used: Lexemes, s1: State) {
    s1.status == Fine ==> s.status == Fine && s.ts == used + s1.ts
  }

  lemma ReadsStep(s: State, a: Lexemes, s1: State, b: Lexemes, s2: State)
    requires Reads(s, a, s1) && Reads(s1, b, s2)
    ensures Reads(s, a + b, s2)
  {
    if s2.status == Fine {
      assert a + b + s2.ts == a + (b + s2.ts);
    }
  }

  lemma ReadsNone(s: State)
    ensures Reads(s, [], s)
  {
    assert [] + s.ts == s.ts;
  }

  lemma ReadsHead(s: State)
    requires Head(s).kind != Koniec
    ensures Reads(s, [Head(s)], Next(s))
  {
  }

  /** The parser goes on without an error only over the token it expects. */
  lemma ReadsExpected(kind: Kind, s: State) returns (t: Lexeme)
    requires kind != Koniec
    ensures Reads(s, [t], Expect(kind, s)) && (Expect(kind, s).status == Fine ==> t.kind == kind && t == Head(s))
  {
    t := Head(s);
    if Head(s).kind == kind {
      ReadsHead(s);
    }
  }

  // ----- Expressions -----

  lemma {:induction false} LevelSound(k: nat, s: State) returns (used: Lexemes)
    requires k <= 4
    ensures var s1 := Level(k, s).st; Reads(s, used, s1) && (s1.status == Fine ==> IsExpr(used, k))
    decreases |s.ts|, 2 * (4 - k) + 3
  {
    hide Unary, Chain, IsExpr, Reads;
    if k == 4 {
      used := UnarySound(s);
    } else {
      var p := Level(k + 1, s);
      var a := LevelSound(k + 1, s);
      if p.st.status == Fine {
        Lift(a, k + 1, k);
      }
      var b := ChainSound(k, p.node, p.st, a);
      ReadsStep(s, a, p.st, b, Chain(k, p.node, p.st).st);
      used := a + b;
    }
  }

  lemma {:induction false} ChainSound(k: nat, left: Option<Node>, s: State, before: Lexemes) returns (used: Lexemes)
    requires k < 4 && (s.status == Fine ==> IsExpr(before, k))
    ensures var s1 := Chain(k, left, s).st; Reads(s, used, s1) && (s1.status == Fine ==> IsExpr(before + used, k))
    decreases |s.ts|, 2 * (4 - k) + 2
  {
    hide Level, IsExpr, IsOperator;
    if IsOperator(k, Head(s).kind) {
      OperatorKind(k, Head(s).kind);
      var t, s1 := Head(s), Next(s);
      var p := Level(k + 1, s1);
      ReadsHead(s);
      var a := LevelSound(k + 1, s1);
      if p.st.status == Fine {
        MakeInfix(before, t, a, k);
      }
      var node := Some(Bare(AstBinaryOp, t.value, Add(Add([], left), p.node)));
      var b := ChainSound(k, node, p.st, before + [t] + a);
      used := [t] + a + b;
      hide Reads, Chain;
      ChainUnfold(k, left, s);
      ReadsStep(s, [t], s1, a, p.st);
      ReadsStep(s, [t] + a, p.st, b, Chain(k, node, p.st).st);
      assert before + used == before + [t] + a + b;
    } else {
      used := [];
      ReadsNone(s);
      assert before + [] == before;
    }
  }

  lemma ChainUnfold(k: nat, left: Option<Node>, s: State)
    requires k < 4 && IsOperator(k, Head(s).kind)
    ensures var p := Level(k + 1, Next(s));
            Chain(k, left, s) == Chain(k, Some(Bare(AstBinaryOp, Head(s).value, Add(Add([], left), p.node))), p.st)
  {
    hide Level, IsOperator;
  }

  lemma OperatorKind(k: nat, kind: Kind)
    requires IsOperator(k, kind)
    ensures kind != Koniec
  {
  }

  lemma {:induction false} UnarySound(s: State) returns (used: Lexemes)
    ensures var s1 := Unary(s).st; Reads(s, used, s1) && (s1.status == Fine ==> IsExpr(used, 4))
    decreases |s.ts|, 2
  {
    hide Primary, IsExpr, Reads, IsPrimary;
    if Head(s).kind in {Minus, Nie} {
      var a := UnarySound(Next(s));
      ReadsHead(s);
      used := [Head(s)] + a;
      ReadsStep(s, [Head(s)], Next(s), a, Unary(Next(s)).st);
      if Unary(s).st.status == Fine {
        MakePrefix(Head(s), a);
      }
    } else {
      used := PrimarySound(s);
      if Unary(s).st.status == Fine {
        MakePrimary(used);
      }
    }
  }

  lemma {:induction false} PrimarySound(s: State) returns (used: Lexemes)
    ensures var s1 := Primary(s).st; Reads(s, used, s1) && (s1.status == Fine ==> IsPrimary(used))
    decreases |s.ts|, 1
  {
    hide Level, Arguments, IsExpr, IsArgs, Literal;
    var kind := Head(s).kind;
    if kind == Identyfikator && Head(Next(s)).kind == NawiasLewy {
      used := CallSound(s);
    } else if kind == NawiasLewy {
      used := ParensSound(s);
    } else if kind in {Liczba, Tekst, Prawda, Falsz, Nic, Identyfikator} {
      used := [Head(s)];
      ReadsHead(s);
    } else {
      used := [];
      ReadsNone(s);
    }
  }

  lemma {:induction false} ParensSound(s: State) returns (used: Lexemes)
    requires Head(s).kind == NawiasLewy
    ensures var s1 := Primary(s).st; Reads(s, used, s1) && (s1.status == Fine ==> IsPrimary(used))
    decreases |s.ts|, 0
  {
    var s1 := Next(s);
    var p := Level(0, s1);
    assert Primary(s).st == Expect(NawiasPrawy, p.st);
    hide Level, IsExpr, IsPrimary, Reads, Primary, Expect;
    ReadsHead(s);
    var a := LevelSound(0, s1);
    var c := ReadsExpected(NawiasPrawy, p.st);
    used := [Head(s)] + a + [c];
    ReadsStep(s, [Head(s)], s1, a, p.st);
    ReadsStep(s, [Head(s)] + a, p.st, [c], Primary(s).st);
    if Primary(s).st.status == Fine {
      FineBefore(p.st, [c], Primary(s).st);
      MakeParens(Head(s), a, c);
    }
  }

  lemma FineBefore(s: State, used: Lexemes, s1: State)
    requires Reads(s, used, s1) && s1.status == Fine
    ensures s.status == Fine
  {
  }

  lemma {:induction false} CallSound(s: State) returns (used: Lexemes)
    requires Head(s).kind == Identyfikator && Head(Next(s)).kind == NawiasLewy
    ensures var s1 := Primary(s).st; Reads(s, used, s1) && (s1.status == Fine ==> IsPrimary(used))
    decreases |s.ts|, 0
  {
    var s1, s2 := Next(s), Next(Next(s));
    var name := Bare(AstIdentifier, Head(s).value, []);
    var p := Arguments([name], s2);
    assert Primary(s).st == Expect(NawiasPrawy, p.st);
    hide Arguments, IsArgs, IsPrimary, Reads, Primary, Expect;
    ReadsHead(s);
    ReadsHead(s1);
    var a := ArgumentsSound([name], s2);
    var c := ReadsExpected(NawiasPrawy, p.st);
    ReadsStep(s, [Head(s)], s1, [Head(s1)], s2);
    assert [Head(s)] + [Head(s1)] == [Head(s), Head(s1)];
    used := [Head(s), Head(s1)] + a + [c];
    ReadsStep(s, [Head(s), Head(s1)], s2, a, p.st);
    ReadsStep(s, [Head(s), Head(s1)] + a, p.st, [c], Primary(s).st);
    if Primary(s).st.status == Fine {
      FineBefore(p.st, [c], Primary(s).st);
      MakeCall(Head(s), Head(s1), a, c);
    }
  }

  lemma {:induction false} ArgumentsSound(nodes: seq<Node>, s: State) returns (used: Lexemes)
    ensures var s1 := Arguments(nodes, s).st; Reads(s, used, s1) && (s1.status == Fine ==> IsArgs(used))
    decreases |s.ts|, 13
  {
    hide ArgumentLoop, IsList, Reads;
    if Head(s).kind == NawiasPrawy {
      used := [];
      ReadsNone(s);
    } else {
      var comma, list := LoopSound(nodes, s);
      used := comma + list;
      assert comma == [] ==> used == list;
      assert |comma| == 1 ==> used[1..] == list;
    }
  }

  /** The argument loop reads a list, after a comma if there is one. */
  lemma {:induction false} LoopSound(nodes: seq<Node>, s: State) returns (comma: Lexemes, list: Lexemes)
    ensures var s1 := ArgumentLoop(nodes, s).st;
            Reads(s, comma + list, s1) && (s1.status == Fine ==> IsList(list))
    ensures if Head(s).kind == Przecinek then comma == [Head(s)] else comma == []
    decreases |s.ts|, 12
  {
    var s1 := if Head(s).kind == Przecinek then Next(s) else s;
    var p := Level(0, s1);
    var more := Add(nodes, p.node);
    LoopUnfold(nodes, s);
    hide Level, ArgumentLoop, IsExpr, Reads, IsList, Head, Next, Add;
    comma := if Head(s).kind == Przecinek then [Head(s)] else [];
    if Head(s).kind == Przecinek {
      ReadsHead(s);
    } else {
      ReadsNone(s);
    }
    var a := LevelSound(0, s1);
    ReadsStep(s, comma, s1, a, p.st);
    if Head(p.st).kind == Przecinek {
      var again, rest := LoopSound(more, p.st);
      var end := ArgumentLoop(more, p.st).st;
      ReadsStep(s, comma + a, p.st, again + rest, end);
      list := a + again + rest;
      assert comma + a + (again + rest) == comma + list;
      if end.status == Fine {
        FineBefore(p.st, again + rest, end);
        MakeList(a, again[0], rest);
      }
    } else {
      list := a;
      if p.st.status == Fine {
        OneInList(a);
      }
    }
  }

  lemma OneInList(a: Lexemes)
    requires IsExpr(a, 0)
    ensures IsList(a)
  {
  }

  lemma LoopUnfold(nodes: seq<Node>, s: State)
    ensures var s1 := if Head(s).kind == Przecinek then Next(s) else s;
            var p := Level(0, s1);
            && |s1.ts| <= |s.ts| && |p.st.ts| <= |s1.ts|
            && (Head(p.st).kind == Przecinek && p.st.ts == s.ts ==> s1.ts != s.ts)
            && ArgumentLoop(nodes, s) ==
               if Head(p.st).kind == Przecinek then ArgumentLoop(Add(nodes, p.node), p.st)
               else ParsedMany(Add(nodes, p.node), p.st)
  {
    hide Level;
  }

  // ----- Statements -----

  lemma ThenExpect(s: State, used: Lexemes, s1: State, kind: Kind) returns (t: Lexeme)
    requires kind != Koniec && Reads(s, used, s1)
    ensures Reads(s, used + [t], Expect(kind, s1))
    ensures Expect(kind, s1).status == Fine ==> t.kind == kind && s1.status == Fine
  {
    hide Expect, Reads;
    t := ReadsExpected(kind, s1);
    ReadsStep(s, used, s1, [t], Expect(kind, s1));
    if Expect(kind, s1).status == Fine {
      FineBefore(s1, [t], Expect(kind, s1));
    }
  }

  lemma ThenLevel(s: State, used: Lexemes, s1: State) returns (a: Lexemes)
    requires Reads(s, used, s1)
    ensures Reads(s, used + a, Level(0, s1).st)
    ensures Level(0, s1).st.status == Fine ==> IsExpr(a, 0) && s1.status == Fine
  {
    hide Level, Reads, IsExpr;
    a := LevelSound(0, s1);
    ReadsStep(s, used, s1, a, Level(0, s1).st);
    if Level(0, s1).st.status == Fine {
      FineBefore(s1, a, Level(0, s1).st);
    }
  }

  lemma JumpSound(t: Lexeme, node: Node, s: State) returns (used: Lexemes)
    requires t.kind == Przerwij || t.kind == Kontynuuj
    ensures var s1 := Terminated(node, s).st; Reads(s, used, s1) && (s1.status == Fine ==> IsStmt([t] + used))
  {
    hide Reads, IsStmt, Expect;
    ReadsNone(s);
    var e := ThenExpect(s, [], s, Srednik);
    used := [] + [e];
    if Terminated(node, s).st.status == Fine {
      MakeJump(t, e);
      assert [t] + used == [t, e];
    }
  }

  lemma ReturnSound(t: Lexeme, s: State) returns (used: Lexemes)
    requires t.kind == Zwroc
    ensures var s1 := Returning(s).st; Reads(s, used, s1) && (s1.status == Fine ==> IsStmt([t] + used))
  {
    hide Reads, IsStmt, Expect, Level, IsExpr;
    ReadsNone(s);
    var a, s1 := [], s;
    if Head(s).kind == Srednik {
      Nothing(0);
    } else {
      a := ThenLevel(s, [], s);
      s1 := Level(0, s).st;
    }
    assert [] + a == a;
    var e := ThenExpect(s, a, s1, Srednik);
    used := a + [e];
    if Returning(s).st.status == Fine {
      MakeReturn(t, a, e);
      assert [t] + used == [t] + a + [e];
    }
  }

  lemma PrintSound(t: Lexeme, s: State) returns (used: Lexemes)
    requires t.kind == Drukuj
    ensures var s1 := Printing(s).st; Reads(s, used, s1) && (s1.status == Fine ==> IsStmt([t] + used))
  {
    hide Reads, IsStmt, Expect, Arguments, IsArgs;
    var s1 := Expect(NawiasLewy, s);
    var s2 := Arguments([], s1).st;
    var s3 := Expect(NawiasPrawy, s2);
    ReadsNone(s);
    var o := ThenExpect(s, [], s, NawiasLewy);
    assert [] + [o] == [o];
    var a := ArgumentsSound([], s1);
    ReadsStep(s, [o], s1, a, s2);
    var c := ThenExpect(s, [o] + a, s2, NawiasPrawy);
    var e := ThenExpect(s, [o] + a + [c], s3, Srednik);
    used := [o] + a + [c] + [e];
    if Printing(s).st.status == Fine {
      FineBefore(s1, a, s2);
      MakePrint(t, o, a, c, e);
      assert [t] + used == [t, o] + a + [c, e];
    }
  }

  lemma DeclareSound(t: Lexeme, s: State) returns (used: Lexemes)
    requires t.kind == Zmienna
    ensures var s1 := Declaration(s).st; Reads(s, used, s1) && (s1.status == Fine ==> IsStmt([t] + used))
  {
    DeclarationUnfold(s);
    hide Reads, IsStmt, Level, IsExpr, Expect, Declaration, Head, Next;
    used := [];
    if Head(s).kind != Identyfikator {
      ReadsError(s, Error);
    } else {
      var x, s1 := Head(s), Next(s);
      ReadsHead(s);
      if Head(s1).kind == Przypisanie {
        used := DefineSound(t, s);
      } else {
        var e := ThenExpect(s, [x], s1, Srednik);
        used := [x] + [e];
        if Declaration(s).st.status == Fine {
          MakeDeclare(t, x, e);
          assert [t] + used == [t, x, e];
        }
      }
    }
  }

  lemma DefineSound(t: Lexeme, s: State) returns (used: Lexemes)
    requires t.kind == Zmienna && Head(s).kind == Identyfikator && Head(Next(s)).kind == Przypisanie
    ensures var s1 := Declaration(s).st; Reads(s, used, s1) && (s1.status == Fine ==> IsStmt([t] + used))
  {
    DeclarationUnfold(s);
    hide Reads, IsStmt, Level, IsExpr, Expect, Declaration, Head, Next;
    var x, s1 := Head(s), Next(s);
    var q, s2 := Head(s1), Next(s1);
    ReadsHead(s);
    ReadsHead(s1);
    ReadsStep(s, [x], s1, [q], s2);
    assert [x] + [q] == [x, q];
    var a := ThenLevel(s, [x, q], s2);
    var e := ThenExpect(s, [x, q] + a, Level(0, s2).st, Srednik);
    used := [x, q] + a + [e];
    if Declaration(s).st.status == Fine {
      MakeDefine(t, x, q, a, e);
      assert [t] + used == [t, x, q] + a + [e];
    }
  }

  lemma DeclarationUnfold(s: State)
    ensures Declaration(s).st ==
            if Head(s).kind != Identyfikator then s.(status := Error)
            else if Head(Next(s)).kind == Przypisanie then Expect(Srednik, Level(0, Next(Next(s))).st)
            else Expect(Srednik, Next(s))
  {
    hide Level, Expect;
  }

  lemma ReadsError(s: State, status: Status)
    requires status != Fine
    ensures Reads(s, [], s.(status := status))
  {
  }

  lemma AssignSound(x: Lexeme, name: string, s: State) returns (used: Lexemes)
    requires x.kind == Identyfikator
    ensures var s1 := Assignment(name, s).st; Reads(s, used, s1) && (s1.status == Fine ==> IsStmt([x] + used))
  {
    hide Reads, IsStmt, Level, IsExpr, Expect;
    used := [];
    if Head(s).kind == Przypisanie {
      var q := Head(s);
      ReadsHead(s);
      var a := ThenLevel(s, [q], Next(s));
      var e := ThenExpect(s, [q] + a, Level(0, Next(s)).st, Srednik);
      used := [q] + a + [e];
      if Assignment(name, s).st.status == Fine {
        MakeAssign(x, q, a, e);
        assert [x] + used == [x, q] + a + [e];
      }
    } else {
      ReadsError(s, Rewinds);
    }
  }

  /** The parenthesised condition of `jesli` and `dopoki`. */
  ghost predicate IsGuard(ts: Lexemes) {
    |ts| >= 2 && ts[0].kind == NawiasLewy && ts[|ts| - 1].kind == NawiasPrawy && IsExpr(ts[1..|ts| - 1], 0)
  }

  lemma ConditionSound(s: State) returns (guard: Lexemes)
    ensures var s1 := Condition(s).st; Reads(s, guard, s1) && (s1.status == Fine ==> IsGuard(guard))
  {
    hide Reads, Level, IsExpr, Expect;
    var s1 := Expect(NawiasLewy, s);
    ReadsNone(s);
    var o := ThenExpect(s, [], s, NawiasLewy);
    assert [] + [o] == [o];
    var a := ThenLevel(s, [o], s1);
    var c := ThenExpect(s, [o] + a, Level(0, s1).st, NawiasPrawy);
    guard := [o] + a + [c];
    assert guard[1..|guard| - 1] == a;
  }

  lemma GuardedIf(t: Lexeme, guard: Lexemes, b: Lexemes)
    requires t.kind == Jesli && IsGuard(guard) && IsBranches(b)
    ensures IsStmt([t] + (guard + b))
  {
    hide IsExpr, IsBranches, IsStmt;
    var o, a, c := guard[0], guard[1..|guard| - 1], guard[|guard| - 1];
    MakeIf(t, o, a, c, b);
    assert guard == [o] + a + [c];
    assert [t] + (guard + b) == [t, o] + a + [c] + b;
  }

  lemma GuardedWhile(t: Lexeme, guard: Lexemes, b: Lexemes)
    requires t.kind == Dopoki && IsGuard(guard) && IsBlock(b)
    ensures IsStmt([t] + (guard + b))
  {
    hide IsExpr, IsBlock, IsStmt;
    var o, a, c := guard[0], guard[1..|guard| - 1], guard[|guard| - 1];
    MakeWhile(t, o, a, c, b);
    assert guard == [o] + a + [c];
    assert [t] + (guard + b) == [t, o] + a + [c] + b;
  }

  lemma {:induction false} BlockSound(s: State) returns (used: Lexemes)
    ensures var s1 := Block(s).st; Reads(s, used, s1) && (s1.status == Fine ==> IsBlock(used))
    decreases |s.ts|, if Head(s).kind == KlamraLewa then 0 else 3
  {
    BlockUnfold(s);
    hide Items, Expect, Reads, IsStmts, IsBlock, Block;
    var s1 := Expect(KlamraLewa, s);
    var s2 := Items([], s1).st;
    ReadsNone(s);
    var o := ThenExpect(s, [], s, KlamraLewa);
    assert [] + [o] == [o];
    var a := ItemsSound([], s1);
    ReadsStep(s, [o], s1, a, s2);
    if Over(s2.status) {
      used := [o] + a;
    } else {
      var c := ThenExpect(s, [o] + a, s2, KlamraPrawa);
      used := [o] + a + [c];
      if Block(s).st.status == Fine {
        FineBefore(s1, a, s2);
        MakeBlock(o, a, c);
      }
    }
  }

  lemma BlockUnfold(s: State)
    ensures var s1 := Expect(KlamraLewa, s);
            var p := Items([], s1);
            && Block(s).st == (if Over(p.st.status) then p.st else Expect(KlamraPrawa, p.st))
            && |s1.ts| <= |s.ts| && (Head(s).kind == KlamraLewa ==> |s1.ts| < |s.ts|)
  {
    hide Items;
  }

  lemma {:induction false} IfSound(t: Lexeme, s: State) returns (used: Lexemes)
    requires t.kind == Jesli
    ensures var s1 := Conditional(s).st; Reads(s, used, s1) && (s1.status == Fine ==> IsStmt([t] + used))
    decreases |s.ts|, 5
  {
    ConditionalUnfold(s);
    var c0 := Condition(s).st;
    hide Block, Condition, Reads, IsGuard, IsBranches, IsStmt, Conditional, Next;
    var guard := ConditionSound(s);
    var b := BranchesSound(c0);
    var end := Conditional(s).st;
    ReadsStep(s, guard, c0, b, end);
    used := guard + b;
    if end.status == Fine {
      FineBefore(c0, b, end);
      GuardedIf(t, guard, b);
    }
  }

  /** A block, and another one after `inaczej` if that comes next. */
  function BothBranches(s: State): State {
    var s1 := Block(s).st;
    if !Over(s1.status) && Head(s1).kind == Inaczej then Block(Next(s1)).st else s1
  }

  lemma {:induction false} BranchesSound(s: State) returns (used: Lexemes)
    ensures var s1 := BothBranches(s); Reads(s, used, s1) && (s1.status == Fine ==> IsBranches(used))
    decreases |s.ts|, 4
  {
    var s1 := Block(s).st;
    assert |s1.ts| <= |s.ts|;
    var s2 := Next(s1);
    hide Block, Reads, IsBlock, IsBranches;
    var b := BlockSound(s);
    used := b;
    if !Over(s1.status) && Head(s1).kind == Inaczej {
      var i, end := Head(s1), Block(s2).st;
      ReadsHead(s1);
      ReadsStep(s, b, s1, [i], s2);
      var f := BlockSound(s2);
      ReadsStep(s, b + [i], s2, f, end);
      used := b + [i] + f;
      if end.status == Fine {
        FineBefore(s2, f, end);
        FineBefore(s1, [i], s2);
        MakeBranches(b, i, f);
      }
    } else if s1.status == Fine {
      OneBranch(b);
    }
  }

  lemma OneBranch(b: Lexemes)
    requires IsBlock(b)
    ensures IsBranches(b)
  {
  }

  lemma ConditionalUnfold(s: State)
    ensures |Condition(s).st.ts| <= |s.ts| && Conditional(s).st == BothBranches(Condition(s).st)
  {
    hide Block, Condition;
  }

  lemma {:induction false} WhileSound(t: Lexeme, s: State) returns (used: Lexemes)
    requires t.kind == Dopoki
    ensures var s1 := Looping(s).st; Reads(s, used, s1) && (s1.status == Fine ==> IsStmt([t] + used))
    decreases |s.ts|, 4
  {
    var c0 := Condition(s).st;
    assert Looping(s).st == Block(c0).st;
    hide Block, Condition, Reads, IsBlock, IsStmt, IsGuard, Looping;
    var guard := ConditionSound(s);
    var b := BlockSound(c0);
    var end := Looping(s).st;
    ReadsStep(s, guard, c0, b, end);
    used := guard + b;
    if end.status == Fine {
      FineBefore(c0, b, end);
      GuardedWhile(t, guard, b);
    }
  }

  /** What a statement does after its first token. */
  lemma StatementUnfold(s: State)
    requires Starts(Head(s).kind)
    ensures var t, s1 := Head(s), Next(s);
            Statement(s).st ==
            if t.kind == Zmienna then Declaration(s1).st
            else if t.kind == Drukuj then Printing(s1).st
            else if t.kind == Jesli then Conditional(s1).st
            else if t.kind == Dopoki then Looping(s1).st
            else if t.kind == Zwroc then Returning(s1).st
            else if t.kind == Przerwij then Terminated(Bare(AstBreak, "", []), s1).st
            else if t.kind == Kontynuuj then Terminated(Bare(AstContinue, "", []), s1).st
            else if t.kind == Identyfikator then Assignment(t.value, s1).st
            else Block(s).st
  {
    hide Declaration, Printing, Conditional, Looping, Returning, Terminated, Assignment, Block;
  }

  lemma {:induction false} StatementSound(s: State) returns (used: Lexemes)
    requires Starts(Head(s).kind)
    ensures var s1 := Statement(s).st; Reads(s, used, s1) && (s1.status == Fine ==> used != [] && IsStmt(used))
    decreases |s.ts|, 1
  {
    StatementUnfold(s);
    var t, s1, end := Head(s), Next(s), Statement(s).st;
    assert |s1.ts| < |s.ts| && |end.ts| < |s.ts|;
    hide Declaration, Printing, Conditional, Looping, Returning, Terminated, Assignment, Block, Statement, Next,
      Reads, IsStmt, IsBlock;
    if t.kind == KlamraLewa {
      used := BlockSound(s);
      if end.status == Fine {
        BlockIsStmt(used);
      }
    } else {
      var rest;
      if t.kind == Zmienna {
        rest := DeclareSound(t, s1);
      } else if t.kind == Drukuj {
        rest := PrintSound(t, s1);
      } else if t.kind == Jesli {
        rest := IfSound(t, s1);
      } else if t.kind == Dopoki {
        rest := WhileSound(t, s1);
      } else if t.kind == Zwroc {
        rest := ReturnSound(t, s1);
      } else if t.kind == Przerwij {
        rest := JumpSound(t, Bare(AstBreak, "", []), s1);
      } else if t.kind == Kontynuuj {
        rest := JumpSound(t, Bare(AstContinue, "", []), s1);
      } else {
        rest := AssignSound(t, t.value, s1);
      }
      ReadsHead(s);
      ReadsStep(s, [t], s1, rest, end);
      used := [t] + rest;
    }
  }

  lemma BlockIsStmt(b: Lexemes)
    requires IsBlock(b)
    ensures b != [] && IsStmt(b)
  {
    hide IsStmts, IsSimple, IsExpr, IsBranches;
  }

  lemma {:induction false} ItemsSound(nodes: seq<Node>, s: State) returns (used: Lexemes)
    ensures var s1 := Items(nodes, s).st; Reads(s, used, s1) && (s1.status == Fine ==> IsStmts(used))
    decreases |s.ts|, 2
  {
    hide Statement, Reads, IsStmt, Items;
    ItemsUnfold(nodes, s);
    ReadsNone(s);
    used := [];
    if Head(s).kind != KlamraPrawa && Head(s).kind != Koniec {
      var p := Statement(s);
      if !Starts(Head(s).kind) {
        ReadsError(s, Spins);
        ReadsStray(s, Items(nodes, s).st);
      } else if p.st.status == Fine {
        var a := StatementSound(s);
        var more := Add(nodes, p.node);
        var b := ItemsSound(more, p.st);
        ReadsStep(s, a, p.st, b, Items(more, p.st).st);
        used := a + b;
        if Items(more, p.st).st.status == Fine {
          MakeStmts(a, b);
        }
      } else {
        ReadsStray(s, p.st);
      }
    }
  }

  lemma ReadsStray(s: State, s1: State)
    requires s1.status != Fine
    ensures Reads(s, [], s1)
  {
  }

  lemma ItemsUnfold(nodes: seq<Node>, s: State)
    ensures var p := Statement(s);
            Items(nodes, s) ==
            if Head(s).kind == KlamraPrawa || Head(s).kind == Koniec then ParsedMany(nodes, s)
            else if p.st.status != Fine then ParsedMany(Add(nodes, p.node), p.st)
            else if !Starts(Head(s).kind) then ParsedMany(nodes, s.(status := Spins))
            else Items(Add(nodes, p.node), p.st)
  {
    hide Statement;
  }

  /** There is a tree exactly when there is no error. */
  lemma {:induction false} TreeIffFine(nodes: seq<Node>, s: State)
    requires s.status == Fine
    ensures Program(nodes, s).node.Some? <==> Program(nodes, s).st.status == Fine
    decreases |s.ts|
  {
    hide Statement;
    var p := Statement(s);
    if Head(s).kind != Koniec && p.st.status == Fine && Starts(Head(s).kind) {
      TreeIffFine(Add(nodes, p.node), p.st);
    }
  }

  /** A program is accepted only if its tokens up to the end derive from the grammar. */
  lemma {:induction false} ProgramSound(nodes: seq<Node>, s: State) returns (used: Lexemes)
    requires s.status == Fine
    ensures var s1 := Program(nodes, s).st;
            Reads(s, used, s1) && (s1.status == Fine ==> IsStmts(used) && Head(s1).kind == Koniec)
    decreases |s.ts|
  {
    hide Statement, Reads, IsStmt;
    ReadsNone(s);
    used := [];
    if Head(s).kind != Koniec {
      var p := Statement(s);
      if p.st.status != Fine || !Starts(Head(s).kind) {
        ReadsStray(s, Program(nodes, s).st);
      } else {
        var a := StatementSound(s);
        var more := Add(nodes, p.node);
        var b := ProgramSound(more, p.st);
        ReadsStep(s, a, p.st, b, Program(more, p.st).st);
        used := a + b;
        if Program(more, p.st).st.status == Fine {
          MakeStmts(a, b);
        }
      }
    }
  }

  lemma NoEndInside(ts: Lexemes, used: Lexemes, rest: Lexemes)
    requires ts == used + rest && forall i :: 0 <= i < |ts| ==> ts[i].kind != Koniec
    ensures Head(State(rest, Fine)).kind == Koniec <==> rest == []
  {
    if rest != [] {
      assert ts[|used|] == rest[0];
    }
  }

  /** For tokens without an end token, as the lexer gives them. */
  lemma AcceptedDerives(ts: Lexemes)
    requires forall i :: 0 <= i < |ts| ==> ts[i].kind != Koniec
    requires Program([], State(ts, Fine)).st.status == Fine
    ensures IsStmts(ts)
  {
    hide Program, IsStmts;
    var s := State(ts, Fine);
    var used := ProgramSound([], s);
    var rest := Program([], s).st.ts;
    assert ts == used + rest;
    NoEndInside(ts, used, rest);
    hide Head;
    assert used + [] == used;
  }
}
