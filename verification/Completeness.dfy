/** parser_parse_program accepts whatever derives from the grammar (kernel/lang/polskiscript.c). */
module Completeness {
  import opened Common
  import opened Lexer
  import opened Syntax
  import opened Grammar
  import opened RoundTrip
  import Acceptance

  // ----- Expressions without levels -----

  predicate IsBinary(kind: Kind) {
    IsOperator(0, kind) || IsOperator(1, kind) || IsOperator(2, kind) || IsOperator(3, kind)
  }

  /** Operands, which may be missing, with prefix operators before them and binary operators
      between them. */
  ghost predicate Flat(ts: Lexemes)
    decreases |ts|
  {
    || ts == []
    || (ts[0].kind in {Minus, Nie} && Flat(ts[1..]))
    || (IsBinary(ts[0].kind) && Flat(ts[1..]))
    || exists i :: 0 < i <= |ts| && IsPrimary(ts[..i]) && (i < |ts| ==> IsBinary(ts[i].kind) && Flat(ts[i + 1..]))
  }

  lemma {:induction false} FlatOf(ts: Lexemes, k: nat)
    requires k <= 4 && IsExpr(ts, k)
    ensures Flat(ts)
    decreases |ts|, 5 - k
  {
    hide IsExpr, IsPrimary, IsOperator, Flat;
    if k == 4 {
      if IsPrimary(ts) {
        FlatPrimary(ts);
      } else {
        PrefixCase(ts);
        FlatOf(ts[1..], 4);
        FlatPrefix(ts);
      }
    } else if IsExpr(ts, k + 1) {
      FlatOf(ts, k + 1);
    } else {
      var i := InfixCase(ts, k);
      FlatOf(ts[..i], k);
      FlatOf(ts[i + 1..], k + 1);
      BinaryAt(k, ts[i].kind);
      FlatJoin(ts[..i], ts[i], ts[i + 1..]);
      assert ts == ts[..i] + [ts[i]] + ts[i + 1..];
    }
  }

  lemma PrefixCase(ts: Lexemes)
    requires IsExpr(ts, 4) && !IsPrimary(ts)
    ensures ts != [] && ts[0].kind in {Minus, Nie} && IsExpr(ts[1..], 4)
  {
    hide IsPrimary;
  }

  lemma InfixCase(ts: Lexemes, k: nat) returns (i: nat)
    requires k < 4 && IsExpr(ts, k) && !IsExpr(ts, k + 1)
    ensures i < |ts| && IsOperator(k, ts[i].kind) && IsExpr(ts[..i], k) && IsExpr(ts[i + 1..], k + 1)
  {
    hide IsPrimary, IsOperator;
    i :| 0 <= i < |ts| && IsOperator(k, ts[i].kind) && IsExpr(ts[..i], k) && IsExpr(ts[i + 1..], k + 1);
  }

  lemma BinaryAt(k: nat, kind: Kind)
    requires k < 4 && IsOperator(k, kind)
    ensures IsBinary(kind)
  {
    hide IsOperator;
  }

  lemma FlatPrefix(ts: Lexemes)
    requires ts != [] && (ts[0].kind in {Minus, Nie} || IsBinary(ts[0].kind)) && Flat(ts[1..])
    ensures Flat(ts)
  {
    hide IsPrimary, IsBinary;
  }

  lemma FlatPrimary(ts: Lexemes)
    requires IsPrimary(ts)
    ensures Flat(ts)
  {
    hide IsPrimary, IsBinary;
    if ts != [] {
      assert ts[..|ts|] == ts;
    }
  }

  lemma {:induction false} FlatJoin(a: Lexemes, t: Lexeme, b: Lexemes)
    requires Flat(a) && IsBinary(t.kind) && Flat(b)
    ensures Flat(a + [t] + b)
    decreases |a|
  {
    hide IsPrimary, IsBinary;
    var ts := a + [t] + b;
    if a == [] {
      assert ts[1..] == b;
    } else if (a[0].kind in {Minus, Nie} || IsBinary(a[0].kind)) && Flat(a[1..]) {
      FlatJoin(a[1..], t, b);
      assert ts[1..] == a[1..] + [t] + b;
    } else {
      var i :| 0 < i <= |a| && IsPrimary(a[..i]) && (i < |a| ==> IsBinary(a[i].kind) && Flat(a[i + 1..]));
      assert ts[..i] == a[..i];
      if i < |a| {
        FlatJoin(a[i + 1..], t, b);
        assert ts[i + 1..] == a[i + 1..] + [t] + b;
      } else {
        assert ts[i + 1..] == b;
      }
    }
  }

  lemma SolidStart(ts: Lexemes, i: nat)
    requires 0 < i <= |ts| && IsPrimary(ts[..i])
    ensures ts[0].kind in {Liczba, Tekst, Prawda, Falsz, Nic, Identyfikator, NawiasLewy}
  {
    hide IsExpr, IsArgs;
    assert ts[..i][0] == ts[0];
  }

  /** An operand starts with none of the tokens that end an expression. */
  lemma FlatStart(ts: Lexemes)
    requires Flat(ts) && ts != []
    ensures ts[0].kind !in {NawiasPrawy, Przecinek, Srednik, Koniec}
  {
    hide IsPrimary;
    if !(ts[0].kind in {Minus, Nie}) && !IsBinary(ts[0].kind) {
      var i :| 0 < i <= |ts| && IsPrimary(ts[..i]) && (i < |ts| ==> IsBinary(ts[i].kind) && Flat(ts[i + 1..]));
      SolidStart(ts, i);
    }
  }

  // ----- Reading expressions -----

  /** What is left of an expression by a parser of level `k`: nothing, or an operator of a lower
      level and what follows. */
  ghost predicate Remains(rest: Lexemes, k: nat) {
    rest == [] || ((exists j :: 0 <= j < k && j < 4 && IsOperator(j, rest[0].kind)) && Flat(rest[1..]))
  }

  lemma OnNext(ts: Lexemes, s: State)
    requires ts != []
    ensures Head(On(ts, s)) == ts[0] && Next(On(ts, s)) == On(ts[1..], s)
  {
    assert (ts + s.ts)[1..] == ts[1..] + s.ts;
  }

  lemma OnSplit(ts: Lexemes, i: nat, s: State)
    requires i <= |ts|
    ensures On(ts, s) == On(ts[..i], On(ts[i..], s))
  {
    assert ts[..i] + ts[i..] == ts;
    OnAppend(ts[..i], ts[i..], s);
  }

  lemma {:induction false} ReadLevel(k: nat, ts: Lexemes, s: State) returns (rest: Lexemes)
    requires k <= 4 && Flat(ts) && Ends(s)
    ensures Level(k, On(ts, s)).st == On(rest, s) && Remains(rest, k) && |rest| <= |ts|
    decreases |ts|, 2 * (4 - k) + 3
  {
    hide Unary, Chain, Flat, On, IsOperator, Ends;
    if k == 4 {
      rest := ReadUnary(ts, s);
    } else {
      var p := Level(k + 1, On(ts, s));
      var r := ReadLevel(k + 1, ts, s);
      rest := ReadChain(k, p.node, r, s);
    }
  }

  lemma {:induction false} ReadChain(k: nat, left: Option<Node>, ts: Lexemes, s: State) returns (rest: Lexemes)
    requires k < 4 && Remains(ts, k + 1) && Ends(s)
    ensures Chain(k, left, On(ts, s)).st == On(rest, s) && Remains(rest, k) && |rest| <= |ts|
    decreases |ts|, 2 * (4 - k) + 2
  {
    var s0 := On(ts, s);
    if ts != [] && IsOperator(k, ts[0].kind) {
      hide Level, Chain, Flat, On, IsOperator, Ends;
      OnNext(ts, s);
      Acceptance.ChainUnfold(k, left, s0);
      var p := Level(k + 1, Next(s0));
      var r := ReadLevel(k + 1, ts[1..], s);
      rest := ReadChain(k, Some(Bare(AstBinaryOp, Head(s0).value, Add(Add([], left), p.node))), r, s);
    } else {
      rest := ts;
      if ts == [] {
        OnEmpty(s);
        EndsStop(k, s);
      } else {
        OnNext(ts, s);
      }
      hide On;
      NoChain(k, left, s0);
    }
  }

  lemma {:induction false} ReadUnary(ts: Lexemes, s: State) returns (rest: Lexemes)
    requires Flat(ts) && Ends(s)
    ensures Unary(On(ts, s)).st == On(rest, s) && Remains(rest, 4) && |rest| <= |ts|
    decreases |ts|, 2
  {
    hide Primary, On, IsPrimary, IsOperator;
    if ts == [] {
      rest := [];
      OnEmpty(s);
      NoPrimary(s);
    } else {
      OnNext(ts, s);
      if ts[0].kind in {Minus, Nie} {
        NotSolid(ts);
        rest := ReadUnary(ts[1..], s);
      } else if IsBinary(ts[0].kind) {
        NotSolid(ts);
        rest := ts;
        NoPrimary(On(ts, s));
        BinaryRemains(ts);
      } else {
        var i :| 0 < i <= |ts| && IsPrimary(ts[..i]) && (i < |ts| ==> IsBinary(ts[i].kind) && Flat(ts[i + 1..]));
        rest := ts[i..];
        var s1 := On(rest, s);
        OnSplit(ts, i, s);
        NotCall(rest, s);
        ReadPrimary(ts[..i], s1);
        if rest != [] {
          assert rest[0] == ts[i] && rest[1..] == ts[i + 1..];
          BinaryRemains(rest);
        }
      }
    }
  }

  lemma BinaryRemains(ts: Lexemes)
    requires ts != [] && IsBinary(ts[0].kind) && Flat(ts[1..])
    ensures Remains(ts, 4)
  {
    hide IsOperator, Flat;
  }

  /** A primary does not start with an operator. */
  lemma NotSolid(ts: Lexemes)
    requires Flat(ts) && ts != [] && (ts[0].kind in {Minus, Nie} || IsBinary(ts[0].kind))
    ensures Flat(ts[1..])
  {
    hide IsPrimary;
    if exists i :: 0 < i <= |ts| && IsPrimary(ts[..i]) {
      var i :| 0 < i <= |ts| && IsPrimary(ts[..i]);
      SolidStart(ts, i);
    }
  }

  lemma NoPrimary(s: State)
    requires Ends(s) || (IsBinary(Head(s).kind) && Head(s).kind != Minus)
    ensures Unary(s).st == s
  {
  }

  lemma NotCall(rest: Lexemes, s: State)
    requires Ends(s) && (rest == [] || IsBinary(rest[0].kind))
    ensures Head(On(rest, s)).kind != NawiasLewy
  {
    if rest == [] {
      OnEmpty(s);
    } else {
      OnNext(rest, s);
    }
  }

  /** A primary is read by itself, unless a parenthesis follows a name. */
  lemma {:induction false} ReadPrimary(ts: Lexemes, s: State)
    requires IsPrimary(ts) && ts != [] && Head(s).kind != NawiasLewy
    ensures Unary(On(ts, s)).st == s && ts[0].kind !in {Minus, Nie}
    decreases |ts|, 1
  {
    hide Level, Arguments, IsExpr, IsArgs, Literal, On;
    OnNext(ts, s);
    var n := |ts|;
    if n == 1 {
      assert ts[1..] == [];
      OnEmpty(s);
    } else if ts[0].kind == NawiasLewy {
      ReadParens(ts, s);
    } else {
      ReadCall(ts, s);
    }
  }

  lemma {:induction false} ReadParens(ts: Lexemes, s: State)
    requires |ts| >= 2 && Is(ts, 0, NawiasLewy) && Is(ts, |ts| - 1, NawiasPrawy) && IsExpr(ts[1..|ts| - 1], 0)
    ensures Primary(On(ts, s)).st == s
    decreases |ts|, 0
  {
    var a, c := ts[1..|ts| - 1], ts[|ts| - 1];
    var s1 := Push(c, s);
    OnNext(ts, s);
    LastPush(ts, 1, s);
    assert Primary(On(ts, s)).st == Expect(NawiasPrawy, Level(0, On(a, s1)).st);
    hide Level, IsExpr, On, Primary, Push;
    FlatOf(a, 0);
    var rest := ReadLevel(0, a, s1);
    OnEmpty(s1);
  }

  lemma LastPush(ts: Lexemes, i: nat, s: State)
    requires i < |ts|
    ensures On(ts[i..], s) == On(ts[i..|ts| - 1], Push(ts[|ts| - 1], s))
  {
    assert ts[i..] + s.ts == ts[i..|ts| - 1] + ([ts[|ts| - 1]] + s.ts);
  }

  lemma {:induction false} ReadCall(ts: Lexemes, s: State)
    requires |ts| >= 3 && Is(ts, 0, Identyfikator) && Is(ts, 1, NawiasLewy) && Is(ts, |ts| - 1, NawiasPrawy)
    requires IsArgs(ts[2..|ts| - 1])
    ensures Primary(On(ts, s)).st == s
    decreases |ts|, 0
  {
    var a, c := ts[2..|ts| - 1], ts[|ts| - 1];
    var s1 := Push(c, s);
    OnNext(ts, s);
    OnNext(ts[1..], s);
    assert ts[1..][1..] == ts[2..];
    LastPush(ts, 2, s);
    var name := Bare(AstIdentifier, ts[0].value, []);
    assert Primary(On(ts, s)).st == Expect(NawiasPrawy, Arguments([name], On(a, s1)).st);
    hide Arguments, IsArgs, On, Primary, Push;
    ReadArgs([name], a, s1);
  }

  lemma {:induction false} ReadArgs(nodes: seq<Node>, ts: Lexemes, s: State)
    requires IsArgs(ts) && Head(s).kind == NawiasPrawy
    ensures Arguments(nodes, On(ts, s)).st == s
    decreases |ts|, 14
  {
    hide ArgumentLoop, IsArgs, On;
    if ts == [] {
      OnEmpty(s);
    } else {
      OnNext(ts, s);
      ArgsStart(ts);
      ReadLoop(nodes, ts, s);
    }
  }

  lemma ArgsStart(ts: Lexemes)
    requires IsArgs(ts) && ts != []
    ensures ts[0].kind != NawiasPrawy && IsList(AfterComma(ts))
  {
    hide IsExpr;
    if IsExpr(ts, 0) {
      FlatOf(ts, 0);
      FlatStart(ts);
    } else if IsList(ts) {
      var i :| Is(ts, i, Przecinek) && IsExpr(ts[..i], 0) && IsList(ts[i + 1..]);
      if i > 0 {
        FlatOf(ts[..i], 0);
        FlatStart(ts[..i]);
        assert ts[..i][0] == ts[0];
      }
    }
  }

  /** What the loop reads on, after a comma. */
  function AfterComma(ts: Lexemes): Lexemes {
    if ts != [] && ts[0].kind == Przecinek then ts[1..] else ts
  }

  lemma LoopOn(nodes: seq<Node>, ts: Lexemes, s: State)
    requires ts != []
    ensures var p := Level(0, On(AfterComma(ts), s));
            ArgumentLoop(nodes, On(ts, s)) ==
            if Head(p.st).kind == Przecinek then ArgumentLoop(Add(nodes, p.node), p.st)
            else ParsedMany(Add(nodes, p.node), p.st)
  {
    hide Level, On, ArgumentLoop;
    OnNext(ts, s);
    Acceptance.LoopUnfold(nodes, On(ts, s));
  }

  lemma {:induction false} ReadLoop(nodes: seq<Node>, ts: Lexemes, s: State)
    requires IsArgs(ts) && ts != [] && Head(s).kind == NawiasPrawy
    ensures ArgumentLoop(nodes, On(ts, s)).st == s
    decreases |ts|, 13
  {
    ArgsStart(ts);
    LoopOn(nodes, ts, s);
    var list := AfterComma(ts);
    var more := Add(nodes, Level(0, On(list, s)).node);
    assert |list| <= |ts| && (list == ts ==> ts[0].kind != Przecinek);
    hide ArgumentLoop, Level, IsExpr, On, IsArgs, Head, Add, AfterComma, IsList;
    if IsExpr(list, 0) {
      ReadOne(list, [], s);
      assert list + [] == list;
      OnEmpty(s);
    } else {
      var i := SplitList(list);
      ReadOne(list[..i], list[i..], s);
      assert list[..i] + list[i..] == list;
      OnNext(list[i..], s);
      CommaArgs(list, i);
      ReadLoop(more, list[i..], s);
    }
  }

  lemma SplitList(list: Lexemes) returns (i: nat)
    requires IsList(list) && !IsExpr(list, 0)
    ensures Is(list, i, Przecinek) && IsExpr(list[..i], 0) && IsList(list[i + 1..])
  {
    hide IsExpr;
    i :| Is(list, i, Przecinek) && IsExpr(list[..i], 0) && IsList(list[i + 1..]);
  }

  /** One argument, before the end or a comma. */
  lemma {:induction false} ReadOne(a: Lexemes, rest: Lexemes, s: State)
    requires IsExpr(a, 0) && Head(s).kind == NawiasPrawy && (rest == [] || rest[0].kind == Przecinek)
    ensures Level(0, On(a + rest, s)).st == On(rest, s)
    decreases |a|, 12
  {
    hide Level, IsExpr, On;
    OnAppend(a, rest, s);
    var s1 := On(rest, s);
    if rest == [] {
      OnEmpty(s);
    } else {
      OnNext(rest, s);
    }
    FlatOf(a, 0);
    var left := ReadLevel(0, a, s1);
    OnEmpty(s1);
  }

  lemma CommaArgs(list: Lexemes, i: nat)
    requires Is(list, i, Przecinek) && IsList(list[i + 1..])
    ensures IsArgs(list[i..])
  {
    hide IsList;
    assert list[i..][1..] == list[i + 1..];
  }

  // ----- Reading statements -----

  /** What may follow a statement. */
  predicate Follows(s: State) {
    Starts(Head(s).kind) || Head(s).kind in {KlamraPrawa, Koniec}
  }

  /** The expression before a closing token. */
  lemma ReadExpr(ts: Lexemes, i: nat, n: nat, s: State)
    requires i <= n < |ts| && IsExpr(ts[i..n], 0) && ts[n].kind in {NawiasPrawy, Srednik}
    ensures Level(0, On(ts[i..], s)).st == On(ts[n..], s)
  {
    hide Level, IsExpr, On;
    var s1 := On(ts[n..], s);
    OnSplit(ts[i..], n - i, s);
    assert ts[i..][..n - i] == ts[i..n] && ts[i..][n - i..] == ts[n..];
    OnNext(ts[n..], s);
    FlatOf(ts[i..n], 0);
    var rest := ReadLevel(0, ts[i..n], s1);
    OnEmpty(s1);
  }

  lemma ReadArguments(ts: Lexemes, i: nat, n: nat, s: State)
    requires i <= n < |ts| && IsArgs(ts[i..n]) && ts[n].kind == NawiasPrawy
    ensures Arguments([], On(ts[i..], s)).st == On(ts[n..], s)
  {
    hide Arguments, IsArgs, On;
    var s1 := On(ts[n..], s);
    OnSplit(ts[i..], n - i, s);
    assert ts[i..][..n - i] == ts[i..n] && ts[i..][n - i..] == ts[n..];
    OnNext(ts[n..], s);
    ReadArgs([], ts[i..n], s1);
  }

  /** An expected token. */
  lemma ReadExpect(ts: Lexemes, n: nat, s: State)
    requires n < |ts|
    ensures Expect(ts[n].kind, On(ts[n..], s)) == On(ts[n + 1..], s)
    ensures Head(On(ts[n..], s)) == ts[n] && Next(On(ts[n..], s)) == On(ts[n + 1..], s)
  {
    hide On;
    OnNext(ts[n..], s);
    assert ts[n..][1..] == ts[n + 1..];
  }

  lemma ReadEnd(ts: Lexemes, s: State)
    ensures On(ts[|ts|..], s) == s && On(ts[0..], s) == On(ts, s)
  {
    assert ts[0..] == ts && ts[|ts|..] == [];
    OnEmpty(s);
  }

  lemma ReadSimple(ts: Lexemes, s: State)
    requires IsSimple(ts)
    ensures Statement(On(ts, s)).st == s && Starts(ts[0].kind)
  {
    hide On, IsExpr, IsArgs, Expect, Statement;
    var n := |ts| - 1;
    ReadEnd(ts, s);
    ReadExpect(ts, 0, s);
    ReadExpect(ts, n, s);
    Acceptance.StatementUnfold(On(ts, s));
    hide Head, Next;
    if ts[0].kind == Zwroc {
      ReadReturn(ts, s);
    } else if ts[0].kind == Drukuj {
      ReadPrint(ts, s);
    } else if ts[0].kind == Zmienna {
      ReadDeclaration(ts, s);
    } else if ts[0].kind == Identyfikator {
      ReadAssignment(ts, s);
    }
  }

  lemma ReadReturn(ts: Lexemes, s: State)
    requires IsSimple(ts) && ts[0].kind == Zwroc
    ensures Returning(On(ts[1..], s)).st == s
  {
    hide On, IsExpr, IsArgs, Expect, Level;
    var n := |ts| - 1;
    assert IsExpr(ts[1..n], 0);
    hide IsSimple;
    ReadEnd(ts, s);
    ReadExpect(ts, n, s);
    ReadExpect(ts, 1, s);
    ReadExpr(ts, 1, n, s);
    hide Head, Next;
    if n > 1 {
      ExprStarts(ts, 1, n);
    }
  }

  lemma ExprStarts(ts: Lexemes, i: nat, n: nat)
    requires i < n < |ts| && IsExpr(ts[i..n], 0)
    ensures ts[i].kind != Srednik
  {
    hide IsExpr;
    FlatOf(ts[i..n], 0);
    FlatStart(ts[i..n]);
    assert ts[i..n][0] == ts[i];
  }

  lemma PrintingUnfold(s: State)
    ensures Printing(s).st == Expect(Srednik, Expect(NawiasPrawy, Arguments([], Expect(NawiasLewy, s)).st))
  {
    hide Arguments, Expect;
  }

  lemma ReadPrint(ts: Lexemes, s: State)
    requires IsSimple(ts) && ts[0].kind == Drukuj
    ensures Printing(On(ts[1..], s)).st == s
  {
    hide On, IsExpr, IsArgs, Expect, Arguments, Printing, Head, Next;
    var n := |ts| - 1;
    assert n >= 3 && Is(ts, 1, NawiasLewy) && Is(ts, n - 1, NawiasPrawy) && Is(ts, n, Srednik) && IsArgs(ts[2..n - 1]);
    hide IsSimple;
    PrintingUnfold(On(ts[1..], s));
    ReadEnd(ts, s);
    ReadExpect(ts, 1, s);
    ReadArguments(ts, 2, n - 1, s);
    ReadExpect(ts, n - 1, s);
    ReadExpect(ts, n, s);
  }

  lemma ReadDeclaration(ts: Lexemes, s: State)
    requires IsSimple(ts) && ts[0].kind == Zmienna
    ensures Declaration(On(ts[1..], s)).st == s
  {
    hide On, IsExpr, IsArgs, Expect, Declaration, Head, Next;
    var n := |ts| - 1;
    assert n >= 2 && Is(ts, 1, Identyfikator) && Is(ts, n, Srednik);
    assert Is(ts, 2, Przypisanie) ==> n >= 3 && IsExpr(ts[3..n], 0);
    assert !Is(ts, 2, Przypisanie) ==> n == 2;
    hide IsSimple;
    if ts[2].kind == Przypisanie {
      ReadDefine(ts, n, s);
    } else {
      ReadDeclare(ts, s);
    }
  }

  lemma ReadDeclare(ts: Lexemes, s: State)
    requires |ts| == 3 && Is(ts, 1, Identyfikator) && Is(ts, 2, Srednik)
    ensures Declaration(On(ts[1..], s)).st == s
  {
    hide On, Expect, Declaration, Head, Next, Level;
    Acceptance.DeclarationUnfold(On(ts[1..], s));
    ReadEnd(ts, s);
    ReadExpect(ts, 1, s);
    ReadExpect(ts, 2, s);
  }

  lemma ReadDefine(ts: Lexemes, n: nat, s: State)
    requires 3 <= n == |ts| - 1 && Is(ts, 1, Identyfikator) && Is(ts, 2, Przypisanie) && Is(ts, n, Srednik)
    requires IsExpr(ts[3..n], 0)
    ensures Declaration(On(ts[1..], s)).st == s
  {
    hide On, IsExpr, Expect, Declaration, Head, Next, Level;
    Acceptance.DeclarationUnfold(On(ts[1..], s));
    ReadEnd(ts, s);
    ReadExpect(ts, 1, s);
    ReadExpect(ts, 2, s);
    ReadExpr(ts, 3, n, s);
    ReadExpect(ts, n, s);
  }

  lemma AssignmentUnfold(name: string, s: State)
    requires Head(s).kind == Przypisanie
    ensures Assignment(name, s).st == Expect(Srednik, Level(0, Next(s)).st)
  {
    hide Level, Expect;
  }

  lemma ReadAssignment(ts: Lexemes, s: State)
    requires IsSimple(ts) && ts[0].kind == Identyfikator
    ensures Assignment(ts[0].value, On(ts[1..], s)).st == s
  {
    hide On, IsExpr, IsArgs, Expect, Level, Head, Next, Assignment;
    var n := |ts| - 1;
    assert n >= 2 && Is(ts, 1, Przypisanie) && Is(ts, n, Srednik) && IsExpr(ts[2..n], 0);
    hide IsSimple;
    ReadEnd(ts, s);
    ReadExpect(ts, 1, s);
    AssignmentUnfold(ts[0].value, On(ts[1..], s));
    ReadExpr(ts, 2, n, s);
    ReadExpect(ts, n, s);
  }

  lemma {:induction false} ReadStmt(ts: Lexemes, s: State)
    requires IsStmt(ts) && Follows(s) && s.status == Fine
    ensures ts != [] && Starts(ts[0].kind) && Statement(On(ts, s)).st == s
    decreases |ts|, 3
  {
    hide On, IsExpr, IsSimple, IsBlock, IsBranches, Statement, Starts;
    if IsSimple(ts) {
      ReadSimple(ts, s);
      SimpleSome(ts);
    } else if IsBlock(ts) {
      BlockSome(ts);
      ReadEnd(ts, s);
      ReadExpect(ts, 0, s);
      Acceptance.StatementUnfold(On(ts, s));
      ReadBlock(ts, s);
    } else if Is(ts, 0, Jesli) {
      var i :| Is(ts, 0, Jesli) && Is(ts, 1, NawiasLewy) && i >= 2 && Is(ts, i, NawiasPrawy) && IsExpr(ts[2..i], 0) &&
        IsBranches(ts[i + 1..]);
      ReadIf(ts, i, s);
    } else {
      var i :| Is(ts, 0, Dopoki) && Is(ts, 1, NawiasLewy) && i >= 2 && Is(ts, i, NawiasPrawy) && IsExpr(ts[2..i], 0) &&
        IsBlock(ts[i + 1..]);
      ReadWhile(ts, i, s);
    }
  }

  lemma SimpleSome(ts: Lexemes)
    requires IsSimple(ts)
    ensures ts != []
  {
    hide IsExpr, IsArgs;
  }

  lemma BlockSome(ts: Lexemes)
    requires IsBlock(ts)
    ensures ts != [] && ts[0].kind == KlamraLewa && Starts(KlamraLewa)
  {
    hide IsStmts;
  }

  lemma ReadGuard(ts: Lexemes, i: nat, s: State)
    requires 2 <= i < |ts| && Is(ts, 1, NawiasLewy) && Is(ts, i, NawiasPrawy) && IsExpr(ts[2..i], 0)
    ensures Condition(On(ts[1..], s)).st == On(ts[i + 1..], s)
  {
    hide On, IsExpr, Expect, Level;
    ReadExpect(ts, 1, s);
    ReadExpr(ts, 2, i, s);
    ReadExpect(ts, i, s);
  }

  lemma IfStatement(s: State)
    requires Head(s).kind == Jesli
    ensures Starts(Jesli) && Statement(s).st == Acceptance.BothBranches(Condition(Next(s)).st)
  {
    hide Statement, Conditional, Condition;
    Acceptance.StatementUnfold(s);
    Acceptance.ConditionalUnfold(Next(s));
  }

  lemma WhileStatement(s: State)
    requires Head(s).kind == Dopoki
    ensures Starts(Dopoki) && Statement(s).st == Block(Condition(Next(s)).st).st
  {
    Acceptance.StatementUnfold(s);
    hide Statement, Condition, Block;
  }

  lemma {:induction false} ReadIf(ts: Lexemes, i: nat, s: State)
    requires Is(ts, 0, Jesli) && Is(ts, 1, NawiasLewy) && i >= 2 && Is(ts, i, NawiasPrawy) && IsExpr(ts[2..i], 0)
    requires IsBranches(ts[i + 1..]) && Follows(s) && s.status == Fine
    ensures Starts(ts[0].kind) && Statement(On(ts, s)).st == s
    decreases |ts|, 2
  {
    hide On, IsExpr, IsBranches, Statement, Condition, Head, Next, Starts, Acceptance.BothBranches;
    ReadEnd(ts, s);
    ReadExpect(ts, 0, s);
    IfStatement(On(ts, s));
    ReadGuard(ts, i, s);
    ReadBranches(ts[i + 1..], s);
  }

  lemma {:induction false} ReadBranches(ts: Lexemes, s: State)
    requires IsBranches(ts) && Follows(s) && s.status == Fine
    ensures Acceptance.BothBranches(On(ts, s)) == s
    decreases |ts|, 2
  {
    hide On, IsBlock, Block;
    if IsBlock(ts) {
      ReadBlock(ts, s);
    } else {
      var i :| Is(ts, i, Inaczej) && IsBlock(ts[..i]) && IsBlock(ts[i + 1..]);
      OnSplit(ts, i, s);
      ReadExpect(ts, i, s);
      ReadBlock(ts[..i], On(ts[i..], s));
      ReadBlock(ts[i + 1..], s);
    }
  }

  lemma {:induction false} ReadWhile(ts: Lexemes, i: nat, s: State)
    requires Is(ts, 0, Dopoki) && Is(ts, 1, NawiasLewy) && i >= 2 && Is(ts, i, NawiasPrawy) && IsExpr(ts[2..i], 0)
    requires IsBlock(ts[i + 1..]) && s.status == Fine
    ensures Starts(ts[0].kind) && Statement(On(ts, s)).st == s
    decreases |ts|, 2
  {
    hide On, IsExpr, IsBlock, Statement, Condition, Block, Head, Next, Starts;
    ReadEnd(ts, s);
    ReadExpect(ts, 0, s);
    WhileStatement(On(ts, s));
    ReadGuard(ts, i, s);
    ReadBlock(ts[i + 1..], s);
  }

  lemma {:induction false} ReadBlock(ts: Lexemes, s: State)
    requires IsBlock(ts) && s.status == Fine
    ensures Block(On(ts, s)).st == s
    decreases |ts|, 1
  {
    hide On, IsStmts, Items, Expect, Block;
    var n := |ts| - 1;
    var a, s1 := ts[1..n], On(ts[n..], s);
    ReadEnd(ts, s);
    ReadExpect(ts, 0, s);
    ReadExpect(ts, n, s);
    OnSplit(ts[1..], n - 1, s);
    assert ts[1..][..n - 1] == a && ts[1..][n - 1..] == ts[n..];
    Acceptance.BlockUnfold(On(ts, s));
    hide Head, Next;
    ReadItems([], a, s1);
  }

  lemma {:induction false} ReadItems(nodes: seq<Node>, ts: Lexemes, s: State)
    requires IsStmts(ts) && Head(s).kind == KlamraPrawa && s.status == Fine
    ensures Items(nodes, On(ts, s)).st == s
    decreases |ts|, 4
  {
    hide On, IsStmt, Statement, Items;
    Acceptance.ItemsUnfold(nodes, On(ts, s));
    if ts == [] {
      OnEmpty(s);
    } else {
      var i :| 0 < i <= |ts| && IsStmt(ts[..i]) && IsStmts(ts[i..]);
      var s1 := On(ts[i..], s);
      OnSplit(ts, i, s);
      OnNext(ts, s);
      StmtsFollow(ts[i..], s);
      ReadStmt(ts[..i], s1);
      assert ts[..i][0] == ts[0];
      ReadItems(Add(nodes, Statement(On(ts, s)).node), ts[i..], s);
    }
  }

  /** A list of statements starts as a statement may be followed. */
  lemma StmtsFollow(ts: Lexemes, s: State)
    requires IsStmts(ts) && Follows(s)
    ensures Follows(On(ts, s))
  {
    hide On, IsStmt;
    if ts == [] {
      OnEmpty(s);
    } else {
      var i :| 0 < i <= |ts| && IsStmt(ts[..i]) && IsStmts(ts[i..]);
      OnNext(ts, s);
      StmtStart(ts[..i]);
      assert ts[..i][0] == ts[0];
    }
  }

  lemma StmtStart(ts: Lexemes)
    requires IsStmt(ts) && ts != []
    ensures Starts(ts[0].kind)
  {
    hide IsExpr, IsArgs, IsStmts, IsBranches;
  }

  lemma {:induction false} ReadProgram(nodes: seq<Node>, ts: Lexemes, s: State)
    requires IsStmts(ts) && s == State([], Fine)
    ensures Program(nodes, On(ts, s)).st == s
    decreases |ts|
  {
    hide On, IsStmt, Statement;
    if ts == [] {
      OnEmpty(s);
    } else {
      var i :| 0 < i <= |ts| && IsStmt(ts[..i]) && IsStmts(ts[i..]);
      var s1 := On(ts[i..], s);
      OnSplit(ts, i, s);
      OnNext(ts, s);
      StmtsFollow(ts[i..], s);
      ReadStmt(ts[..i], s1);
      assert ts[..i][0] == ts[0];
      ReadProgram(Add(nodes, Statement(On(ts, s)).node), ts[i..], s);
    }
  }

  /** The parser accepts exactly the token sequences of the grammar, and makes a tree of exactly
      these. */
  lemma AcceptsExactly(ts: Lexemes)
    requires forall i :: 0 <= i < |ts| ==> ts[i].kind != Koniec
    ensures var p := Program([], State(ts, Fine));
            (p.st.status == Fine <==> IsStmts(ts)) && (p.node.Some? <==> IsStmts(ts))
  {
    hide Program, IsStmts;
    var s := State([], Fine);
    assert On(ts, s) == State(ts, Fine) by { assert ts + [] == ts; }
    hide On;
    if IsStmts(ts) {
      ReadProgram([], ts, s);
    }
    if Program([], State(ts, Fine)).st.status == Fine {
      Acceptance.AcceptedDerives(ts);
    }
    Acceptance.TreeIffFine([], State(ts, Fine));
  }

  /** A program from which an expression is missing is one of them: `zmienna x = ;`. */
  lemma MissingExpression(x: string)
    ensures Program([], State(WithoutValue(x), Fine)).st.status == Fine
  {
    var ts := WithoutValue(x);
    WithoutValueIsStmts(x);
    assert ts[0].kind != Koniec && ts[1].kind != Koniec && ts[2].kind != Koniec && ts[3].kind != Koniec;
    hide *;
    AcceptsExactly(ts);
  }

  function WithoutValue(x: string): Lexemes {
    [Lexeme(Zmienna, "zmienna"), Lexeme(Identyfikator, x), Lexeme(Przypisanie, "="), Lexeme(Srednik, ";")]
  }

  lemma WithoutValueIsSimple(x: string)
    ensures |WithoutValue(x)| == 4 && IsSimple(WithoutValue(x))
  {
    hide IsExpr, IsArgs;
    MakePrimary([]);
    Lift([], 4, 0);
    assert WithoutValue(x)[3..3] == [];
  }

  lemma WithoutValueIsStmts(x: string)
    ensures |WithoutValue(x)| == 4 && IsStmts(WithoutValue(x))
  {
    hide IsSimple, IsBlock, WithoutValue, IsBranches, IsExpr;
    WithoutValueIsSimple(x);
    var ts := WithoutValue(x);
    assert ts[..4] == ts && ts[4..] == [];
    assert IsStmt(ts[..4]) && IsStmts(ts[4..]);
  }
}
