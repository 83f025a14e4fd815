/** The token sequences that parser_parse_program accepts (kernel/lang/polskiscript.c), as a
    grammar.  An expression may be missing altogether: the parser does not ask for one. */
module Grammar {
  import opened Common
  import opened Lexer
  import opened Syntax

  type Lexemes = seq<Lexeme>

  predicate Is(ts: Lexemes, i: int, kind: Kind) { 0 <= i < |ts| && ts[i].kind == kind }

  /** An expression of level `k`: operands joined by operators of that level. */
  ghost predicate IsExpr(ts: Lexemes, k: nat)
    requires k <= 4
    decreases |ts|, 5 - k
  {
    if k == 4 then (ts != [] && ts[0].kind in {Minus, Nie} && IsExpr(ts[1..], 4)) || IsPrimary(ts)
    else
      || IsExpr(ts, k + 1)
      || exists i :: 0 <= i < |ts| && IsOperator(k, ts[i].kind) && IsExpr(ts[..i], k) && IsExpr(ts[i + 1..], k + 1)
  }

  /** Nothing, a literal, a name, a call, or an expression in parentheses. */
  ghost predicate IsPrimary(ts: Lexemes)
    decreases |ts|, 0
  {
    var n := |ts|;
    || n == 0
    || (n == 1 && ts[0].kind in {Liczba, Tekst, Prawda, Falsz, Nic, Identyfikator})
    || (n >= 2 && Is(ts, 0, NawiasLewy) && Is(ts, n - 1, NawiasPrawy) && IsExpr(ts[1..n - 1], 0))
    || (n >= 3 && Is(ts, 0, Identyfikator) && Is(ts, 1, NawiasLewy) && Is(ts, n - 1, NawiasPrawy) &&
      IsArgs(ts[2..n - 1]))
  }

  /** Arguments separated by commas; a comma may also stand before the first. */
  ghost predicate IsArgs(ts: Lexemes)
    decreases |ts|, 7
  {
    ts == [] || IsList(ts) || (Is(ts, 0, Przecinek) && IsList(ts[1..]))
  }

  ghost predicate IsList(ts: Lexemes)
    decreases |ts|, 6
  {
    IsExpr(ts, 0) || exists i :: Is(ts, i, Przecinek) && IsExpr(ts[..i], 0) && IsList(ts[i + 1..])
  }

  /** `ts` ends with a semicolon, and what stands before it is a simple statement. */
  ghost predicate IsSimple(ts: Lexemes) {
    var n := |ts| - 1;
    && Is(ts, n, Srednik)
    && (|| (n == 1 && (Is(ts, 0, Przerwij) || Is(ts, 0, Kontynuuj)))
        || (Is(ts, 0, Zwroc) && n >= 1 && IsExpr(ts[1..n], 0))
        || (n >= 3 && Is(ts, 0, Drukuj) && Is(ts, 1, NawiasLewy) && Is(ts, n - 1, NawiasPrawy) && IsArgs(ts[2..n - 1]))
        || (n == 2 && Is(ts, 0, Zmienna) && Is(ts, 1, Identyfikator))
        || (n >= 3 && Is(ts, 0, Zmienna) && Is(ts, 1, Identyfikator) && Is(ts, 2, Przypisanie) && IsExpr(ts[3..n], 0))
        || (n >= 2 && Is(ts, 0, Identyfikator) && Is(ts, 1, Przypisanie) && IsExpr(ts[2..n], 0)))
  }

  ghost predicate IsStmt(ts: Lexemes)
    decreases |ts|, 1
  {
    || IsSimple(ts)
    || IsBlock(ts)
    || (exists i :: Is(ts, 0, Jesli) && Is(ts, 1, NawiasLewy) && i >= 2 && Is(ts, i, NawiasPrawy) &&
          IsExpr(ts[2..i], 0) && IsBranches(ts[i + 1..]))
    || (exists i :: Is(ts, 0, Dopoki) && Is(ts, 1, NawiasLewy) && i >= 2 && Is(ts, i, NawiasPrawy) &&
          IsExpr(ts[2..i], 0) && IsBlock(ts[i + 1..]))
  }

  ghost predicate IsBranches(ts: Lexemes)
    decreases |ts|, 1
  {
    IsBlock(ts) || exists i :: Is(ts, i, Inaczej) && IsBlock(ts[..i]) && IsBlock(ts[i + 1..])
  }

  ghost predicate IsBlock(ts: Lexemes)
    decreases |ts|, 0
  {
    |ts| >= 2 && Is(ts, 0, KlamraLewa) && Is(ts, |ts| - 1, KlamraPrawa) && IsStmts(ts[1..|ts| - 1])
  }

  ghost predicate IsStmts(ts: Lexemes)
    decreases |ts|, 2
  {
    ts == [] || exists i :: 0 < i <= |ts| && IsStmt(ts[..i]) && IsStmts(ts[i..])
  }

  // ----- The productions -----

  lemma {:induction false} Lift(ts: Lexemes, j: nat, k: nat)
    requires k <= j <= 4 && IsExpr(ts, j)
    ensures IsExpr(ts, k)
    decreases j - k
  {
    hide IsPrimary, IsOperator;
    if k < j {
      Lift(ts, j, k + 1);
    }
  }

  lemma MakeInfix(a: Lexemes, t: Lexeme, b: Lexemes, k: nat)
    requires k < 4 && IsExpr(a, k) && IsOperator(k, t.kind) && IsExpr(b, k + 1)
    ensures IsExpr(a + [t] + b, k)
  {
    hide IsPrimary, IsOperator;
    var ts, i := a + [t] + b, |a|;
    assert ts[..i] == a && ts[i + 1..] == b && ts[i] == t;
  }

  lemma MakePrefix(t: Lexeme, a: Lexemes)
    requires t.kind in {Minus, Nie} && IsExpr(a, 4)
    ensures IsExpr([t] + a, 4)
  {
    hide IsPrimary;
    assert ([t] + a)[1..] == a;
  }

  lemma MakePrimary(ts: Lexemes)
    requires IsPrimary(ts)
    ensures IsExpr(ts, 4)
  {
  }

  lemma MakeParens(o: Lexeme, a: Lexemes, c: Lexeme)
    requires o.kind == NawiasLewy && c.kind == NawiasPrawy && IsExpr(a, 0)
    ensures IsPrimary([o] + a + [c])
  {
    hide IsExpr, IsArgs;
    var ts := [o] + a + [c];
    assert ts[1..|ts| - 1] == a;
  }

  lemma MakeCall(f: Lexeme, o: Lexeme, a: Lexemes, c: Lexeme)
    requires f.kind == Identyfikator && o.kind == NawiasLewy && c.kind == NawiasPrawy && IsArgs(a)
    ensures IsPrimary([f, o] + a + [c])
  {
    hide IsExpr, IsArgs;
    var ts := [f, o] + a + [c];
    assert ts[2..|ts| - 1] == a;
  }

  lemma MakeList(a: Lexemes, t: Lexeme, b: Lexemes)
    requires IsExpr(a, 0) && t.kind == Przecinek && IsList(b)
    ensures IsList(a + [t] + b)
  {
    hide IsExpr;
    var ts, i := a + [t] + b, |a|;
    assert ts[..i] == a && ts[i + 1..] == b && Is(ts, i, Przecinek);
  }

  lemma MakeStmts(a: Lexemes, b: Lexemes)
    requires a != [] && IsStmt(a) && IsStmts(b)
    ensures IsStmts(a + b)
  {
    hide IsStmt;
    var ts, i := a + b, |a|;
    assert ts[..i] == a && ts[i..] == b;
  }

  lemma MakeBlock(o: Lexeme, a: Lexemes, c: Lexeme)
    requires o.kind == KlamraLewa && c.kind == KlamraPrawa && IsStmts(a)
    ensures IsBlock([o] + a + [c])
  {
    hide IsStmts;
    var ts := [o] + a + [c];
    assert ts[1..|ts| - 1] == a;
  }

  lemma MakeBranches(a: Lexemes, t: Lexeme, b: Lexemes)
    requires IsBlock(a) && t.kind == Inaczej && IsBlock(b)
    ensures IsBranches(a + [t] + b)
  {
    hide IsBlock;
    var ts, i := a + [t] + b, |a|;
    assert ts[..i] == a && ts[i + 1..] == b && Is(ts, i, Inaczej);
  }

  lemma MakeIf(t: Lexeme, o: Lexeme, a: Lexemes, c: Lexeme, b: Lexemes)
    requires t.kind == Jesli && o.kind == NawiasLewy && c.kind == NawiasPrawy && IsExpr(a, 0) && IsBranches(b)
    ensures IsStmt([t, o] + a + [c] + b)
  {
    hide IsExpr, IsBranches, IsBlock, IsSimple;
    var ts, i := [t, o] + a + [c] + b, |a| + 2;
    assert ts[2..i] == a && ts[i + 1..] == b && Is(ts, i, NawiasPrawy);
  }

  lemma MakeWhile(t: Lexeme, o: Lexeme, a: Lexemes, c: Lexeme, b: Lexemes)
    requires t.kind == Dopoki && o.kind == NawiasLewy && c.kind == NawiasPrawy && IsExpr(a, 0) && IsBlock(b)
    ensures IsStmt([t, o] + a + [c] + b)
  {
    hide IsExpr, IsBranches, IsBlock, IsSimple;
    var ts, i := [t, o] + a + [c] + b, |a| + 2;
    assert ts[2..i] == a && ts[i + 1..] == b && Is(ts, i, NawiasPrawy);
  }

  // ----- Simple statements -----

  lemma Nothing(k: nat)
    requires k <= 4
    ensures IsExpr([], k)
  {
    MakePrimary([]);
    Lift([], 4, k);
  }

  lemma MakeJump(t: Lexeme, e: Lexeme)
    requires (t.kind == Przerwij || t.kind == Kontynuuj) && e.kind == Srednik
    ensures IsStmt([t, e])
  {
    hide IsExpr, IsArgs;
    assert IsSimple([t, e]);
  }

  lemma MakeReturn(t: Lexeme, a: Lexemes, e: Lexeme)
    requires t.kind == Zwroc && IsExpr(a, 0) && e.kind == Srednik
    ensures IsStmt([t] + a + [e])
  {
    hide IsExpr, IsArgs;
    var ts := [t] + a + [e];
    assert ts[1..|ts| - 1] == a;
    assert IsSimple(ts);
  }

  lemma MakePrint(t: Lexeme, o: Lexeme, a: Lexemes, c: Lexeme, e: Lexeme)
    requires t.kind == Drukuj && o.kind == NawiasLewy && IsArgs(a) && c.kind == NawiasPrawy && e.kind == Srednik
    ensures IsStmt([t, o] + a + [c, e])
  {
    hide IsExpr, IsArgs;
    var ts := [t, o] + a + [c, e];
    assert ts[2..|ts| - 2] == a;
    assert IsSimple(ts);
  }

  lemma MakeDeclare(t: Lexeme, x: Lexeme, e: Lexeme)
    requires t.kind == Zmienna && x.kind == Identyfikator && e.kind == Srednik
    ensures IsStmt([t, x, e])
  {
    hide IsExpr, IsArgs;
    assert IsSimple([t, x, e]);
  }

  lemma MakeDefine(t: Lexeme, x: Lexeme, q: Lexeme, a: Lexemes, e: Lexeme)
    requires t.kind == Zmienna && x.kind == Identyfikator && q.kind == Przypisanie && IsExpr(a, 0) && e.kind == Srednik
    ensures IsStmt([t, x, q] + a + [e])
  {
    hide IsExpr, IsArgs;
    var ts := [t, x, q] + a + [e];
    assert ts[3..|ts| - 1] == a;
    assert IsSimple(ts);
  }

  lemma MakeAssign(x: Lexeme, q: Lexeme, a: Lexemes, e: Lexeme)
    requires x.kind == Identyfikator && q.kind == Przypisanie && IsExpr(a, 0) && e.kind == Srednik
    ensures IsStmt([x, q] + a + [e])
  {
    hide IsExpr, IsArgs;
    var ts := [x, q] + a + [e];
    assert ts[2..|ts| - 1] == a;
    assert IsSimple(ts);
  }
}
