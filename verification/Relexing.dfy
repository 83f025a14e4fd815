/** Lexing printed tokens gives the tokens back (kernel/lang/polskiscript.c). */
module Relexing {
  import opened Numerals
  import opened Lexer
  import opened Syntax
  import opened Ast

  // ----- One token -----

  predicate AllWord(s: string) { forall i :: 0 <= i < |s| ==> IsWord(s[i]) }

  predicate AllDigits(s: string) { forall i :: 0 <= i < |s| ==> IsDigit(s[i]) }

  /** A token whose text, followed by a blank, is read as that token. */
  predicate GoodToken(t: Lexeme) {
    var v := t.value;
    match t.kind
    case Liczba => 0 < |v| <= 255 && AllDigits(v)
    case Tekst => IsText(v)
    case Identyfikator => IsName(v)
    case _ =>
      || (v in KEYWORDS && KEYWORDS[v] == t.kind)
      || (|v| == 1 && SingleKind(v[0]) == t.kind && t.kind != Nieznany)
      || (|v| == 2 && PairKind(v[0], v[1]) == t.kind && t.kind != Nieznany)
  }

  lemma {:induction false} WordReach(w: string, rest: string)
    requires AllWord(w)
    ensures WordLength(w + " " + rest) == |w|
  {
    var s := w + " " + rest;
    if w != "" {
      assert s[1..] == w[1..] + " " + rest;
      WordReach(w[1..], rest);
    }
  }

  lemma {:induction false} NumberReach(d: string, rest: string)
    requires AllDigits(d)
    ensures NumberLength(d + " " + rest, false) == |d|
  {
    var s := d + " " + rest;
    if d != "" {
      assert s[1..] == d[1..] + " " + rest;
      NumberReach(d[1..], rest);
    }
  }

  lemma {:induction false} TextReach(v: string, rest: string)
    requires '"' !in v
    ensures TextLength(v + "\"" + rest) == |v|
  {
    var s := v + "\"" + rest;
    if v != "" {
      assert s[1..] == v[1..] + "\"" + rest;
      TextReach(v[1..], rest);
    }
  }

  lemma {:induction false} DigitsShort(n: nat, k: nat)
    requires k > 0 && n < Power10(k)
    ensures |Decimal(n)| <= k
  {
    hide Decimal;
    DecimalStep(n);
    if n >= 10 {
      DigitsShort(n / 10, k - 1);
    }
  }

  function Power10(k: nat): nat {
    if k == 0 then 1 else 10 * Power10(k - 1)
  }

  lemma ScanWord(t: Lexeme, rest: string)
    requires 0 < |t.value| <= 255 && AllWord(t.value) && IsLetter(t.value[0]) && WordKind(t.value) == t.kind
    ensures Scan(t.value + " " + rest) == (t, |t.value|)
  {
    hide KEYWORDS;
    WordReach(t.value, rest);
    assert (t.value + " " + rest)[..|t.value|] == t.value;
  }

  lemma ScanNumber(t: Lexeme, rest: string)
    requires t.kind == Liczba && 0 < |t.value| <= 255 && AllDigits(t.value)
    ensures Scan(t.value + " " + rest) == (t, |t.value|)
  {
    NumberReach(t.value, rest);
    assert (t.value + " " + rest)[..|t.value|] == t.value;
  }

  lemma ScanQuoted(t: Lexeme, rest: string)
    requires t.kind == Tekst && IsText(t.value)
    ensures Scan(LexemeText(t) + " " + rest) == (t, |t.value| + 2)
  {
    hide Scan;
    var s := LexemeText(t) + " " + rest;
    assert s[1..] == t.value + "\"" + (" " + rest);
    TextReach(t.value, " " + rest);
    assert s[1..][..|t.value|] == t.value;
    ScanText(s);
  }

  lemma ScanSymbol(t: Lexeme, rest: string)
    requires t.kind != Nieznany
    requires (|t.value| == 1 && SingleKind(t.value[0]) == t.kind) ||
             (|t.value| == 2 && PairKind(t.value[0], t.value[1]) == t.kind)
    ensures Scan(t.value + " " + rest) == (t, |t.value|)
  {
    hide Scan, SingleKind, PairKind;
    if |t.value| == 1 {
      ScanSingle(t.value[0], rest);
      assert t.value == [t.value[0]];
    } else {
      ScanPair(t.value[0], t.value[1], rest);
      assert t.value == [t.value[0], t.value[1]];
    }
  }

  lemma ScanSingle(c: char, rest: string)
    requires SingleKind(c) != Nieznany
    ensures Scan([c] + " " + rest) == (Lexeme(SingleKind(c), [c]), 1)
  {
    hide KEYWORDS;
    var s := [c] + " " + rest;
    assert s[..1] == [c] && CharAt(s, 1) == ' ';
  }

  lemma ScanPair(c: char, d: char, rest: string)
    requires PairKind(c, d) != Nieznany
    ensures Scan([c, d] + " " + rest) == (Lexeme(PairKind(c, d), [c, d]), 2)
  {
    hide KEYWORDS, SingleKind;
    var s := [c, d] + " " + rest;
    assert s[..2] == [c, d] && CharAt(s, 1) == d;
  }

  lemma KeywordsAreWords(w: string)
    requires w in KEYWORDS
    ensures 0 < |w| <= 255 && AllWord(w) && IsLetter(w[0])
    ensures KEYWORDS[w] !in {Tekst, Liczba}
  {
  }

  lemma ScanToken(t: Lexeme, rest: string)
    requires GoodToken(t)
    ensures Scan(LexemeText(t) + " " + rest) == (t, |LexemeText(t)|)
  {
    hide Scan, SingleKind, PairKind;
    if t.kind == Liczba {
      ScanNumber(t, rest);
    } else if t.kind == Tekst {
      ScanQuoted(t, rest);
    } else if t.kind == Identyfikator {
      ScanWord(t, rest);
    } else if t.value in KEYWORDS && KEYWORDS[t.value] == t.kind {
      KeywordsAreWords(t.value);
      ScanWord(t, rest);
    } else {
      ScanSymbol(t, rest);
    }
  }

  /** A printed token starts with neither a blank nor a comment. */
  lemma NoGapHere(t: Lexeme, rest: string)
    requires GoodToken(t)
    ensures FirstPiece(LexemeText(t) + " " + rest) == 0
  {
    var s := LexemeText(t) + " " + rest;
    if t.value in KEYWORDS && KEYWORDS[t.value] == t.kind {
      KeywordsAreWords(t.value);
    }
    assert !IsBlank(s[0]);
    if s[0] == '/' {
      assert s[1] == ' ';
    }
  }

  // ----- All tokens -----

  lemma TokensStep(s: string, g: nat, t: Lexeme, n: nat)
    requires g == Gap(s) < |s| && Scan(s[g..]) == (t, n)
    ensures g + n <= |s| && Tokens(s) == [t] + Tokens(s[g + n..])
  {
    hide Scan, Gap;
  }

  lemma GapBlank(s: string)
    ensures Gap(" " + s) == 1 + Gap(s)
  {
    assert (" " + s)[1..] == s;
  }

  lemma NoTokens(s: string)
    requires Gap(s) == |s|
    ensures Tokens(s) == []
  {
    hide Gap, Scan;
  }

  lemma BlankFirst(s: string)
    ensures Tokens(" " + s) == Tokens(s)
  {
    hide Scan, Gap, Tokens;
    var g, s' := Gap(s), " " + s;
    GapBlank(s);
    if g == |s| {
      NoTokens(s);
      NoTokens(s');
    } else {
      var (t, n) := Scan(s[g..]);
      assert s'[1 + g..] == s[g..];
      TokensStep(s, g, t, n);
      TokensStep(s', 1 + g, t, n);
      assert s'[1 + g + n..] == s[g + n..];
    }
  }

  /** The lexer reads rendered tokens back. */
  lemma {:induction false} LexUndoesRender(ts: seq<Lexeme>)
    requires forall i :: 0 <= i < |ts| ==> GoodToken(ts[i])
    ensures Tokens(Render(ts)) == ts
  {
    hide Scan, GoodToken, FirstPiece, LexemeText, Tokens;
    if ts == [] {
      NoTokens("");
    } else {
      var t, rest := ts[0], Render(ts[1..]);
      var s := LexemeText(t) + " " + rest;
      LexUndoesRender(ts[1..]);
      ScanToken(t, rest);
      NoGapHere(t, rest);
      BlankFirst(rest);
      assert s[0..] == s;
      TokensStep(s, 0, t, |LexemeText(t)|);
      assert s[|LexemeText(t)|..] == " " + rest;
    }
  }

  lemma NoNul(t: Lexeme)
    requires GoodToken(t)
    ensures '\0' !in LexemeText(t)
  {
    if t.value in KEYWORDS && KEYWORDS[t.value] == t.kind {
      KeywordsAreWords(t.value);
    }
  }

  /** Rendered tokens are a C string. */
  lemma {:induction false} RenderNoNul(ts: seq<Lexeme>)
    requires forall i :: 0 <= i < |ts| ==> GoodToken(ts[i])
    ensures '\0' !in Render(ts)
  {
    hide GoodToken, LexemeText;
    if ts != [] {
      NoNul(ts[0]);
      RenderNoNul(ts[1..]);
    }
  }

  // ----- The tokens of a program -----

  ghost predicate Writable(ts: seq<Lexeme>) { forall i :: 0 <= i < |ts| ==> GoodToken(ts[i]) }

  lemma NumberToken(n: nat)
    requires n < 0x8000_0000_0000_0000
    ensures GoodToken(Lexeme(Liczba, Decimal(n)))
  {
    DecimalDigits(n);
    assert Power10(4) == 10_000;
    assert Power10(8) == 10_000 * Power10(4);
    assert Power10(12) == 10_000 * Power10(8);
    assert Power10(16) == 10_000 * Power10(12);
    assert Power10(19) == 1_000 * Power10(16);
    DigitsShort(n, 19);
  }

  lemma SymbolToken(t: Lexeme)
    requires t.kind !in {Liczba, Tekst, Identyfikator, Nieznany}
    requires (|t.value| == 1 && SingleKind(t.value[0]) == t.kind) ||
             (|t.value| == 2 && PairKind(t.value[0], t.value[1]) == t.kind)
    ensures GoodToken(t)
  {
    hide KEYWORDS, SingleKind, PairKind;
  }

  lemma KeywordToken(t: Lexeme)
    requires t.value in KEYWORDS && KEYWORDS[t.value] == t.kind && t.kind !in {Liczba, Tekst, Identyfikator}
    ensures GoodToken(t)
  {
    hide KEYWORDS, SingleKind, PairKind;
  }

  lemma OperatorToken(op: Kind)
    requires op == Nie || IsOperator(LevelOf(op), op)
    ensures GoodToken(Lexeme(op, OpText(op)))
  {
    hide GoodToken, KEYWORDS;
    SymbolToken(Lexeme(op, OpText(op)));
  }

  lemma SingleToken(kind: Kind, c: char)
    requires SingleKind(c) == kind && kind != Nieznany
    ensures GoodToken(Lexeme(kind, [c]))
  {
    hide KEYWORDS, PairKind;
  }

  lemma Brackets()
    ensures GoodToken(Lexeme(NawiasLewy, "(")) && GoodToken(Lexeme(NawiasPrawy, ")")) &&
            GoodToken(Lexeme(Przecinek, ","))
    ensures GoodToken(Lexeme(KlamraLewa, "{")) && GoodToken(Lexeme(KlamraPrawa, "}")) && GoodToken(END) &&
            GoodToken(SET)
  {
    hide GoodToken;
    SingleToken(NawiasLewy, '(');
    SingleToken(NawiasPrawy, ')');
    SingleToken(Przecinek, ',');
    SingleToken(KlamraLewa, '{');
    SingleToken(KlamraPrawa, '}');
    SingleToken(Srednik, ';');
    SingleToken(Przypisanie, '=');
  }

  lemma Words()
    ensures GoodToken(Lexeme(Prawda, "prawda")) && GoodToken(Lexeme(Falsz, "falsz")) && GoodToken(Lexeme(Nic, "nic"))
    ensures GoodToken(Lexeme(Zmienna, "zmienna")) && GoodToken(Lexeme(Drukuj, "drukuj")) &&
            GoodToken(Lexeme(Jesli, "jesli"))
    ensures GoodToken(Lexeme(Inaczej, "inaczej")) && GoodToken(Lexeme(Dopoki, "dopoki")) &&
            GoodToken(Lexeme(Zwroc, "zwroc"))
    ensures GoodToken(Lexeme(Przerwij, "przerwij")) && GoodToken(Lexeme(Kontynuuj, "kontynuuj"))
  {
    hide GoodToken;
    KeywordToken(Lexeme(Prawda, "prawda"));
    KeywordToken(Lexeme(Falsz, "falsz"));
    KeywordToken(Lexeme(Nic, "nic"));
    KeywordToken(Lexeme(Zmienna, "zmienna"));
    KeywordToken(Lexeme(Drukuj, "drukuj"));
    KeywordToken(Lexeme(Jesli, "jesli"));
    KeywordToken(Lexeme(Inaczej, "inaczej"));
    KeywordToken(Lexeme(Dopoki, "dopoki"));
    KeywordToken(Lexeme(Zwroc, "zwroc"));
    KeywordToken(Lexeme(Przerwij, "przerwij"));
    KeywordToken(Lexeme(Kontynuuj, "kontynuuj"));
  }

  lemma {:induction false} ExprWritable(e: Expr, k: nat)
    requires GoodExpr(e)
    ensures Writable(ExprTokens(e, k))
    decreases e, if Strength(e) < k then 1 else 0
  {
    hide GoodToken, LevelOf, IsOperator, OpText, Decimal;
    Brackets();
    Words();
    if Strength(e) < k {
      ExprWritable(e, 0);
    } else {
      match e
      case Num(n) => NumberToken(n);
      case Text(s) => TextToken(s);
      case Name(x) => NameToken(x);
      case Apply(f, args) =>
        NameToken(f);
        ArgsWritable(args);
      case Prefix(op, e1) =>
        PrefixOperator(op);
        OperatorToken(op);
        ExprWritable(e1, 4);
      case Infix(op, l, r) =>
        OperatorToken(op);
        ExprWritable(l, LevelOf(op));
        ExprWritable(r, LevelOf(op) + 1);
      case _ =>
    }
  }

  lemma PrefixOperator(op: Kind)
    requires op in {Minus, Nie}
    ensures op == Nie || IsOperator(LevelOf(op), op)
  {
  }

  lemma TextToken(s: string)
    requires IsText(s)
    ensures GoodToken(Lexeme(Tekst, s))
  {
  }

  lemma NameToken(x: string)
    requires IsName(x)
    ensures GoodToken(Lexeme(Identyfikator, x))
  {
  }

  lemma {:induction false} ArgsWritable(es: seq<Expr>)
    requires GoodExprs(es)
    ensures Writable(ArgTokens(es))
    decreases es, 0
  {
    hide GoodToken, ExprTokens;
    Brackets();
    if es != [] {
      ExprWritable(es[0], 0);
      if |es| > 1 {
        ArgsWritable(es[1..]);
      }
    }
  }

  lemma GuardWritable(c: Expr)
    requires GoodExpr(c)
    ensures Writable(GuardTokens(c))
  {
    hide GoodToken, ExprTokens;
    Brackets();
    ExprWritable(c, 0);
  }

  lemma SimpleWritable(s: Stmt)
    requires Good(s) && !s.If? && !s.IfElse? && !s.While? && !s.Group?
    ensures Writable(StmtTokens(s))
  {
    hide GoodToken, ExprTokens, ArgTokens;
    Brackets();
    Words();
    match s
    case Declare(x) => NameToken(x);
    case Define(x, e) =>
      NameToken(x);
      ExprWritable(e, 0);
    case Assign(x, e) =>
      NameToken(x);
      ExprWritable(e, 0);
    case Print(args) => ArgsWritable(args);
    case ReturnValue(e) => ExprWritable(e, 0);
    case _ =>
  }

  lemma {:induction false} StmtWritable(s: Stmt)
    requires Good(s)
    ensures Writable(StmtTokens(s))
    decreases s, 0
  {
    hide GoodToken, GuardTokens, BlockTokens;
    match s
    case If(c, t) =>
      Words();
      GuardWritable(c);
      BlockWritable(t);
    case IfElse(c, t, f) =>
      Words();
      GuardWritable(c);
      BlockWritable(t);
      BlockWritable(f);
    case While(c, body) =>
      Words();
      GuardWritable(c);
      BlockWritable(body);
    case Group(body) => BlockWritable(body);
    case _ => SimpleWritable(s);
  }

  lemma {:induction false} BlockWritable(ss: seq<Stmt>)
    requires AllGood(ss)
    ensures Writable(BlockTokens(ss))
    decreases ss, 1
  {
    hide GoodToken, StmtsTokens;
    Brackets();
    StmtsWritable(ss);
  }

  lemma {:induction false} StmtsWritable(ss: seq<Stmt>)
    requires AllGood(ss)
    ensures Writable(StmtsTokens(ss))
    decreases ss, 0
  {
    hide GoodToken, StmtTokens;
    if ss != [] {
      StmtWritable(ss[0]);
      StmtsWritable(ss[1..]);
    }
  }
}
