/** The PolskiScript lexer (kernel/lang/polskiscript.c). */
module Lexer {
  import opened Numerals

  /** Token types, named as in the source. */
  datatype Kind =
    | Liczba | Tekst | Prawda | Falsz | Nic
    | Identyfikator | Plus | Minus | Mnozenie | Dzielenie | Modulo
    | Rowne | Nierowne | Mniejsze | Wieksze | MniejszeRowne | WiekszeRowne
    | Przypisanie | I | Lub | Nie
    | Zmienna | Funkcja | Zwroc | Jesli | Inaczej | Dopoki | Dla | Drukuj | Wczytaj | Przerwij | Kontynuuj
    | Srednik | Przecinek | Kropka | Dwukropek
    | NawiasLewy | NawiasPrawy | KwadratLewy | KwadratPrawy | KlamraLewa | KlamraPrawa
    | Koniec | Nieznany

  datatype Lexeme = Lexeme(kind: Kind, value: string)

  datatype Token = Token(lexeme: Lexeme, line: nat, column: nat)

  // ----- Characters -----

  predicate IsBlank(c: char) { c == ' ' || c == '\t' || c == '\r' || c == '\n' }

  predicate IsLetter(c: char) { 'a' <= c <= 'z' || 'A' <= c <= 'Z' || c == '_' }

  predicate IsWord(c: char) { IsLetter(c) || IsDigit(c) }

  /** The character at `i`, or NUL at the end of the string. */
  function CharAt(s: string, i: nat): char {
    if i < |s| then s[i] else '\0'
  }

  // ----- The text before a token -----

  /** The length of the comment or line rest at the start of `s`: up to the newline. */
  function LineRest(s: string): (n: nat)
    ensures n <= |s| && '\n' !in s[..n] && (n < |s| ==> s[n] == '\n')
  {
    if s == "" || s[0] == '\n' then 0 else 1 + LineRest(s[1..])
  }

  predicate IsComment(s: string) { CharAt(s, 0) == '/' && CharAt(s, 1) == '/' }

  /** The length of the blank or comment at the start of `s`; 0 if there is none. */
  function FirstPiece(s: string): (n: nat)
    ensures n <= |s|
  {
    if s == "" then 0 else if IsBlank(s[0]) then 1 else if IsComment(s) then LineRest(s) else 0
  }

  /** The number of characters of white space and comments at the start of `s`. */
  function Gap(s: string): (n: nat)
    ensures n <= |s|
    decreases |s|
  {
    var n := FirstPiece(s);
    if n == 0 then 0 else n + Gap(s[n..])
  }

  /** The length of the run of blanks at the start of `s`. */
  function BlankLength(s: string): (n: nat)
    ensures n <= |s| && (forall i :: 0 <= i < n ==> IsBlank(s[i])) && (n < |s| ==> !IsBlank(s[n]))
  {
    if s == "" || !IsBlank(s[0]) then 0 else 1 + BlankLength(s[1..])
  }

  /** The blanks are a part of the gap. */
  lemma {:induction false} GapBlanks(s: string)
    ensures Gap(s) == BlankLength(s) + Gap(s[BlankLength(s)..])
  {
    var n := BlankLength(s);
    if n == 0 {
      assert s[0..] == s;
    } else {
      GapBlanks(s[1..]);
      assert s[1..][n - 1..] == s[n..];
    }
  }

  lemma GapComment(s: string)
    requires IsComment(s)
    ensures LineRest(s) > 0 && Gap(s) == LineRest(s) + Gap(s[LineRest(s)..])
  {
  }

  lemma NoGapAt(s: string)
    requires s == "" || (!IsBlank(s[0]) && !IsComment(s))
    ensures Gap(s) == 0
  {
  }

  // ----- One token -----

  /** The length of the run of word characters at the start of `s`. */
  function WordLength(s: string): (n: nat)
    ensures n <= |s|
  {
    if s == "" || !IsWord(s[0]) then 0 else 1 + WordLength(s[1..])
  }

  /** Digits, with at most one dot. */
  function NumberLength(s: string, dot: bool): (n: nat)
    ensures n <= |s|
  {
    if s == "" then 0
    else if IsDigit(s[0]) then 1 + NumberLength(s[1..], dot)
    else if s[0] == '.' && !dot then 1 + NumberLength(s[1..], true)
    else 0
  }

  /** The characters before the next quote, or before the end. */
  function TextLength(s: string): (n: nat)
    ensures n <= |s|
  {
    if s == "" || s[0] == '"' then 0 else 1 + TextLength(s[1..])
  }

  /** Token values hold at most 255 characters. */
  function Clip(s: string): string {
    if |s| <= 255 then s else s[..255]
  }

  const KEYWORDS: map<string, Kind> := map[
    "zmienna" := Zmienna, "funkcja" := Funkcja, "zwroc" := Zwroc, "jesli" := Jesli, "inaczej" := Inaczej,
    "dopoki" := Dopoki, "dla" := Dla, "drukuj" := Drukuj, "wczytaj" := Wczytaj, "przerwij" := Przerwij,
    "kontynuuj" := Kontynuuj, "prawda" := Prawda, "falsz" := Falsz, "nic" := Nic]

  function WordKind(w: string): Kind {
    if w in KEYWORDS then KEYWORDS[w] else Identyfikator
  }

  function PairKind(a: char, b: char): Kind {
    if a == '=' && b == '=' then Rowne
    else if a == '!' && b == '=' then Nierowne
    else if a == '<' && b == '=' then MniejszeRowne
    else if a == '>' && b == '=' then WiekszeRowne
    else if a == '&' && b == '&' then I
    else if a == '|' && b == '|' then Lub
    else Nieznany
  }

  function SingleKind(c: char): Kind {
    match c
    case '+' => Plus
    case '-' => Minus
    case '*' => Mnozenie
    case '/' => Dzielenie
    case '%' => Modulo
    case '<' => Mniejsze
    case '>' => Wieksze
    case '=' => Przypisanie
    case '!' => Nie
    case ';' => Srednik
    case ',' => Przecinek
    case '.' => Kropka
    case ':' => Dwukropek
    case '(' => NawiasLewy
    case ')' => NawiasPrawy
    case '[' => KwadratLewy
    case ']' => KwadratPrawy
    case '{' => KlamraLewa
    case '}' => KlamraPrawa
    case _ => Nieznany
  }

  /** The token at the start of `s`, and how many characters it takes. */
  function Scan(s: string): (r: (Lexeme, nat))
    ensures r.1 <= |s| && (s != "" ==> r.1 > 0)
    ensures r.0.kind == Koniec <==> s == ""
  {
    if s == "" then (Lexeme(Koniec, ""), 0)
    else if IsDigit(s[0]) then
      var n := NumberLength(s, false);
      (Lexeme(Liczba, Clip(s[..n])), n)
    else if s[0] == '"' then
      var n := TextLength(s[1..]);
      (Lexeme(Tekst, Clip(s[1..][..n])), if n + 1 < |s| then n + 2 else n + 1)
    else if IsLetter(s[0]) then
      var n := WordLength(s);
      (Lexeme(WordKind(Clip(s[..n])), Clip(s[..n])), n)
    else if PairKind(s[0], CharAt(s, 1)) != Nieznany then
      (Lexeme(PairKind(s[0], CharAt(s, 1)), s[..2]), 2)
    else
      (Lexeme(SingleKind(s[0]), s[..1]), 1)
  }

  /** All tokens of `s` before the end token. */
  function Tokens(s: string): (ts: seq<Lexeme>)
    ensures forall i :: 0 <= i < |ts| ==> ts[i].kind != Koniec
    decreases |s|
  {
    var g := Gap(s);
    var (lexeme, n) := Scan(s[g..]);
    if g == |s| then [] else [lexeme] + Tokens(s[g + n..])
  }

  // ----- The tables -----

  lemma CharactersExact(c: char)
    ensures IsBlank(c) <==> c in {' ', '\t', '\r', '\n'}
    ensures IsDigit(c) <==> 0 <= c as int - '0' as int < 10
    ensures IsLetter(c) <==> c == '_' || 0 <= c as int - 'a' as int < 26 || 0 <= c as int - 'A' as int < 26
  {
  }

  /** Fourteen words are keywords. */
  lemma KeywordsOnly(w: string)
    ensures WordKind(w) != Identyfikator ==>
              w in {"zmienna", "funkcja", "zwroc", "jesli", "inaczej", "dopoki", "dla", "drukuj", "wczytaj",
                    "przerwij", "kontynuuj", "prawda", "falsz", "nic"}
  {
  }

  lemma DeclarationWords()
    ensures WordKind("zmienna") == Zmienna
    ensures WordKind("funkcja") == Funkcja
    ensures WordKind("drukuj") == Drukuj
    ensures WordKind("wczytaj") == Wczytaj
  {
  }

  lemma ControlWords()
    ensures WordKind("jesli") == Jesli
    ensures WordKind("inaczej") == Inaczej
    ensures WordKind("dopoki") == Dopoki
    ensures WordKind("dla") == Dla
  {
  }

  lemma LeavingWords()
    ensures WordKind("zwroc") == Zwroc
    ensures WordKind("przerwij") == Przerwij
    ensures WordKind("kontynuuj") == Kontynuuj
  {
  }

  lemma ValueWords()
    ensures WordKind("prawda") == Prawda
    ensures WordKind("falsz") == Falsz
    ensures WordKind("nic") == Nic
  {
  }

  /** The kinds of the single characters. */
  lemma SymbolsExact(c: char)
    ensures SingleKind('+') == Plus && SingleKind('-') == Minus && SingleKind('*') == Mnozenie
    ensures SingleKind('/') == Dzielenie && SingleKind('%') == Modulo && SingleKind('!') == Nie
    ensures SingleKind('<') == Mniejsze && SingleKind('>') == Wieksze && SingleKind('=') == Przypisanie
    ensures SingleKind(';') == Srednik && SingleKind(',') == Przecinek
    ensures SingleKind('.') == Kropka && SingleKind(':') == Dwukropek
    ensures SingleKind('(') == NawiasLewy && SingleKind(')') == NawiasPrawy
    ensures SingleKind('[') == KwadratLewy && SingleKind(']') == KwadratPrawy
    ensures SingleKind('{') == KlamraLewa && SingleKind('}') == KlamraPrawa
    ensures SingleKind(c) != Nieznany ==>
              c in {'+', '-', '*', '/', '%', '<', '>', '=', '!', ';', ',', '.', ':', '(', ')', '[', ']', '{', '}'}
  {
  }

  /** The pairs of characters that are one token. */
  lemma PairsExact(c: char, d: char)
    ensures PairKind('=', '=') == Rowne && PairKind('!', '=') == Nierowne && PairKind('<', '=') == MniejszeRowne
    ensures PairKind('>', '=') == WiekszeRowne && PairKind('&', '&') == I && PairKind('|', '|') == Lub
    ensures PairKind(c, d) != Nieznany ==> (d == '=' && c in {'=', '!', '<', '>'}) || (c == d && c in {'&', '|'})
  {
  }

  /** A word is the longest run of word characters, a text ends at the first quote. */
  lemma {:induction false} LengthsExact(s: string)
    ensures var n := WordLength(s); (forall i :: 0 <= i < n ==> IsWord(s[i])) && (n < |s| ==> !IsWord(s[n]))
    ensures var n := TextLength(s); '"' !in s[..n] && (n < |s| ==> s[n] == '"')
  {
    if s != "" {
      LengthsExact(s[1..]);
    }
  }

  predicate OneDot(s: string) {
    forall i, j :: 0 <= i < j < |s| ==> !(s[i] == '.' && s[j] == '.')
  }

  /** A number is the longest run of digits with at most one dot, or none if `dot`. */
  lemma {:induction false} NumberExact(s: string, dot: bool)
    ensures var n := NumberLength(s, dot);
            && (forall i :: 0 <= i < n ==> IsDigit(s[i]) || s[i] == '.')
            && OneDot(s[..n]) && (dot ==> '.' !in s[..n])
            && (n < |s| ==> !IsDigit(s[n]) && (s[n] == '.' ==> dot || '.' in s[..n]))
    decreases |s|
  {
    if s != "" && (IsDigit(s[0]) || (s[0] == '.' && !dot)) {
      var d, n := dot || s[0] == '.', NumberLength(s, dot);
      NumberExact(s[1..], d);
      assert s[..n] == [s[0]] + s[1..][..n - 1];
      assert n < |s| ==> s[n] == s[1..][n - 1];
    }
  }

  // ----- The spans of tokens -----

  /** One blank, or one comment. */
  predicate IsPiece(p: string) {
    (|p| == 1 && IsBlank(p[0])) || (|p| >= 2 && IsComment(p) && '\n' !in p)
  }

  /** Nothing but white space and comments. */
  ghost predicate OnlyGaps(s: string)
    decreases |s|
  {
    s == "" || exists n :: 0 < n <= |s| && IsPiece(s[..n]) && OnlyGaps(s[n..])
  }

  lemma OnlyGapsStep(p: string, s: string)
    requires p != "" && IsPiece(p) && OnlyGaps(s)
    ensures OnlyGaps(p + s)
  {
    assert (p + s)[..|p|] == p && (p + s)[|p|..] == s;
  }

  /** What is skipped is white space and comments, and all of it. */
  lemma {:induction false} GapIsGap(s: string)
    ensures OnlyGaps(s[..Gap(s)]) && Gap(s[Gap(s)..]) == 0
    decreases |s|
  {
    hide OnlyGaps, FirstPiece, IsPiece;
    var g, n := Gap(s), FirstPiece(s);
    if n == 0 {
      NoGap();
      assert s[..0] == "" && s[0..] == s;
    } else {
      FirstIsPiece(s);
      GapIsGap(s[n..]);
      assert s[g..] == s[n..][g - n..];
      OnlyGapsStep(s[..n], s[n..][..g - n]);
      assert s[..g] == s[..n] + s[n..][..g - n];
    }
  }

  lemma FirstIsPiece(s: string)
    requires FirstPiece(s) > 0
    ensures IsPiece(s[..FirstPiece(s)])
  {
    if !IsBlank(s[0]) {
      assert s[0] == '/' && s[1] == '/';
      assert LineRest(s) >= 2;
    }
  }

  lemma NoGap()
    ensures OnlyGaps("")
  {
  }

  /** Where each token of `s` starts and ends, the end token excepted. */
  function Spans(s: string, base: nat): seq<(nat, nat)>
    decreases |s|
  {
    var g := Gap(s);
    var n := Scan(s[g..]).1;
    if g == |s| then [] else [(base + g, base + g + n)] + Spans(s[g + n..], base + g + n)
  }

  /** Offset at which the text after the first `i` tokens starts. */
  function After(spans: seq<(nat, nat)>, i: nat, base: nat): nat
    requires i <= |spans|
  {
    if i == 0 then base else spans[i - 1].1
  }

  lemma {:induction false} SpansCount(s: string, base: nat)
    ensures |Spans(s, base)| == |Tokens(s)|
    decreases |s|
  {
    hide Scan, Gap;
    var g := Gap(s);
    if g < |s| {
      var n := Scan(s[g..]).1;
      SpansCount(s[g + n..], base + g + n);
    }
  }

  /** Between the tokens, and around token `i`, the layout of the source text. */
  ghost predicate LaidOut(src: string, sp: seq<(nat, nat)>, base: nat, i: nat)
    requires i <= |sp|
  {
    var a := After(sp, i, base);
    if i < |sp| then base <= a <= sp[i].0 < sp[i].1 <= |src| && OnlyGaps(src[a..sp[i].0])
    else base <= a <= |src| && OnlyGaps(src[a..])
  }

  /** Tokens are not empty and come in order without overlap, and between them, before the
      first and after the last there is nothing but white space and comments. */
  lemma {:induction false} SpansInOrder(src: string, base: nat, i: nat)
    requires base <= |src| && i <= |Spans(src[base..], base)|
    ensures LaidOut(src, Spans(src[base..], base), base, i)
    decreases |src| - base
  {
    hide Scan, OnlyGaps, Gap, Spans, LaidOut;
    var s := src[base..];
    var g := Gap(s);
    SpansUnfold(s, base);
    GapIsGap(s);
    if g == |s| {
      assert s[..g] == s;
      LaidOutEnd(src, base);
    } else {
      var n := Scan(s[g..]).1;
      var sp' := Spans(s[g + n..], base + g + n);
      assert s[g + n..] == src[base + g + n..];
      if i > 0 {
        SpansInOrder(src, base + g + n, i - 1);
        LaidOutShift(src, (base + g, base + g + n), sp', base, i);
      } else {
        assert src[base..base + g] == s[..g];
        LaidOutFirst(src, (base + g, base + g + n), sp', base);
      }
    }
  }

  lemma SpansUnfold(s: string, base: nat)
    ensures var g, n := Gap(s), Scan(s[Gap(s)..]).1;
            Spans(s, base) ==
            if g == |s| then [] else [(base + g, base + g + n)] + Spans(s[g + n..], base + g + n)
  {
    hide Gap, Scan;
  }

  lemma LaidOutEnd(src: string, base: nat)
    requires base <= |src| && OnlyGaps(src[base..])
    ensures LaidOut(src, [], base, 0)
  {
    hide OnlyGaps;
  }

  lemma LaidOutFirst(src: string, first: (nat, nat), sp: seq<(nat, nat)>, base: nat)
    requires base <= first.0 < first.1 <= |src| && OnlyGaps(src[base..first.0])
    ensures LaidOut(src, [first] + sp, base, 0)
  {
    hide OnlyGaps;
  }

  lemma LaidOutShift(src: string, first: (nat, nat), sp: seq<(nat, nat)>, base: nat, i: nat)
    requires 0 < i <= |sp| + 1 && base <= first.1 && LaidOut(src, sp, first.1, i - 1)
    ensures LaidOut(src, [first] + sp, base, i)
  {
    hide OnlyGaps;
  }

  // ----- True positions -----

  /** `line` and `column` are the position of offset `p`: one more than the newlines before
      it, and one more than the characters since the last of them. */
  ghost predicate IsPosition(s: string, p: nat, line: nat, column: nat) {
    && p <= |s| && line == 1 + multiset(s[..p])['\n']
    && 1 <= column <= p + 1 && '\n' !in s[p + 1 - column..p] && (column == p + 1 || s[p - column] == '\n')
  }

  lemma PositionUnique(s: string, p: nat, l: nat, c: nat, l': nat, c': nat)
    requires IsPosition(s, p, l, c) && IsPosition(s, p, l', c')
    ensures l == l' && c == c'
  {
  }

  class Lexer {
    const source: string
    var pos: nat
    var line: nat
    var column: nat
    var current: char

    constructor (source: string)
      requires '\0' !in source
      ensures this.source == source && Valid() && pos == 0
    {
      this.source := source;
      pos, line, column := 0, 1, 1;
      current := CharAt(source, 0);
    }

    /** The line and column are those of `pos`. */
    ghost predicate Valid()
      reads this
    {
      '\0' !in source && pos <= |source| && current == CharAt(source, pos) && IsPosition(source, pos, line, column)
    }

    ghost function Rest(): string
      requires pos <= |source|
      reads this
    {
      source[pos..]
    }

    /** At the end of the source, and only there, the current character is NUL. */
    lemma AtEnd()
      requires Valid()
      ensures current == '\0' <==> Rest() == ""
      ensures Rest() != "" ==> current == Rest()[0]
    {
    }

    method Advance()
      requires Valid()
      modifies this
      ensures Valid() && pos == if old(pos) < |source| then old(pos) + 1 else old(pos)
      ensures Rest() == if old(Rest()) == "" then "" else old(Rest())[1..]
    {
      hide IsPosition;
      AtEnd();
      if CharAt(source, pos) == '\0' {
        current := '\0';
        return;
      }
      StepPosition(source, pos, line, column);
      if current == '\n' {
        line := line + 1;
        column := 1;
      } else {
        column := column + 1;
      }
      pos := pos + 1;
      current := CharAt(source, pos);
    }

    method SkipWhitespace()
      requires Valid()
      modifies this
      ensures Valid() && pos == old(pos) + BlankLength(old(Rest()))
    {
      hide IsPosition;
      while IsBlank(current)
        invariant Valid() && old(pos) + BlankLength(old(Rest())) == pos + BlankLength(Rest())
        decreases |source| - pos
      {
        AtEnd();
        Advance();
      }
      AtEnd();
    }

    method SkipComment()
      requires Valid()
      modifies this
      ensures Valid()
      ensures pos == old(pos) + if IsComment(old(Rest())) then LineRest(old(Rest())) else 0
    {
      hide IsPosition;
      AtEnd();
      if current == '/' && CharAt(source, pos + 1) == '/' {
        while current != '\n' && current != '\0'
          invariant Valid() && old(pos) <= pos
          invariant old(pos) + LineRest(old(Rest())) == pos + LineRest(Rest())
          decreases |source| - pos
        {
          AtEnd();
          Advance();
        }
        AtEnd();
      }
    }

    method Number() returns (tok: Token)
      requires Valid() && Rest() != ""
      modifies this
      ensures Valid() && pos == old(pos) + NumberLength(old(Rest()), false)
      ensures var v := Clip(old(Rest())[..NumberLength(old(Rest()), false)]);
              tok == Token(Lexeme(Liczba, v), old(line), old(column))
    {
      hide IsPosition;
      var startLine, startColumn := line, column;
      var num, isFloat := "", false;
      ghost var s, k := Rest(), 0;
      while IsDigit(current) || current == '.'
        invariant Valid() && k <= |s| && pos == old(pos) + k && Rest() == s[k..] && num == Clip(s[..k])
        invariant NumberLength(s, false) == k + NumberLength(Rest(), isFloat)
        decreases |source| - pos
      {
        AtEnd();
        if current == '.' {
          if isFloat {
            break;
          }
          isFloat := true;
        }
        ClipMore(s, k);
        if |num| < 255 {
          num := num + [current];
        }
        Advance();
        k := k + 1;
      }
      AtEnd();
      tok := Token(Lexeme(Liczba, num), startLine, startColumn);
    }

    method Text() returns (tok: Token)
      requires Valid() && Rest() != "" && Rest()[0] == '"'
      modifies this
      ensures Valid() && pos == old(pos) + Scan(old(Rest())).1
      ensures tok == Token(Scan(old(Rest())).0, old(line), old(column))
    {
      hide IsPosition, Scan;
      ScanText(Rest());
      var startLine, startColumn := line, column;
      Advance();
      var str := TextBody();
      AtEnd();
      if current == '"' {
        Advance();
      }
      tok := Token(Lexeme(Tekst, str), startLine, startColumn);
    }

    method TextBody() returns (str: string)
      requires Valid()
      modifies this
      ensures Valid() && pos == old(pos) + TextLength(old(Rest())) &&
              str == Clip(old(Rest())[..TextLength(old(Rest()))])
      ensures Rest() != "" ==> Rest()[0] == '"'
    {
      hide IsPosition;
      str := "";
      ghost var s, k := Rest(), 0;
      while current != '"' && current != '\0'
        invariant Valid() && k <= |s| && pos == old(pos) + k && Rest() == s[k..] && str == Clip(s[..k])
        invariant TextLength(s) == k + TextLength(Rest())
        decreases |source| - pos
      {
        AtEnd();
        ClipMore(s, k);
        if |str| < 255 {
          str := str + [current];
        }
        Advance();
        k := k + 1;
      }
      AtEnd();
    }

    method Word() returns (tok: Token)
      requires Valid()
      modifies this
      ensures Valid() && pos == old(pos) + WordLength(old(Rest()))
      ensures var w := Clip(old(Rest())[..WordLength(old(Rest()))]);
              tok == Token(Lexeme(WordKind(w), w), old(line), old(column))
    {
      hide IsPosition;
      var startLine, startColumn := line, column;
      var id := "";
      ghost var s, k := Rest(), 0;
      while IsWord(current)
        invariant Valid() && k <= |s| && pos == old(pos) + k && Rest() == s[k..] && id == Clip(s[..k])
        invariant WordLength(s) == k + WordLength(Rest())
        decreases |source| - pos
      {
        AtEnd();
        ClipMore(s, k);
        if |id| < 255 {
          id := id + [current];
        }
        Advance();
        k := k + 1;
      }
      AtEnd();
      tok := Token(Lexeme(WordKind(id), id), startLine, startColumn);
    }

    /** Skips white space and comments. */
    method SkipGap()
      requires Valid()
      modifies this
      ensures Valid() && pos == old(pos) + Gap(old(Rest()))
    {
      hide IsPosition, Gap, BlankLength, LineRest;
      while current != '\0'
        invariant Valid() && old(pos) <= pos
        invariant old(pos) + Gap(old(Rest())) == pos + Gap(Rest())
        decreases |source| - pos
      {
        AtEnd();
        ghost var s, p := Rest(), pos;
        if IsBlank(current) {
          GapBlanks(s);
          SkipWhitespace();
          assert Rest() == s[pos - p..];
        } else if current == '/' && CharAt(source, pos + 1) == '/' {
          GapComment(s);
          SkipComment();
          assert Rest() == s[pos - p..];
        } else {
          NoGapAt(s);
          return;
        }
      }
      AtEnd();
      NoGapAt("");
    }

    /** The next token.  The text it skips is white space and comments, and the token's
        position is that of its first character. */
    method NextToken() returns (tok: Token)
      requires Valid()
      modifies this
      ensures Valid()
      ensures var s := old(Rest());
              tok.lexeme == Scan(s[Gap(s)..]).0 && pos == old(pos) + Gap(s) + Scan(s[Gap(s)..]).1
      ensures IsPosition(source, old(pos) + Gap(old(Rest())), tok.line, tok.column)
    {
      hide IsPosition, Scan;
      SkipGap();
      assert old(Rest())[Gap(old(Rest()))..] == Rest();
      AtEnd();
      if current != '\0' {
        tok := OneToken();
      } else {
        ScanEnd();
        tok := Token(Lexeme(Koniec, ""), line, column);
      }
    }

    method OneToken() returns (tok: Token)
      requires Valid() && Rest() != ""
      modifies this
      ensures Valid() && pos == old(pos) + Scan(old(Rest())).1
      ensures tok == Token(Scan(old(Rest())).0, old(line), old(column))
    {
      hide IsPosition;
      AtEnd();
      if IsDigit(current) {
        tok := Number();
        return;
      }
      if current == '"' {
        tok := Text();
        return;
      }
      if IsLetter(current) {
        tok := Word();
        return;
      }
      var startLine, startColumn, ch, next := line, column, current, CharAt(source, pos + 1);
      assert next == CharAt(Rest(), 1);
      if PairKind(ch, next) != Nieznany {
        Advance();
        AtEnd();
        Advance();
        tok := Token(Lexeme(PairKind(ch, next), [ch, next]), startLine, startColumn);
        return;
      }
      Advance();
      tok := Token(Lexeme(SingleKind(ch), [ch]), startLine, startColumn);
    }
  }

  lemma ScanEnd()
    ensures Scan("") == (Lexeme(Koniec, ""), 0)
  {
  }

  lemma ScanText(s: string)
    requires s != "" && s[0] == '"'
    ensures var n := TextLength(s[1..]);
            Scan(s) == (Lexeme(Tekst, Clip(s[1..][..n])), if n + 1 < |s| then n + 2 else n + 1)
  {
  }

  lemma StepPosition(s: string, p: nat, line: nat, column: nat)
    requires IsPosition(s, p, line, column) && p < |s|
    ensures if s[p] == '\n' then IsPosition(s, p + 1, line + 1, 1) else IsPosition(s, p + 1, line, column + 1)
  {
    assert s[..p + 1] == s[..p] + [s[p]];
    if s[p] != '\n' {
      assert s[p + 1 - column..p + 1] == s[p + 1 - column..p] + [s[p]];
    }
  }

  lemma ClipMore(s: string, k: nat)
    requires k < |s|
    ensures Clip(s[..k + 1]) == if |Clip(s[..k])| < 255 then Clip(s[..k]) + [s[k]] else Clip(s[..k])
  {
  }
}
