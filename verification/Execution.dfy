/** From source text to output (kernel/lang/polskiscript.c, interpreter_execute). */
module Execution {
  import opened Common
  import opened Numerals
  import opened Lexer
  import opened Syntax
  import opened Ast
  import opened Interp
  import opened BigStep
  import I = Interpreter
  import P = Parser
  import Format
  import RoundTrip
  import Acceptance

  /** interpreter_init. */
  const START := Machine([], "", false, false, false, Null, false)

  /** interpreter_execute: the tree of the source is evaluated if there is one; otherwise
      nothing happens to the interpreter.  Every loop goes round at most `fuel` times. */
  method Execute(interp: I.Interpreter, fuel: nat, source: string) returns (status: Status, ending: I.Ending, v: Value)
    requires interp.Valid() && '\0' !in source
    modifies interp, interp.env, interp.env.names, interp.env.values
    ensures interp.Valid() && status == Program([], State(Tokens(source), Fine)).st.status
    ensures status == Fine ==>
      var p := Program([], State(Tokens(source), Fine));
      p.node.Some? && I.AsOutcome(ending, v, interp.M()) == Eval(fuel, p.node.value, old(interp.M()))
    ensures status != Fine ==> interp.M() == old(interp.M())
  {
    hide Tokens, Program, Eval;
    var program;
    program, status := P.ParseSource(source);
    ending, v := I.Returns, Null;
    Acceptance.TreeIffFine([], State(Tokens(source), Fine));
    if status != Fine {
      return;
    }
    if program.Some? {
      ending, v := interp.Eval(fuel, program.value);
    }
  }

  /** For a program that the semantics runs to its end, lexing, parsing and evaluating its
      printed text ends with the variables and the output of the semantics, for all large
      enough bounds on the rounds of loops. */
  lemma ExecutePrinted(ss: seq<Stmt>, d: Config) returns (enough: nat)
    requires AllGood(ss) && RunsAll(ss, Config(map[], ""), Normal, d) && |d.store| < 256
    ensures var p := Program([], State(Tokens(PrintProgram(ss)), Fine));
            p.st.status == Fine && p.node.Some? &&
            forall fuel :: fuel >= enough ==> Reaches(Eval(fuel, p.node.value, START), Normal, d)
  {
    hide RunsAll, AllGood, Eval, Program, StmtNodes, Tokens, PrintProgram;
    RoundTrip.ParseUndoesPrint(ss);
    enough := ProgramRuns(ss, START, d);
    var n := Bare(AstProgram, "", StmtNodes(ss));
    forall fuel: nat | fuel >= enough
      ensures Reaches(Eval(fuel, n, START), Normal, d)
    {
      EvalMore(enough, fuel, n, START);
    }
  }

  /** The printed text of a program without a return, and with break and continue only inside
      loops, can end so only if the semantics runs the program there. */
  lemma OnlyPrinted(ss: seq<Stmt>, d: Config, fuel: nat)
    requires AllGood(ss) && AllStay(ss, false) && |d.store| < 256
    requires var p := Program([], State(Tokens(PrintProgram(ss)), Fine));
             p.node.Some? && Reaches(Eval(fuel, p.node.value, START), Normal, d)
    ensures RunsAll(ss, Config(map[], ""), Normal, d)
  {
    hide RunsAll, AllGood, Eval, Program, StmtNodes, Tokens, PrintProgram, AllStay, Reaches;
    RoundTrip.ParseUndoesPrint(ss);
    ProgramIsSemantics(ss, START, d);
  }

  // ----- value_print -----

  /** The 64-bit word of an integer. */
  function TwosComplement(i: int): nat {
    i % 0x1_0000_0000_0000_0000
  }

  /** An integer is shown as `%lld` prints it. */
  lemma ShowIsFormat(i: int)
    requires I64_MIN <= i <= I64_MAX
    ensures Format.Output("%lld", [Format.Word(TwosComplement(i))]) == Some(Show(Int(i)))
  {
    hide Format.Directive, Decimal, TwosComplement;
    var args := [Format.Word(TwosComplement(i))];
    LongDirective(args);
    SignedBack(i);
    PlainSigned(args, i);
    assert "%lld"[1..] == "lld";
    assert Show(Int(i)) + "" == Show(Int(i));
  }

  lemma LongDirective(args: seq<Format.Arg>)
    ensures Format.Directive("lld", args) ==
            Some(Format.Step(Format.SignedText(Format.Flags(false, false, false), 0, -1, true, args), "",
              Format.Rest(args)))
  {
    hide Format.SignedText;
    assert "lld"[2..] == "d" && "d"[1..] == "";
    assert Format.ReadNumber("lld", 0) == (0, "lld");
  }

  lemma SignedBack(i: int)
    requires I64_MIN <= i <= I64_MAX
    ensures Format.SignedArg([Format.Word(TwosComplement(i))], true) == i
  {
  }

  lemma PlainSigned(args: seq<Format.Arg>, i: int)
    requires Format.SignedArg(args, true) == i
    ensures Format.SignedText(Format.Flags(false, false, false), 0, -1, true, args) == Show(Int(i))
  {
    hide Digits, Format.SignedArg;
    var sign := if i < 0 then "-" else "";
    assert "" + sign + "" + Decimal(Format.Abs(i)) == Show(Int(i));
  }

  /** Truth values and `nic` are shown as they are printed. */
  lemma ShowOthers(b: bool)
    ensures Format.Output("%s", [Format.Text(Some(if b then "prawda" else "falsz"))]) == Some(Show(Bool(b)))
    ensures Format.Output("nic", []) == Some(Show(Null))
  {
    hide Format.Directive;
    var t := if b then "prawda" else "falsz";
    StringDirective(t);
    assert "%s"[1..] == "s";
    assert t + "" == t;
    Format.PlainText("nic", "", []);
    assert "nic" + "" == "nic";
  }

  lemma StringDirective(t: string)
    ensures Format.Directive("s", [Format.Text(Some(t))]) == Some(Format.Step(t, "", []))
  {
    hide Format.Directive, Format.DirectiveText, Format.Convert;
    var none, args := Format.Flags(false, false, false), [Format.Text(Some(t))];
    PlainString();
    Format.DirectiveReads(none, 0, None, false, 's', "", args);
    assert "s" + "" == "s";
    PlainConversion(t);
    assert Format.Consumes('s') && Format.Rest(args) == [];
  }

  lemma PlainConversion(t: string)
    ensures Format.Convert('s', Format.Flags(false, false, false), 0, -1, false, [Format.Text(Some(t))]) == t
  {
    var args := [Format.Text(Some(t))];
    assert Format.HeadText(args) == Some(t);
    NoPadding(t);
  }

  lemma NoPadding(t: string)
    ensures Format.StringText(Some(t), 0, -1, false, false) == t
  {
    assert Format.Repeat(' ', -|t|) == "" && "" + t == t;
  }

  lemma PlainString()
    ensures Format.DirectiveText(Format.Flags(false, false, false), 0, None, false, 's') == "s"
  {
  }
}
