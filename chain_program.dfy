/** The script libtls13/script/evaluate-chain.py as a whole (lines 223-256):
    one of the two front-ends turns the trace into instructions, the
    evaluator runs them on an empty environment, and every binding is
    printed. Standard input and the command line are parameters: `code` is
    what was read, `addchain` whether the first argument was "addchain". */
module ChainProgram {
  import opened Results
  import opened ChainIR
  import ChainLexer
  import LuaParser
  import AddchainParser
  import Evaluator
  import Monomials
  import Numerals

  datatype ChainError = Syntax(parse: ParseError) | Evaluation(eval: Evaluator.EvalError)

  function Instructions(code: string, addchain: bool): Result<seq<Instr>, ParseError>
  {
    if addchain then AddchainParser.Addchain(code) else LuaParser.ParseLua(code)
  }

  /** What running the instructions on an empty environment prints. */
  function Outcome(xs: seq<Instr>): Result<seq<string>, Evaluator.EvalError>
  {
    var env :- Evaluator.ExecAll([], xs);
    Ok(Evaluator.Listing(env))
  }

  /** The lines the script prints, or why it stops. */
  function ChainOutput(code: string, addchain: bool): Result<seq<string>, ChainError>
  {
    match Instructions(code, addchain)
    case Err(e) => Err(Syntax(e))
    case Ok(xs) =>
      match Outcome(xs)
      case Err(e) => Err(Evaluation(e))
      case Ok(lines) => Ok(lines)
  }

  /** The script's top level. */
  method EvaluateChain(code: string, addchain: bool) returns (r: Result<seq<string>, ChainError>)
    ensures r == ChainOutput(code, addchain)
  {
    var parsed := Front(code, addchain);
    if parsed.Err? {
      return Err(Syntax(parsed.error));
    }
    var out := Evaluate(parsed.value);
    if out.Err? {
      return Err(Evaluation(out.error));
    }
    r := Ok(out.value);
  }

  /** The front-end the command line picks. */
  method Front(code: string, addchain: bool) returns (parsed: Result<seq<Instr>, ParseError>)
    ensures parsed == Instructions(code, addchain)
  {
    if addchain {
      parsed := AddchainParser.ParseAddchain(code);
    } else {
      parsed := LuaParser.Parse(code);
    }
  }

  /** The evaluation loop on a fresh environment, then the listing. */
  method Evaluate(xs: seq<Instr>) returns (r: Result<seq<string>, Evaluator.EvalError>)
    ensures r == Outcome(xs)
  {
    var interp := new Evaluator.Interpreter();
    var empty: Evaluator.Env := [];
    assert interp.Values() == empty;
    var run := interp.Run(xs);
    if run.Err? {
      assert Evaluator.ExecAll(empty, xs).Err?;
      return Err(run.error);
    }
    var lines := interp.Output();
    assert lines == Evaluator.Listing(Evaluator.ExecAll(empty, xs).value);
    r := Ok(lines);
  }

  /** Every name the output lists was touched by the instructions, each
      once, in the order of first touch. */
  lemma OutputNames(code: string, addchain: bool)
    requires Instructions(code, addchain).Ok?
    requires Evaluator.ExecAll([], Instructions(code, addchain).value).Ok?
    ensures Monomials.Keys(Evaluator.ExecAll([], Instructions(code, addchain).value).value)
      == Evaluator.AddNames([], Evaluator.TouchedAll(Instructions(code, addchain).value))
  {
    var empty: Evaluator.Env := [];
    Evaluator.ExecNames(empty, Instructions(code, addchain).value);
  }

  lemma NameIsPlain(x: string)
    requires LuaParser.IsName(x)
    ensures '\t' !in x && AddchainParser.NoLineBreak(x)
  {
    assert forall i :: 0 <= i < |x| ==> ChainLexer.IsIdentChar(x[i]);
    assert forall i :: 0 <= i < |x| ==> x[i] != '\t';
  }

  /** The two front-ends agree: the Lua loop `for v = 1, N, 1 do f(a, b)
      end` and the addchain line `shift a b N` give the same instruction. */
  lemma LoopAgreesWithShift(v: string, n: nat, f: string, a: string, b: string)
    requires LuaParser.IsName(v) && LuaParser.IsName(f) && LuaParser.IsName(a) && LuaParser.IsName(b)
    ensures LuaParser.ParseLua(ChainLexer.Untokenize(LuaParser.ForTokens(v, n, f, a, b)))
      == AddchainParser.Addchain(AddchainParser.JoinOn(["shift", a, b, Numerals.DecimalString(n)], '\t'))
      == Ok([Instr(RepeatedSq(n), [a, b])])
  {
    LuaParser.ForLoopText(v, n, f, a, b);
    NameIsPlain(a);
    NameIsPlain(b);
    ShiftText(a, b, n);
  }

  /** The addchain text of a single `shift` line. */
  lemma ShiftText(a: string, b: string, n: int)
    requires '\t' !in a && '\t' !in b && AddchainParser.NoLineBreak(a) && AddchainParser.NoLineBreak(b)
    ensures AddchainParser.Addchain(AddchainParser.JoinOn(["shift", a, b, Numerals.DecimalString(n)], '\t'))
      == Ok([Instr(RepeatedSq(n), [a, b])])
  {
    ShiftLineStep(a, b, n);
    OneLine(AddchainParser.JoinOn(["shift", a, b, Numerals.DecimalString(n)], '\t'), Instr(RepeatedSq(n), [a, b]));
  }

  /** The `shift` line is one line, and it emits `repeated-sq`. */
  lemma ShiftLineStep(a: string, b: string, n: int)
    requires '\t' !in a && '\t' !in b && AddchainParser.NoLineBreak(a) && AddchainParser.NoLineBreak(b)
    ensures var line := AddchainParser.JoinOn(["shift", a, b, Numerals.DecimalString(n)], '\t');
      AddchainParser.NoLineBreak(line)
      && AddchainParser.LineStep(line) == Ok(AddchainParser.Emit(Instr(RepeatedSq(n), [a, b])))
  {
    var fs := ["shift", a, b, Numerals.DecimalString(n)];
    assert ["shift"] + [a, b] + [Numerals.DecimalString(n)] == fs;
    AddchainParser.ShiftLine([a, b], n);
    ShiftLineUnbroken(a, b, Numerals.DecimalString(n));
  }

  /** Joining line-break-free fields with tabs gives one line. */
  lemma ShiftLineUnbroken(a: string, b: string, c: string)
    requires AddchainParser.NoLineBreak(a) && AddchainParser.NoLineBreak(b)
    requires forall j :: 0 <= j < |c| ==> '0' <= c[j] <= '9' || c[j] == '-'
    ensures AddchainParser.NoLineBreak(AddchainParser.JoinOn(["shift", a, b, c], '\t'))
  {
    var fs := ["shift", a, b, c];
    assert forall j :: 0 <= j < |c| ==> !AddchainParser.IsLineBreak(c[j]);
    assert forall j :: 0 <= j < |fs| ==> AddchainParser.NoLineBreak(fs[j]);
    AddchainParser.JoinNoBreak(fs, '\t');
  }

  /** A text of one line that emits x is the program [x]. */
  lemma OneLine(line: string, x: Instr)
    requires AddchainParser.NoLineBreak(line) && AddchainParser.LineStep(line) == Ok(AddchainParser.Emit(x))
    ensures AddchainParser.Addchain(line) == Ok([x])
  {
    AddchainParser.SingleLine(line);
    assert [line][1..] == [];
    assert AddchainParser.Lines([line]) == Ok([x] + []);
    assert [x] + [] == [x];
  }
}
