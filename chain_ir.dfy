/** The instruction stream shared by the two front-ends of
    libtls13/script/evaluate-chain.py, its tokens, and the ways parsing can
    fail. */
module ChainIR {
  import opened Results

  /** The tag of an instruction tuple: "mul", "div", "sq", "repeated-sq"
      (with its repeat count) and "zero". */
  datatype Op = Mul | Div | Sq | RepeatedSq(count: int) | Zero

  /** One instruction tuple: its tag and its variable-name fields. The Lua
      front-end always produces the arity the evaluator expects; the
      addchain front-end copies whatever fields the line has. */
  datatype Instr = Instr(op: Op, args: seq<string>)

  /** The number of name fields the evaluator's `match` accepts for a tag. */
  function Arity(op: Op): nat
  {
    match op
    case Mul => 3
    case Div => 3
    case Sq => 2
    case RepeatedSq(_) => 2
    case Zero => 1
  }

  /** Scanner tokens: ("int", n), ("ident", name) and ("punct", c). */
  datatype Token = IntTok(n: nat) | Ident(name: string) | Punct(c: char)

  datatype TokenClass = IntClass | IdentClass | PunctClass

  /** The class tag the scanner puts in a token's tuple. */
  function ClassOf(t: Token): TokenClass
  {
    match t
    case IntTok(_) => IntClass
    case Ident(_) => IdentClass
    case Punct(_) => PunctClass
  }

  /** Why a front-end gave up: SyntaxError("unmatched: ..."),
      SyntaxError("unexpected token: ..."), StopIteration at the end of the
      token stream, SyntaxError("unknown function ..."),
      SyntaxError("unknown instruction ..."), and the ValueError and
      IndexError of `int(args[-1])` on a `shift` line. */
  datatype ParseError =
    | Unmatched(rest: string)
    | UnexpectedToken(token: Token)
    | EndOfTokens
    | UnknownFunction(name: string)
    | UnknownInstruction(name: string)
    | InvalidLiteral(text: string)
    | MissingCount

  /** A list of instructions already produced, put in front of what the
      rest of the input yields. */
  function ThenAll(prefix: seq<Instr>, r: Result<seq<Instr>, ParseError>): Result<seq<Instr>, ParseError>
  {
    match r
    case Ok(v) => Ok(prefix + v)
    case Err(e) => Err(e)
  }

  lemma ThenAllEmpty(r: Result<seq<Instr>, ParseError>)
    ensures ThenAll([], r) == r
  {
    match r
    case Err(e) =>
    case Ok(v) => assert [] + v == v;
  }
}
