/** `parse_lua` of libtls13/script/evaluate-chain.py (lines 16-126): a
    recursive-descent parser that pulls tokens from one shared iterator and
    appends instruction tuples to one shared list. The class keeps both as
    fields; each method is proved to do what the matching function of the
    grammar below says. */
module LuaParser {
  import opened Results
  import opened ChainIR
  import ChainLexer

  // ---------------------------------------------------------------------
  // The grammar, as functions from a token position to what is read there
  // and the position after it.

  /** `parse_token`: the next token, which must have class `cls` and, when
      `want` is given, be `want` itself. */
  function NextToken(ts: seq<Token>, pos: nat, cls: TokenClass, want: Option<Token>)
    : (r: Result<(Token, nat), ParseError>)
    ensures r.Ok? ==> pos < |ts| && r.value == (ts[pos], pos + 1)
    ensures r.Ok? ==> ClassOf(ts[pos]) == cls && (want.Some? ==> ts[pos] == want.value)
  {
    if pos >= |ts| then Err(EndOfTokens)
    else if ClassOf(ts[pos]) == cls && (want.None? || want.value == ts[pos]) then Ok((ts[pos], pos + 1))
    else Err(UnexpectedToken(ts[pos]))
  }

  /** The `i`-th argument of `parse_args`, with its comma when i > 0. */
  function NextArg(ts: seq<Token>, pos: nat, cls: TokenClass, first: bool)
    : (r: Result<(Token, nat), ParseError>)
    ensures r.Ok? ==> pos < r.value.1 <= |ts|
  {
    if first then NextToken(ts, pos, cls, None)
    else
      var comma :- NextToken(ts, pos, PunctClass, Some(Punct(',')));
      NextToken(ts, comma.1, cls, None)
  }

  /** The arguments of `parse_args` from the `i`-th on. */
  function ArgList(ts: seq<Token>, pos: nat, classes: seq<TokenClass>, i: nat)
    : (r: Result<(seq<Token>, nat), ParseError>)
    requires pos <= |ts| && i <= |classes|
    ensures r.Ok? ==> pos <= r.value.1 <= |ts| && |r.value.0| == |classes| - i
    ensures r.Ok? ==> forall j :: 0 <= j < |r.value.0| ==> ClassOf(r.value.0[j]) == classes[i + j]
    decreases |classes| - i
  {
    if i == |classes| then Ok(([], pos))
    else
      var arg :- NextArg(ts, pos, classes[i], i == 0);
      var rest :- ArgList(ts, arg.1, classes, i + 1);
      Ok(([arg.0] + rest.0, rest.1))
  }

  /** `parse_args`: "(", the arguments of the given classes separated by
      ",", then ")". */
  function Args(ts: seq<Token>, pos: nat, classes: seq<TokenClass>)
    : (r: Result<(seq<Token>, nat), ParseError>)
    ensures r.Ok? ==> pos < r.value.1 <= |ts| && |r.value.0| == |classes|
    ensures r.Ok? ==> forall j :: 0 <= j < |classes| ==> ClassOf(r.value.0[j]) == classes[j]
  {
    var lp :- NextToken(ts, pos, PunctClass, Some(Punct('(')));
    var list :- ArgList(ts, lp.1, classes, 0);
    var rp :- NextToken(ts, list.1, PunctClass, Some(Punct(')')));
    Ok((list.0, rp.1))
  }

  /** The five instruction builders `parse_repeated_sq` ... `parse_zero`. */
  datatype Kind = RepeatedSqKind | SqKind | MulKind | DivKind | ZeroKind

  function KindClasses(k: Kind): seq<TokenClass>
  {
    match k
    case RepeatedSqKind => [IdentClass, IdentClass, IntClass]
    case SqKind => [IdentClass, IdentClass]
    case MulKind => [IdentClass, IdentClass, IdentClass]
    case DivKind => [IdentClass, IdentClass, IdentClass]
    case ZeroKind => [IdentClass]
  }

  /** The tuple a builder appends, from the arguments it read. */
  function Build(k: Kind, args: seq<Token>): (ins: Instr)
    requires |args| == |KindClasses(k)|
    requires forall j :: 0 <= j < |args| ==> ClassOf(args[j]) == KindClasses(k)[j]
    ensures |ins.args| == Arity(ins.op)
  {
    assert forall j :: 0 <= j < |args| ==> (ClassOf(args[j]) == IntClass <==> args[j].IntTok?);
    assert forall j :: 0 <= j < |args| ==> (ClassOf(args[j]) == IdentClass <==> args[j].Ident?);
    match k
    case RepeatedSqKind =>
      assert KindClasses(k)[2] == IntClass;
      Instr(RepeatedSq(args[2].n), [args[0].name, args[1].name])
    case SqKind => Instr(Sq, [args[0].name, args[1].name])
    case MulKind =>
      assert KindClasses(k)[2] == IdentClass;
      Instr(Mul, [args[0].name, args[1].name, args[2].name])
    case DivKind =>
      assert KindClasses(k)[2] == IdentClass;
      Instr(Div, [args[0].name, args[1].name, args[2].name])
    case ZeroKind => Instr(Zero, [args[0].name])
  }

  /** One builder: its arguments, then the tuple. */
  function Call(ts: seq<Token>, pos: nat, k: Kind): (r: Result<(Instr, nat), ParseError>)
    ensures r.Ok? ==> pos < r.value.1 <= |ts|
  {
    var a :- Args(ts, pos, KindClasses(k));
    Ok((Build(k, a.0), a.1))
  }

  predicate EndsWith(s: string, suffix: string)
  {
    |suffix| <= |s| && s[|s| - |suffix|..] == suffix
  }

  /** `parse_func`'s choice of builder by the suffix of the function name,
      tested in the order `parse_func` tests them. */
  function Classify(f: string): Option<Kind>
  {
    if EndsWith(f, "RepeatedSq") || EndsWith(f, "RepeatedDouble") then Some(RepeatedSqKind)
    else if EndsWith(f, "Sq") || EndsWith(f, "Double") then Some(SqKind)
    else if EndsWith(f, "Mul") || EndsWith(f, "Add") then Some(MulKind)
    else if EndsWith(f, "Div") || EndsWith(f, "Sub") then Some(DivKind)
    else if EndsWith(f, "Zero") then Some(ZeroKind)
    else None
  }

  /** `parse_func(f)`. */
  function Func(ts: seq<Token>, pos: nat, f: string): (r: Result<(Instr, nat), ParseError>)
    ensures r.Ok? ==> pos < r.value.1 <= |ts|
  {
    match Classify(f)
    case None => Err(UnknownFunction(f))
    case Some(k) => Call(ts, pos, k)
  }

  /** `v = 1 ,` at the head of a loop: the position after it. */
  function LoopStart(ts: seq<Token>, pos: nat): (r: Result<nat, ParseError>)
    ensures r.Ok? ==> r.value == pos + 4 <= |ts|
  {
    var v :- NextToken(ts, pos, IdentClass, None);
    var eq :- NextToken(ts, v.1, PunctClass, Some(Punct('=')));
    var one :- NextToken(ts, eq.1, IntClass, Some(IntTok(1)));
    var c1 :- NextToken(ts, one.1, PunctClass, Some(Punct(',')));
    Ok(c1.1)
  }

  /** `N , 1 do` after it: the bound N and the position after `do`. */
  function LoopBound(ts: seq<Token>, pos: nat): (r: Result<(nat, nat), ParseError>)
    ensures r.Ok? ==> r.value.1 == pos + 4 <= |ts|
  {
    var count :- NextToken(ts, pos, IntClass, None);
    var c2 :- NextToken(ts, count.1, PunctClass, Some(Punct(',')));
    var step :- NextToken(ts, c2.1, IntClass, Some(IntTok(1)));
    var kw :- NextToken(ts, step.1, IdentClass, Some(Ident("do")));
    Ok((count.0.n, kw.1))
  }

  /** `parse_for`, entered after the "for" token: the loop header, a call
      read as a square whatever its name, "end"; the square becomes a
      repeated square with the loop's upper bound as its count. */
  function For(ts: seq<Token>, pos: nat): (r: Result<(Instr, nat), ParseError>)
    ensures r.Ok? ==> pos < r.value.1 <= |ts|
  {
    var p :- LoopStart(ts, pos);
    var bound :- LoopBound(ts, p);
    var f :- NextToken(ts, bound.1, IdentClass, None);
    var sq :- Call(ts, f.1, SqKind);
    var end :- NextToken(ts, sq.1, IdentClass, Some(Ident("end")));
    Ok((Instr(RepeatedSq(bound.0), sq.0.args), end.1))
  }

  /** One statement of the main loop, at a position holding a token. */
  function Statement(ts: seq<Token>, pos: nat): (r: Result<(Instr, nat), ParseError>)
    requires pos < |ts|
    ensures r.Ok? ==> pos < r.value.1 <= |ts|
  {
    match ts[pos]
    case Ident(name) =>
      if name == "for" then For(ts, pos + 1) else Func(ts, pos + 1, name)
    case other => Err(UnexpectedToken(other))
  }

  /** The instructions of the statements from `pos` to the end. */
  function Program(ts: seq<Token>, pos: nat): Result<seq<Instr>, ParseError>
    requires pos <= |ts|
    decreases |ts| - pos
  {
    if pos == |ts| then Ok([])
    else
      var st :- Statement(ts, pos);
      var rest :- Program(ts, st.1);
      Ok([st.0] + rest)
  }

  /** `parse_lua(code)`. */
  function ParseLua(code: string): Result<seq<Instr>, ParseError>
  {
    var ts :- ChainLexer.Tokenize(code);
    Program(ts, 0)
  }

  // ---------------------------------------------------------------------
  // What the grammar accepts.

  /** A name ending in "RepeatedSq" also ends in "Sq", and one ending in
      "RepeatedDouble" also ends in "Double"; the suffix order makes such a
      name a repeated square, never a plain one. */
  lemma RepeatedSuffixWins(f: string)
    requires EndsWith(f, "RepeatedSq") || EndsWith(f, "RepeatedDouble")
    ensures EndsWith(f, "Sq") || EndsWith(f, "Double")
    ensures Classify(f) == Some(RepeatedSqKind)
  {
    if EndsWith(f, "RepeatedSq") {
      assert f[|f| - 2..] == f[|f| - 10..][8..];
    } else {
      assert f[|f| - 6..] == f[|f| - 14..][8..];
    }
  }

  /** A name with none of the known suffixes is rejected by name. */
  lemma UnknownFunctionRejected(ts: seq<Token>, pos: nat, f: string)
    requires pos < |ts| && ts[pos] == Ident(f) && f != "for"
    requires !EndsWith(f, "Sq") && !EndsWith(f, "Double") && !EndsWith(f, "Mul")
    requires !EndsWith(f, "Add") && !EndsWith(f, "Div") && !EndsWith(f, "Sub") && !EndsWith(f, "Zero")
    ensures Statement(ts, pos) == Err(UnknownFunction(f))
  {
    assert !EndsWith(f, "RepeatedSq") && !EndsWith(f, "RepeatedDouble") by {
      if EndsWith(f, "RepeatedSq") || EndsWith(f, "RepeatedDouble") { RepeatedSuffixWins(f); }
    }
  }

  /** The tokens of `for v = 1, N, 1 do f(a, b) end`. */
  function ForTokens(v: string, n: nat, f: string, a: string, b: string): (ts: seq<Token>)
    ensures |ts| == 16
  {
    [Ident("for"), Ident(v), Punct('='), IntTok(1), Punct(','), IntTok(n), Punct(','), IntTok(1),
     Ident("do"), Ident(f), Punct('('), Ident(a), Punct(','), Ident(b), Punct(')'), Ident("end")]
  }

  /** The argument list of a square, both ways: `a , b` and nothing else. */
  lemma SquareArgList(ts: seq<Token>, p: nat)
    requires p <= |ts|
    ensures ArgList(ts, p, [IdentClass, IdentClass], 0).Ok? <==>
      p + 3 <= |ts| && ts[p].Ident? && ts[p + 1] == Punct(',') && ts[p + 2].Ident?
    ensures ArgList(ts, p, [IdentClass, IdentClass], 0).Ok? ==>
      ArgList(ts, p, [IdentClass, IdentClass], 0).value == ([ts[p], ts[p + 2]], p + 3)
  {
    var cls := [IdentClass, IdentClass];
    var first := NextArg(ts, p, cls[0], true);
    assert ArgList(ts, p, cls, 0) ==
      if first.Err? then Err(first.error)
      else Then([first.value.0], ArgList(ts, first.value.1, cls, 1));
    if first.Ok? {
      assert first.value == (ts[p], p + 1);
      var second := NextArg(ts, p + 1, cls[1], false);
      assert ArgList(ts, p + 1, cls, 1) ==
        if second.Err? then Err(second.error)
        else Then([second.value.0], ArgList(ts, second.value.1, cls, 2));
      if second.Ok? {
        assert second.value == (ts[p + 2], p + 3);
        assert ArgList(ts, p + 3, cls, 2) == Ok(([], p + 3));
        assert [ts[p]] + ([ts[p + 2]] + []) == [ts[p], ts[p + 2]];
      }
    }
  }

  /** A square call, both ways: `( a , b )` and nothing else. */
  lemma SquareCall(ts: seq<Token>, p: nat)
    requires p <= |ts|
    ensures Call(ts, p, SqKind).Ok? <==>
      p + 5 <= |ts| && ts[p] == Punct('(') && ts[p + 1].Ident? && ts[p + 2] == Punct(',')
      && ts[p + 3].Ident? && ts[p + 4] == Punct(')')
    ensures Call(ts, p, SqKind).Ok? ==>
      Call(ts, p, SqKind).value == (Instr(Sq, [ts[p + 1].name, ts[p + 3].name]), p + 5)
  {
    assert KindClasses(SqKind) == [IdentClass, IdentClass];
    if p < |ts| && ts[p] == Punct('(') {
      SquareArgList(ts, p + 1);
      var list := ArgList(ts, p + 1, [IdentClass, IdentClass], 0);
      assert Args(ts, p, KindClasses(SqKind)) ==
        if list.Err? then Err(list.error)
        else match NextToken(ts, list.value.1, PunctClass, Some(Punct(')')))
          case Err(e) => Err(e)
          case Ok(rp) => Ok((list.value.0, rp.1));
    }
  }

  lemma LoopStartOk(ts: seq<Token>, p: nat, v: string)
    requires p + 4 <= |ts| && ts[p] == Ident(v) && ts[p + 1] == Punct('=')
    requires ts[p + 2] == IntTok(1) && ts[p + 3] == Punct(',')
    ensures LoopStart(ts, p) == Ok(p + 4)
  {
    assert NextToken(ts, p, IdentClass, None) == Ok((Ident(v), p + 1));
    assert NextToken(ts, p + 1, PunctClass, Some(Punct('='))) == Ok((Punct('='), p + 2));
    assert NextToken(ts, p + 2, IntClass, Some(IntTok(1))) == Ok((IntTok(1), p + 3));
  }

  lemma LoopBoundOk(ts: seq<Token>, p: nat, n: nat)
    requires p + 4 <= |ts| && ts[p] == IntTok(n) && ts[p + 1] == Punct(',')
    requires ts[p + 2] == IntTok(1) && ts[p + 3] == Ident("do")
    ensures LoopBound(ts, p) == Ok((n, p + 4))
  {
    assert NextToken(ts, p, IntClass, None) == Ok((IntTok(n), p + 1));
    assert NextToken(ts, p + 1, PunctClass, Some(Punct(','))) == Ok((Punct(','), p + 2));
    assert NextToken(ts, p + 2, IntClass, Some(IntTok(1))) == Ok((IntTok(1), p + 3));
  }

  /** The sixteen tokens one by one. */
  lemma ForTokensAt(ts: seq<Token>, pos: nat, v: string, n: nat, f: string, a: string, b: string)
    requires pos + 16 <= |ts| && ts[pos..pos + 16] == ForTokens(v, n, f, a, b)
    ensures ts[pos] == Ident("for") && ts[pos + 1] == Ident(v) && ts[pos + 2] == Punct('=')
    ensures ts[pos + 3] == IntTok(1) && ts[pos + 4] == Punct(',') && ts[pos + 5] == IntTok(n)
    ensures ts[pos + 6] == Punct(',') && ts[pos + 7] == IntTok(1) && ts[pos + 8] == Ident("do")
    ensures ts[pos + 9] == Ident(f) && ts[pos + 10] == Punct('(') && ts[pos + 11] == Ident(a)
    ensures ts[pos + 12] == Punct(',') && ts[pos + 13] == Ident(b) && ts[pos + 14] == Punct(')')
    ensures ts[pos + 15] == Ident("end")
  {
    var w := ts[pos..pos + 16];
    assert w[0] == ts[pos] && w[1] == ts[pos + 1] && w[2] == ts[pos + 2] && w[3] == ts[pos + 3];
    assert w[4] == ts[pos + 4] && w[5] == ts[pos + 5] && w[6] == ts[pos + 6] && w[7] == ts[pos + 7];
    assert w[8] == ts[pos + 8] && w[9] == ts[pos + 9] && w[10] == ts[pos + 10] && w[11] == ts[pos + 11];
    assert w[12] == ts[pos + 12] && w[13] == ts[pos + 13] && w[14] == ts[pos + 14] && w[15] == ts[pos + 15];
  }

  /** The loop statement yields one repeated square by its upper bound. */
  lemma ForStatement(ts: seq<Token>, pos: nat, v: string, n: nat, f: string, a: string, b: string)
    requires pos + 16 <= |ts| && ts[pos..pos + 16] == ForTokens(v, n, f, a, b)
    ensures Statement(ts, pos) == Ok((Instr(RepeatedSq(n), [a, b]), pos + 16))
  {
    ForTokensAt(ts, pos, v, n, f, a, b);
    LoopStartOk(ts, pos + 1, v);
    LoopBoundOk(ts, pos + 5, n);
    assert NextToken(ts, pos + 9, IdentClass, None) == Ok((Ident(f), pos + 10));
    SquareCall(ts, pos + 10);
    assert NextToken(ts, pos + 15, IdentClass, Some(Ident("end"))) == Ok((Ident("end"), pos + 16));
    assert For(ts, pos + 1) == Ok((Instr(RepeatedSq(n), [a, b]), pos + 16));
  }

  /** Conversely, a loop statement that parses is exactly that shape, and
      what it yields is determined by the shape. */
  lemma ForStatementShape(ts: seq<Token>, pos: nat)
    requires pos < |ts| && ts[pos] == Ident("for") && Statement(ts, pos).Ok?
    ensures pos + 16 <= |ts|
    ensures ts[pos + 1].Ident? && ts[pos + 5].IntTok? && ts[pos + 9].Ident?
    ensures ts[pos + 11].Ident? && ts[pos + 13].Ident?
    ensures ts[pos..pos + 16] ==
      ForTokens(ts[pos + 1].name, ts[pos + 5].n, ts[pos + 9].name, ts[pos + 11].name, ts[pos + 13].name)
    ensures Statement(ts, pos).value ==
      (Instr(RepeatedSq(ts[pos + 5].n), [ts[pos + 11].name, ts[pos + 13].name]), pos + 16)
  {
    assert For(ts, pos + 1).Ok?;
    LoopStartShape(ts, pos + 1);
    LoopBoundShape(ts, pos + 5);
    var f := NextToken(ts, pos + 9, IdentClass, None);
    assert f.Ok? && f.value.1 == pos + 10;
    SquareCall(ts, pos + 10);
    assert Call(ts, pos + 10, SqKind).Ok?;
    var e := NextToken(ts, pos + 15, IdentClass, Some(Ident("end")));
    assert e.Ok?;
    ForTokensFrom(ts, pos, ts[pos + 1].name, ts[pos + 5].n, ts[pos + 9].name, ts[pos + 11].name, ts[pos + 13].name);
  }

  /** A loop head that parses is `v = 1 ,`. */
  lemma LoopStartShape(ts: seq<Token>, p: nat)
    requires LoopStart(ts, p).Ok?
    ensures p + 4 <= |ts| && ts[p].Ident? && ts[p + 1] == Punct('=') && ts[p + 2] == IntTok(1)
    ensures ts[p + 3] == Punct(',') && LoopStart(ts, p).value == p + 4
  {
  }

  /** A loop bound that parses is `N , 1 do`, and N is what it yields. */
  lemma LoopBoundShape(ts: seq<Token>, p: nat)
    requires LoopBound(ts, p).Ok?
    ensures p + 4 <= |ts| && ts[p].IntTok? && ts[p + 1] == Punct(',') && ts[p + 2] == IntTok(1)
    ensures ts[p + 3] == Ident("do") && LoopBound(ts, p).value == (ts[p].n, p + 4)
  {
  }

  /** The sixteen tokens, put back together. */
  lemma ForTokensFrom(ts: seq<Token>, pos: nat, v: string, n: nat, f: string, a: string, b: string)
    requires pos + 16 <= |ts|
    requires ts[pos] == Ident("for") && ts[pos + 1] == Ident(v) && ts[pos + 2] == Punct('=')
    requires ts[pos + 3] == IntTok(1) && ts[pos + 4] == Punct(',') && ts[pos + 5] == IntTok(n)
    requires ts[pos + 6] == Punct(',') && ts[pos + 7] == IntTok(1) && ts[pos + 8] == Ident("do")
    requires ts[pos + 9] == Ident(f) && ts[pos + 10] == Punct('(') && ts[pos + 11] == Ident(a)
    requires ts[pos + 12] == Punct(',') && ts[pos + 13] == Ident(b) && ts[pos + 14] == Punct(')')
    requires ts[pos + 15] == Ident("end")
    ensures ts[pos..pos + 16] == ForTokens(v, n, f, a, b)
  {
    var w := ForTokens(v, n, f, a, b);
    assert forall j :: 0 <= j < 16 ==> ts[pos..pos + 16][j] == w[j];
  }

  /** Every tuple the Lua front-end produces has the arity the evaluator
      matches on, and its repeat counts are never negative. */
  lemma {:induction false} ProgramWellFormed(ts: seq<Token>, pos: nat)
    requires pos <= |ts| && Program(ts, pos).Ok?
    ensures forall j :: 0 <= j < |Program(ts, pos).value| ==>
      |Program(ts, pos).value[j].args| == Arity(Program(ts, pos).value[j].op) &&
      (Program(ts, pos).value[j].op.RepeatedSq? ==> Program(ts, pos).value[j].op.count >= 0)
    decreases |ts| - pos
  {
    if pos < |ts| {
      assert Statement(ts, pos).Ok?;
      var st := Statement(ts, pos).value;
      ProgramWellFormed(ts, st.1);
      match ts[pos]
      case Ident(name) =>
        if name == "for" {
          ForStatementShape(ts, pos);
        }
      case _ =>
    }
  }

  predicate IsName(x: string)
  {
    ChainLexer.WellFormed(Ident(x))
  }

  lemma ForTokensWellFormed(v: string, n: nat, f: string, a: string, b: string)
    requires IsName(v) && IsName(f) && IsName(a) && IsName(b)
    ensures forall i :: 0 <= i < 16 ==> ChainLexer.WellFormed(ForTokens(v, n, f, a, b)[i])
  {
    assert ChainLexer.WellFormed(Ident("for")) && ChainLexer.WellFormed(Ident("do"))
      && ChainLexer.WellFormed(Ident("end"));
    assert ChainLexer.IsPunct('=') && ChainLexer.IsPunct(',') && ChainLexer.IsPunct('(')
      && ChainLexer.IsPunct(')');
  }

  /** A lone loop statement is the whole program's one instruction. */
  lemma ForProgram(v: string, n: nat, f: string, a: string, b: string)
    ensures Program(ForTokens(v, n, f, a, b), 0) == Ok([Instr(RepeatedSq(n), [a, b])])
  {
    var ts := ForTokens(v, n, f, a, b);
    assert ts[0..16] == ts;
    ForStatement(ts, 0, v, n, f, a, b);
    assert Program(ts, 16) == Ok([]);
    assert Program(ts, 0) == Ok([Instr(RepeatedSq(n), [a, b])] + []);
    assert [Instr(RepeatedSq(n), [a, b])] + [] == [Instr(RepeatedSq(n), [a, b])];
  }

  /** The written-out loop parses, from text, to its one instruction. */
  lemma ForLoopText(v: string, n: nat, f: string, a: string, b: string)
    requires IsName(v) && IsName(f) && IsName(a) && IsName(b)
    ensures ParseLua(ChainLexer.Untokenize(ForTokens(v, n, f, a, b))) == Ok([Instr(RepeatedSq(n), [a, b])])
  {
    ForTokensWellFormed(v, n, f, a, b);
    ChainLexer.TokenizeRoundTrip(ForTokens(v, n, f, a, b));
    ForProgram(v, n, f, a, b);
  }

  // ---------------------------------------------------------------------
  // Bookkeeping between the grammar and the parser's state.

  /** A call's outcome `r` and the position `pos` after it are those the
      grammar gives. */
  predicate Agrees<T(==)>(r: Result<T, ParseError>, pos: nat, spec: Result<(T, nat), ParseError>)
  {
    match spec
    case Ok(v) => r == Ok(v.0) && pos == v.1
    case Err(e) => r == Err(e)
  }

  /** A builder's outcome: on success it appended exactly the grammar's
      instruction and moved to the grammar's position. */
  predicate Emits(r: Result<(), ParseError>, pos: nat, parsed: seq<Instr>, before: seq<Instr>,
                  spec: Result<(Instr, nat), ParseError>)
  {
    match spec
    case Ok(v) => r.Ok? && pos == v.1 && parsed == before + [v.0]
    case Err(e) => r == Err(e)
  }

  function Then<T>(prefix: seq<T>, r: Result<(seq<T>, nat), ParseError>): Result<(seq<T>, nat), ParseError>
  {
    match r
    case Ok(v) => Ok((prefix + v.0, v.1))
    case Err(e) => Err(e)
  }

  /** Unfolding `ArgList` by one argument. */
  lemma ArgListStep(ts: seq<Token>, pos: nat, classes: seq<TokenClass>, i: nat, args: seq<Token>)
    requires pos <= |ts| && i < |classes|
    ensures Then(args, ArgList(ts, pos, classes, i)) ==
      match NextArg(ts, pos, classes[i], i == 0)
      case Err(e) => Err(e)
      case Ok(a) => Then(args + [a.0], ArgList(ts, a.1, classes, i + 1))
  {
    match NextArg(ts, pos, classes[i], i == 0)
    case Err(e) =>
    case Ok(a) =>
      match ArgList(ts, a.1, classes, i + 1)
      case Err(e) =>
      case Ok(rest) =>
        assert args + ([a.0] + rest.0) == args + [a.0] + rest.0;
  }

  lemma ThenEmpty<T>(r: Result<(seq<T>, nat), ParseError>)
    ensures Then([], r) == r
  {
    match r
    case Err(e) =>
    case Ok(v) => assert [] + v.0 == v.0;
  }

  /** Unfolding `Program` by one statement. */
  lemma ProgramStep(ts: seq<Token>, pos: nat, parsed: seq<Instr>)
    requires pos < |ts|
    ensures ThenAll(parsed, Program(ts, pos)) ==
      match Statement(ts, pos)
      case Err(e) => Err(e)
      case Ok(st) => ThenAll(parsed + [st.0], Program(ts, st.1))
  {
    match Statement(ts, pos)
    case Err(e) =>
    case Ok(st) =>
      match Program(ts, st.1)
      case Err(e) =>
      case Ok(rest) =>
        assert parsed + ([st.0] + rest) == parsed + [st.0] + rest;
  }

  class Parser {
    /** The scanned tokens; `pos` is how far the iterator `it` has got. */
    const tokens: seq<Token>
    var pos: nat
    /** The list `parsed`. */
    var parsed: seq<Instr>

    ghost predicate Valid()
      reads this
    {
      pos <= |tokens|
    }

    constructor (ts: seq<Token>)
      ensures Valid() && tokens == ts && pos == 0 && parsed == []
    {
      tokens := ts;
      pos := 0;
      parsed := [];
    }

    /** `parse_token`: `next(it)` consumes a token even when it is the
        wrong one, which then aborts the parse. */
    method ParseToken(cls: TokenClass, want: Option<Token>) returns (r: Result<Token, ParseError>)
      requires Valid()
      modifies this`pos
      ensures Valid()
      ensures Agrees(r, pos, NextToken(tokens, old(pos), cls, want))
    {
      if pos >= |tokens| {
        return Err(EndOfTokens);
      }
      var actual := tokens[pos];
      pos := pos + 1;
      if ClassOf(actual) == cls && (want.None? || want.value == actual) {
        return Ok(actual);
      }
      return Err(UnexpectedToken(actual));
    }

    /** `parse_args`. */
    method ParseArgs(classes: seq<TokenClass>) returns (r: Result<seq<Token>, ParseError>)
      requires Valid()
      modifies this`pos
      ensures Valid()
      ensures Agrees(r, pos, Args(tokens, old(pos), classes))
    {
      var lp :- ParseToken(PunctClass, Some(Punct('(')));
      var start := pos;
      var args: seq<Token> := [];
      ThenEmpty(ArgList(tokens, start, classes, 0));
      for i := 0 to |classes|
        invariant Valid()
        invariant Then(args, ArgList(tokens, pos, classes, i)) == ArgList(tokens, start, classes, 0)
      {
        ArgListStep(tokens, pos, classes, i, args);
        if i > 0 {
          var comma :- ParseToken(PunctClass, Some(Punct(',')));
        }
        var arg :- ParseToken(classes[i], None);
        args := args + [arg];
      }
      assert args + [] == args;
      assert ArgList(tokens, start, classes, 0) == Ok((args, pos));
      var rp :- ParseToken(PunctClass, Some(Punct(')')));
      return Ok(args);
    }

    /** `parse_repeated_sq`, `parse_sq`, `parse_mul`, `parse_div` and
        `parse_zero`: read the arguments, append the tuple. */
    method ParseCall(k: Kind) returns (r: Result<(), ParseError>)
      requires Valid()
      modifies this`pos, this`parsed
      ensures Valid()
      ensures Emits(r, pos, parsed, old(parsed), Call(tokens, old(pos), k))
    {
      var args :- ParseArgs(KindClasses(k));
      parsed := parsed + [Build(k, args)];
      return Ok(());
    }

    /** `parse_func`. */
    method ParseFunc(f: string) returns (r: Result<(), ParseError>)
      requires Valid()
      modifies this`pos, this`parsed
      ensures Valid()
      ensures Emits(r, pos, parsed, old(parsed), Func(tokens, old(pos), f))
    {
      if EndsWith(f, "RepeatedSq") || EndsWith(f, "RepeatedDouble") {
        r := ParseCall(RepeatedSqKind);
      } else if EndsWith(f, "Sq") || EndsWith(f, "Double") {
        r := ParseCall(SqKind);
      } else if EndsWith(f, "Mul") || EndsWith(f, "Add") {
        r := ParseCall(MulKind);
      } else if EndsWith(f, "Div") || EndsWith(f, "Sub") {
        r := ParseCall(DivKind);
      } else if EndsWith(f, "Zero") {
        r := ParseCall(ZeroKind);
      } else {
        r := Err(UnknownFunction(f));
      }
    }

    /** `parse_for`: parse the body as a square, then overwrite the last
        tuple with a repeated square carrying the loop count. */
    method ParseFor() returns (r: Result<(), ParseError>)
      requires Valid()
      modifies this`pos, this`parsed
      ensures Valid()
      ensures Emits(r, pos, parsed, old(parsed), For(tokens, old(pos)))
    {
      var indVar :- ParseToken(IdentClass, None);
      var eq :- ParseToken(PunctClass, Some(Punct('=')));
      var one :- ParseToken(IntClass, Some(IntTok(1)));
      var c1 :- ParseToken(PunctClass, Some(Punct(',')));
      var count :- ParseToken(IntClass, None);
      var c2 :- ParseToken(PunctClass, Some(Punct(',')));
      var step :- ParseToken(IntClass, Some(IntTok(1)));
      var kw :- ParseToken(IdentClass, Some(Ident("do")));
      var f :- ParseToken(IdentClass, None);
      var sq :- ParseCall(SqKind);
      var end :- ParseToken(IdentClass, Some(Ident("end")));
      var last := parsed[|parsed| - 1];
      parsed := parsed[..|parsed| - 1] + [Instr(RepeatedSq(count.n), last.args)];
      return Ok(());
    }

    /** The main loop `for token in it`. */
    method Run() returns (r: Result<seq<Instr>, ParseError>)
      requires Valid() && pos == 0 && parsed == []
      modifies this`pos, this`parsed
      ensures r == Program(tokens, 0)
    {
      ThenAllEmpty(Program(tokens, 0));
      while pos < |tokens|
        invariant Valid()
        invariant ThenAll(parsed, Program(tokens, pos)) == Program(tokens, 0)
        decreases |tokens| - pos
      {
        var token := tokens[pos];
        ghost var start, before := pos, parsed;
        ProgramStep(tokens, pos, parsed);
        pos := pos + 1;
        match token {
          case Ident(name) =>
            var o;
            if name == "for" {
              o := ParseFor();
            } else {
              o := ParseFunc(name);
            }
            assert Emits(o, pos, parsed, before, Statement(tokens, start));
            if o.Err? {
              return Err(o.error);
            }
          case _ =>
            return Err(UnexpectedToken(token));
        }
      }
      assert parsed + [] == parsed;
      return Ok(parsed);
    }
  }

  /** `parse_lua(code)` as the program runs it: scan, then parse with a
      fresh parser. */
  method Parse(code: string) returns (r: Result<seq<Instr>, ParseError>)
    ensures r == ParseLua(code)
  {
    var ts :- ChainLexer.Tokenize(code);
    var p := new Parser(ts);
    r := p.Run();
  }
}
