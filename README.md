# Addition-chain evaluator and elliptic-curve test-vector generator, in Dafny

This project models two Python scripts of the `libtls13` library of
Fingercomp-Programs. It proves properties of the models.

**`libtls13/script/evaluate-chain.py`** reads the trace of an addition chain
for a modular exponentiation. It prints, for each variable, the monomial the
chain computes into it. The trace comes in one of two forms:

- a Lua program of calls such as `fSq(t, x)` and `for i = 1, n, 1 do fSq(t, t) end`, or
- an `addchain` listing of tab-separated lines (`double`, `add`, `sub`, `shift`, `zero`, `tmp`, `break`).

The model covers:

- the regular-expression scanner (`ChainLexer`);
- the recursive-descent Lua parser (`LuaParser`). This is a class, because the parser consumes one token iterator and appends to one list;
- the addchain parser (`AddchainParser`);
- the `Monomial` class (`Monomials`). Its dict of exponents is an association list that keeps Python's insertion order;
- `format_exp` and `Monomial.__str__`;
- the evaluation loop over the global `env` dict (`Evaluator`). The `Interpreter` class holds `Monomial` objects;
- the script as a whole (`ChainProgram`).

**`libtls13/script/generate-ec-test-data.py`** builds secp384r1 and writes
test vectors for an elliptic-curve library. The model covers:

- `Field` (`PrimeField`, with the integer facts in `Modular`);
- its Tonelli-Shanks `sqrt` (`SquareRoot`);
- `FieldElement` (`FieldElements`), with its coercion of the other operand into the element's field;
- `Curve`, `Point` and the chord-and-tangent law (`Curves`, with the polynomial algebra in `CurveAlgebra`);
- `JacobianPoint` (`Jacobian`) with its "dbl-2001-b" doubling and "add-2007-bl" addition;
- the proof that Jacobian arithmetic agrees with affine arithmetic (`JacobianAlgebra`, `JacobianLaw`, `JacobianDouble`);
- `bit_count` and the double-and-add `PointOps.__mul__` (`ScalarMul`);
- `from_hex` and the `"{:096x}"` element encoding (`Encoding`, `Numerals`);
- the secp384r1 constants (`Secp384r1`, section 2.5.1 of SEC 2 version 2.0).

Python exceptions and `None` results are values of `Result`/`Option`
(`Results`). Python's unbounded `int` is Dafny's `int`. Where the script does
something only for a valid input (a field element's modulus, a non-negative
`bit_count` argument), the model states that as a precondition.

The main results are:

- **Lua scanner round trip.** Scanning the text of any sequence of well-formed tokens gives back exactly those tokens (`ChainLexer.TokenizeRoundTrip`).
- **Parser classes follow their grammar.** Each method of the parser classes does what the recursive grammar function says (`LuaParser.Parser.Run`, `AddchainParser.ParseAddchain`).
- **A `for` loop and a `shift` line give the same instruction.** A Lua `for` loop of squarings and the addchain `shift` line give the same repeated-squaring instruction (`ChainProgram.LoopAgreesWithShift`).
- **Monomial arithmetic.** Multiplying adds exponents, dividing subtracts them, and raising to n scales them. Key order follows insertion order (`Monomials.ProductSpec`, `QuotientSpec`, `PowerSpec`).
- **What the evaluator binds.** It binds exactly the names the instructions touch, in first-touch order. It gives each the exponents the opcode says (`Evaluator.ExecNames`, `StepValue`).
- **Square root.** The intended Tonelli-Shanks returns a true square root whenever it returns. It always finds one for a quadratic residue, given a non-residue z (`SquareRoot.RootSound`, `CorrectedFindsRoot`).
- **The affine law.** It is closed on the curve, commutative, and fails exactly when doubling a point with y = 0 (`Curves.AddClosed`, `AddCommutes`, `AddErrors`).
- **Jacobian addition agrees with affine addition.** Over any odd prime field and on any curve with a = -3, the affine image of the Jacobian sum is the affine sum. This holds for every pair of points whose affine sum exists, covering the chord, the vertical line and the doubling cases. Where the affine sum raises, the Jacobian sum is the identity (`JacobianDouble.AddAgrees`).
- **The double-and-add ladder.** It computes k·P for any addition that behaves like addition of multiples (`ScalarMul.LadderMultiples`). On Jacobian points, over an odd prime field and with a = -3, its affine image is the affine `k * P` whenever that does not raise (`ScalarMul.MulAgrees`). This is the comparison the test-vector generator asserts.
- **Encoding round trip.** Every element of the secp384r1 field encodes as 96 lower-case hex digits that `int(·, 16)` reads back (`Secp384r1.ElementsEncode`).

## Model

| member | source | states |
|---|---|---|
| ChainLexer.DigitRun | libtls13/script/evaluate-chain.py:9 | the `[0-9]+` match is maximal: every character before the returned length is a digit and the next one is not |
| ChainLexer.IdentRun | libtls13/script/evaluate-chain.py:10 | the `[a-zA-Z0-9_]*` tail of an identifier is maximal |
| ChainLexer.SpaceRun | libtls13/script/evaluate-chain.py:12 | the `\s+` match is maximal over what `str.isspace()` accepts, the set `re`'s `\s` matches in a str pattern |
| ChainLexer.EqualsRun | libtls13/script/evaluate-chain.py:7 | the `=*` of a long-comment opener is maximal |
| ChainLexer.LastCloser | libtls13/script/evaluate-chain.py:7 | the greedy `(?:.\|\n)*` ends at the LAST closer `]=*]` with the opener's number of `=`: the one found closes, no later one does, and when none is found there is none at all |
| ChainLexer.LongCommentEnd | libtls13/script/evaluate-chain.py:7 | a long comment, when it matches, opens with `--[`, k equals signs and `[`, ends just after a closer `]`, k equals signs, `]`, so spans at least `--[[]]` (6 characters), and stays inside the text |
| ChainLexer.FirstNewline | libtls13/script/evaluate-chain.py:8 | the newline found is the first one after the start, and None means there is no newline after it |
| ChainLexer.ShortCommentEnd | libtls13/script/evaluate-chain.py:8 | `--[^\n]*\n` matches exactly when the text starts with `--` and a newline follows; the match ends just after the first such newline |
| ChainLexer.Show | libtls13/script/evaluate-chain.py:9-11 | the text of a well-formed token is non-empty and starts with neither white space nor `-`, so no comment rule can take it |
| ChainLexer.DecimalDigitsValue | libtls13/script/evaluate-chain.py:9 | `int(token)` of the decimal digits of n is n |
| ChainLexer.TokenizeOne | libtls13/script/evaluate-chain.py:6-13 | scanning a token's text followed by a space emits exactly that token and then scans the rest |
| ChainLexer.DigitRunExact | libtls13/script/evaluate-chain.py:9 | a digit run followed by a non-digit is exactly that long |
| ChainLexer.IdentRunExact | libtls13/script/evaluate-chain.py:10 | an identifier run followed by a non-identifier character is exactly that long |
| ChainLexer.TokenizeRoundTrip | libtls13/script/evaluate-chain.py:6-20 | scanning the space-separated text of any well-formed tokens gives back exactly those tokens, and nothing is unmatched |
| ChainLexer.UnmatchedCharacter | libtls13/script/evaluate-chain.py:17-20 | a character that no rule matches makes `parse_lua` fail with "unmatched", carrying the text from that character on |
| LuaParser.NextToken | libtls13/script/evaluate-chain.py:25-34 | `parse_token` succeeds only on a token of the wanted class (and value, when given); it then returns that token and advances by one; at the end of the tokens or on any other token it fails |
| LuaParser.NextArg | libtls13/script/evaluate-chain.py:58-62 | one argument, with its leading comma after the first, always advances |
| LuaParser.ArgList | libtls13/script/evaluate-chain.py:58-62 | the arguments read are one per remaining class, each of its class |
| LuaParser.Args | libtls13/script/evaluate-chain.py:54-66 | `parse_args` returns one token per requested class, each of that class, between `(` and `)` |
| LuaParser.Build | libtls13/script/evaluate-chain.py:68-81 | the tuple built for a call has the number of operands its opcode expects |
| LuaParser.Call | libtls13/script/evaluate-chain.py:68-81 | a call's arguments are consumed and the position advances |
| LuaParser.Func | libtls13/script/evaluate-chain.py:83-95 | `parse_func` advances when it succeeds |
| LuaParser.LoopStart | libtls13/script/evaluate-chain.py:98-102 | `ident = 1 ,` takes exactly four tokens |
| LuaParser.LoopBound | libtls13/script/evaluate-chain.py:104-108 | `count , 1 do` takes exactly four tokens |
| LuaParser.For | libtls13/script/evaluate-chain.py:97-113 | `parse_for` advances when it succeeds |
| LuaParser.Statement | libtls13/script/evaluate-chain.py:115-124 | one iteration of the main loop advances when it succeeds |
| LuaParser.RepeatedSuffixWins | libtls13/script/evaluate-chain.py:84-87 | a name ending in RepeatedSq or RepeatedDouble also ends in Sq or Double, and the first branch still classifies it as repeated-sq |
| LuaParser.UnknownFunctionRejected | libtls13/script/evaluate-chain.py:94-95 | a call whose name has none of the known suffixes fails with "unknown function" |
| LuaParser.ForTokens | libtls13/script/evaluate-chain.py:97-113 | the token shape of a `for` loop is sixteen tokens |
| LuaParser.SquareArgList | libtls13/script/evaluate-chain.py:54-66 | two identifier arguments parse if and only if they are `ident , ident`, and that is what they parse to |
| LuaParser.SquareCall | libtls13/script/evaluate-chain.py:71-72 | a squaring call parses if and only if it is `( ident , ident )`, and it then emits ("sq", a, b) past the five tokens |
| LuaParser.LoopStartOk | libtls13/script/evaluate-chain.py:98-102 | `v = 1 ,` is accepted |
| LuaParser.LoopBoundOk | libtls13/script/evaluate-chain.py:104-108 | `n , 1 do` is accepted and yields n |
| LuaParser.LoopStartShape | libtls13/script/evaluate-chain.py:98-102 | whatever `v = 1 ,` accepts has that shape |
| LuaParser.LoopBoundShape | libtls13/script/evaluate-chain.py:104-108 | whatever `n , 1 do` accepts has that shape, and the count is that token's value |
| LuaParser.ForTokensAt | libtls13/script/evaluate-chain.py:97-113 | the sixteen tokens of a loop, one by one |
| LuaParser.ForTokensFrom | libtls13/script/evaluate-chain.py:97-113 | sixteen tokens laid out as a loop are that loop's tokens |
| LuaParser.ForStatement | libtls13/script/evaluate-chain.py:97-113 | a `for` loop whose body squares a into b becomes ("repeated-sq", a, b, n), whatever the loop variable and the function name, and takes sixteen tokens |
| LuaParser.ForStatementShape | libtls13/script/evaluate-chain.py:97-113 | conversely, a statement starting with `for` that parses has exactly that sixteen-token shape and that result |
| LuaParser.ProgramWellFormed | libtls13/script/evaluate-chain.py:115-126 | every tuple `parse_lua` emits has its opcode's arity and a non-negative repeat count |
| LuaParser.ForTokensWellFormed | libtls13/script/evaluate-chain.py:97-113 | the loop's tokens are well-formed when its names are |
| LuaParser.ForProgram | libtls13/script/evaluate-chain.py:115-126 | a token stream that is one loop parses to that one instruction |
| LuaParser.ForLoopText | libtls13/script/evaluate-chain.py:16-126 | the text of a loop parses to ("repeated-sq", a, b, n) |
| LuaParser.Parser.constructor | libtls13/script/evaluate-chain.py:22-23 | a fresh parser is at the first token with nothing parsed |
| LuaParser.Parser.ParseToken | libtls13/script/evaluate-chain.py:25-34 | the method consumes and returns what `NextToken` says, or fails as it does |
| LuaParser.Parser.ParseArgs | libtls13/script/evaluate-chain.py:54-66 | the method's loop reads what `Args` says |
| LuaParser.Parser.ParseCall | libtls13/script/evaluate-chain.py:68-81 | the method appends the tuple `Call` builds to `parsed` and nothing else |
| LuaParser.Parser.ParseFunc | libtls13/script/evaluate-chain.py:83-95 | the method dispatches on the suffix as `Func` does |
| LuaParser.Parser.ParseFor | libtls13/script/evaluate-chain.py:97-113 | the method parses the loop and rewrites the last tuple (`parsed[-1] = ...`) as `For` says |
| LuaParser.Parser.Run | libtls13/script/evaluate-chain.py:115-126 | the `for token in it` loop returns exactly the instructions `Program` defines, or its error |
| LuaParser.Parse | libtls13/script/evaluate-chain.py:16-126 | `parse_lua(code)` is scanning followed by the parser loop |
| AddchainParser.LineEnd | libtls13/script/evaluate-chain.py:132 | the end of a line is the first line boundary |
| AddchainParser.SplitLines | libtls13/script/evaluate-chain.py:132 | `splitlines` gives lines without boundaries, and none at all for "" |
| AddchainParser.SplitJoinLines | libtls13/script/evaluate-chain.py:132 | lines each ended by "\n" split back into the same lines |
| AddchainParser.SingleLine | libtls13/script/evaluate-chain.py:132 | a non-empty text with no boundary is one line |
| AddchainParser.IndexOf | libtls13/script/evaluate-chain.py:133 | the first occurrence of the separator, or the end |
| AddchainParser.SplitOn | libtls13/script/evaluate-chain.py:133 | `split("\t")` gives at least one field and no field holds a tab |
| AddchainParser.JoinSplit | libtls13/script/evaluate-chain.py:133 | joining the fields of a split gives back the line |
| AddchainParser.SplitJoin | libtls13/script/evaluate-chain.py:133 | splitting joined tab-free fields gives back the fields |
| AddchainParser.ParseAddchain | libtls13/script/evaluate-chain.py:128-160 | the loop over lines returns exactly what `Addchain` defines, or its error |
| AddchainParser.Opcodes | libtls13/script/evaluate-chain.py:135-158 | a line `op\targs…` becomes sq, mul, div or zero with the same fields for double, add, sub or zero; it is skipped for tmp; it ends parsing for break; any other opcode fails with "unknown instruction" |
| AddchainParser.LineOfFields | libtls13/script/evaluate-chain.py:133 | a line built from tab-free fields is dispatched on exactly those fields |
| AddchainParser.ShiftLine | libtls13/script/evaluate-chain.py:151-152 | `shift\tnames…\tstr(c)` becomes ("repeated-sq", names…, c) for every integer c |
| AddchainParser.ShiftLineOf | libtls13/script/evaluate-chain.py:151-152 | the same for any last field that `int` reads as c |
| AddchainParser.ShiftDispatch | libtls13/script/evaluate-chain.py:151-152 | the count is the last field and the operands are the fields before it |
| AddchainParser.ShiftErrors | libtls13/script/evaluate-chain.py:151-152 | a `shift` with no fields fails (the `args[-1]` IndexError), and one whose last field is not an integer literal fails with that literal |
| AddchainParser.LinesAppend | libtls13/script/evaluate-chain.py:132-160 | lines without break and without errors contribute their instructions in order, followed by those of the rest |
| AddchainParser.BreakIgnoresRest | libtls13/script/evaluate-chain.py:154-155 | nothing after a `break` line is read, not even lines that would fail |
| AddchainParser.TmpIgnored | libtls13/script/evaluate-chain.py:136-137 | a `tmp` line contributes nothing |
| AddchainParser.KeywordLines | libtls13/script/evaluate-chain.py:136-155 | the lines "break" and "tmp" alone stop and skip |
| Monomials.Keys | libtls13/script/evaluate-chain.py:186 | the keys of `vars.items()` (and of `env.items()`), one per entry, in order |
| Monomials.Find | libtls13/script/evaluate-chain.py:181 | the entry for a variable is found exactly when the variable is a key |
| Monomials.FindDistinct | libtls13/script/evaluate-chain.py:181 | with distinct keys, each key is found at its own entry |
| Monomials.Filter | libtls13/script/evaluate-chain.py:189-190 | a key is kept exactly when it is a key of the second operand and new to the first |
| Monomials.FilterAppend | libtls13/script/evaluate-chain.py:189-190 | the kept keys stay in the order the second operand holds them: filtering distributes over concatenation |
| Monomials.BumpKeys | libtls13/script/evaluate-chain.py:180-181 | `mul` keeps an existing key in its place and appends a new one, so keys stay distinct |
| Monomials.BumpExp | libtls13/script/evaluate-chain.py:180-181 | `mul(v, e)` adds e to v's exponent (0 when absent) and changes no other exponent |
| Monomials.AbsorbKeys | libtls13/script/evaluate-chain.py:186-190 | folding `mul` over another monomial's items appends its new keys in their order |
| Monomials.AbsorbExp | libtls13/script/evaluate-chain.py:186-190 | folding k-scaled items adds k times each exponent |
| Monomials.CopyIsSame | libtls13/script/evaluate-chain.py:186-187 | copying into an empty monomial gives the same dict |
| Monomials.ProductSpec | libtls13/script/evaluate-chain.py:183-192 | `a * b` has a's keys then b's new keys, and each exponent is the sum |
| Monomials.QuotientSpec | libtls13/script/evaluate-chain.py:194-203 | `a / b` has the same keys, and each exponent is the difference |
| Monomials.ProductThenQuotient | libtls13/script/evaluate-chain.py:183-203 | (a * b) / b has a's exponents, but keeps b's keys (with exponent 0) |
| Monomials.PowerSpec | libtls13/script/evaluate-chain.py:205-211 | `m ** n` has the same keys in the same order, each exponent times n |
| Monomials.PowersOfOneVariable | libtls13/script/evaluate-chain.py:245-249 | squaring and `** (2**c)` of one variable multiply its exponent |
| Monomials.Monomial.constructor | libtls13/script/evaluate-chain.py:174-178 | `Monomial(name)` is {name: 1} for a non-empty name and {} otherwise |
| Monomials.Monomial.Mul | libtls13/script/evaluate-chain.py:180-181 | `mul` updates the object's dict as `Bump` says |
| Monomials.Monomial.Times | libtls13/script/evaluate-chain.py:183-192 | `__mul__` returns a new object holding `Product` of the two dicts |
| Monomials.Monomial.DividedBy | libtls13/script/evaluate-chain.py:194-203 | `__truediv__` returns a new object holding `Quotient` |
| Monomials.Monomial.Raised | libtls13/script/evaluate-chain.py:205-211 | `__pow__` returns a new object holding `Power` |
| Monomials.FormatExpForms | libtls13/script/evaluate-chain.py:163-170 | `format_exp` is "" exactly for 1, `**` and decimal below 1024, `**0x` and lower-case hex from 1024 on, and the exponent can be read back from every form |
| Monomials.FormatHexForm | libtls13/script/evaluate-chain.py:170 | the hex form is `**0x` then lower-case hex digits that read back as the exponent |
| Monomials.FormatDecimalForm | libtls13/script/evaluate-chain.py:167-168 | the decimal form is `**` then `str(exp)`, read back as the exponent |
| Monomials.HexIsLower | libtls13/script/evaluate-chain.py:170 | `{:x}` digits are lower-case |
| Monomials.RenderSnoc | libtls13/script/evaluate-chain.py:213-218 | `__str__` joins the terms with " * " in key order |
| Monomials.RenderForms | libtls13/script/evaluate-chain.py:213-220 | the empty monomial prints "1", x^1 prints "x", x^0 prints "x**0" |
| Evaluator.IndexIn | libtls13/script/evaluate-chain.py:234 | a name is found exactly when it is bound |
| Evaluator.Listing | libtls13/script/evaluate-chain.py:255-256 | one printed line per binding |
| Evaluator.PutSpec | libtls13/script/evaluate-chain.py:240 | `env[v1] = …` binds v1 to the value and leaves every other binding alone; a new name goes last and an existing one keeps its place |
| Evaluator.TouchSpec | libtls13/script/evaluate-chain.py:233-234 | `get_var` binds a name that was unbound to `Monomial(name)` at the end, leaves a bound name alone, and returns its value |
| Evaluator.OperandsSpec | libtls13/script/evaluate-chain.py:240 | the two `get_var` calls run left to right: the second sees the first one's binding |
| Evaluator.StepSpec | libtls13/script/evaluate-chain.py:237-252 | one instruction keeps the environment well-formed and adds exactly the names it touches, in order |
| Evaluator.MulStep | libtls13/script/evaluate-chain.py:239-240 | "mul" touches v2, v3 and then v1 |
| Evaluator.DivStep | libtls13/script/evaluate-chain.py:242-243 | "div" touches v2, v3 and then v1 |
| Evaluator.PowerOfOperand | libtls13/script/evaluate-chain.py:245-249 | "sq" and "repeated-sq" touch v2 and then v1 |
| Evaluator.ExecNames | libtls13/script/evaluate-chain.py:237-252 | after the loop `env` binds exactly the touched names, in first-touch order |
| Evaluator.StepValue | libtls13/script/evaluate-chain.py:237-252 | the new binding's exponent of every variable is the sum (mul) or difference (div) of the operands' exponents, twice the operand's (sq), 2^count times it (repeated-sq), and the empty monomial for zero |
| Evaluator.PowerExp | libtls13/script/evaluate-chain.py:205-211 | raising to n multiplies every exponent by n |
| Evaluator.ArityMismatch | libtls13/script/evaluate-chain.py:237-252 | a tuple that matches no case changes nothing |
| Evaluator.SquareScenario | libtls13/script/evaluate-chain.py:237-256 | ("sq", "z", "x") on an empty env binds x = x and then z = x**2, and prints "x = x", "z = x**2" |
| Evaluator.ShiftScenario | libtls13/script/evaluate-chain.py:248-249 | ("repeated-sq", "z", "x", 5) binds z to x**32 |
| Evaluator.ZeroScenario | libtls13/script/evaluate-chain.py:251-256 | ("zero", "z") binds z to the empty monomial, printed "z = 1" |
| Evaluator.FreshOperand | libtls13/script/evaluate-chain.py:233-234 | reading an unbound name binds it to itself |
| Evaluator.Interpreter.constructor | libtls13/script/evaluate-chain.py:230 | `env = {}` |
| Evaluator.Interpreter.GetVar | libtls13/script/evaluate-chain.py:233-234 | the method updates the dict of objects as `Touch` says and returns the bound object |
| Evaluator.Interpreter.Assign | libtls13/script/evaluate-chain.py:240 | `env[v1] = m` updates as `Put` says |
| Evaluator.Interpreter.Multiply | libtls13/script/evaluate-chain.py:239-240 | the "mul" case updates `env` as the value-level step says |
| Evaluator.Interpreter.Divide | libtls13/script/evaluate-chain.py:242-243 | the "div" case updates `env` as the value-level step says |
| Evaluator.Interpreter.Raise | libtls13/script/evaluate-chain.py:245-249 | the "sq" and "repeated-sq" cases update `env` as the value-level step says |
| Evaluator.Interpreter.Execute | libtls13/script/evaluate-chain.py:237-252 | one `match` updates `env` as `Step` says, or reports its error |
| Evaluator.Interpreter.Run | libtls13/script/evaluate-chain.py:237-252 | the `for instr in instrs` loop ends in the state `ExecAll` defines, or with its error |
| Evaluator.Interpreter.Output | libtls13/script/evaluate-chain.py:255-256 | the printed lines are `Listing` of the current bindings |
| ChainProgram.EvaluateChain | libtls13/script/evaluate-chain.py:223-256 | the script prints exactly `ChainOutput`: the listing after running the front-end's instructions, or the parse or evaluation error |
| ChainProgram.Front | libtls13/script/evaluate-chain.py:225-228 | the first argument "addchain" selects `parse_addchain`, anything else `parse_lua` |
| ChainProgram.Evaluate | libtls13/script/evaluate-chain.py:230-256 | running on an empty `env` and printing it gives `Outcome` |
| ChainProgram.OutputNames | libtls13/script/evaluate-chain.py:230-256 | the printed names are exactly the touched names, in first-touch order |
| ChainProgram.LoopAgreesWithShift | libtls13/script/evaluate-chain.py:97-113 | the Lua loop `for v = 1, n, 1 do f(a, b) end` and the addchain line `shift\ta\tb\tn` give the same single instruction ("repeated-sq", a, b, n) |
| ChainProgram.ShiftText | libtls13/script/evaluate-chain.py:151-152 | the text of one `shift` line parses to one repeated-sq instruction |
| Numerals.NatToDigits | libtls13/script/evaluate-chain.py:168 | `str(n)` / `{:x}` digits: at least one digit, all in the base, with no leading zero |
| Numerals.DigitsRoundTrip | libtls13/script/evaluate-chain.py:168 | the digits of n read back as n |
| Numerals.DigitsLength | libtls13/script/generate-ec-test-data.py:577 | a number below base^k has at most k digits |
| Numerals.LeadingZeros | libtls13/script/generate-ec-test-data.py:577 | zero padding changes neither the digits' validity nor their value |
| Numerals.ZerosValue | libtls13/script/generate-ec-test-data.py:577 | a run of zeros is worth 0 |
| Numerals.Zeros | libtls13/script/generate-ec-test-data.py:577 | the padding is n zeros |
| Numerals.DecimalString | libtls13/script/evaluate-chain.py:168 | `str(n)` is non-empty and made of digits and a sign |
| Numerals.HexString | libtls13/script/evaluate-chain.py:170 | `{:x}` is non-empty hex |
| Numerals.StripLeftSpec | libtls13/script/evaluate-chain.py:152 | `int` drops the leading white space: what is left is a suffix that does not start with white space, and all before it is white space |
| Numerals.StripRightSpec | libtls13/script/evaluate-chain.py:152 | `int` drops the trailing white space: what is left is a prefix that does not end with white space, and all after it is white space |
| Numerals.DropUnderscoresSpec | libtls13/script/evaluate-chain.py:152 | `int` ignores digit-group underscores: none is left, every other character is kept, and a text without them is unchanged |
| Numerals.DropUnderscoresDigits | libtls13/script/evaluate-chain.py:152 | digits and underscores leave digits |
| Numerals.DropUnderscoresNone | libtls13/script/evaluate-chain.py:152 | plain digits are unchanged |
| Numerals.BodyValue | libtls13/script/evaluate-chain.py:152 | the unsigned body of a literal reads as a non-negative value |
| Numerals.PlainDigits | libtls13/script/generate-ec-test-data.py:374 | plain digits have no prefix to drop and read as their value |
| Numerals.NoWhitespaceStrip | libtls13/script/evaluate-chain.py:152 | the text of a number has no white space to strip |
| Numerals.DecimalRoundTrip | libtls13/script/evaluate-chain.py:152 | `int(str(n)) == n` for every integer n, negative ones included |
| Numerals.UnsignedDigits | libtls13/script/evaluate-chain.py:152 | `int` of plain decimal digits is their value |
| Numerals.SignedDigits | libtls13/script/evaluate-chain.py:152 | `int("-" + d)` is minus the value of d |
| Numerals.NegativeLiteral | libtls13/script/evaluate-chain.py:152 | a literal with a leading "-" reads as minus its body |
| Numerals.PaddedHexDigits | libtls13/script/generate-ec-test-data.py:577 | `{:0Nx}` is hex digits worth n |
| Numerals.PaddedHexRoundTrip | libtls13/script/generate-ec-test-data.py:577 | `int(format(n, "0Nx"), 16) == n` |
| Numerals.PaddedHexLength | libtls13/script/generate-ec-test-data.py:577 | a number below 16^N pads to exactly N digits |
| PrimeField.ToElement | libtls13/script/generate-ec-test-data.py:14-15 | `x % p` is the representative of x in [0, p) |
| PrimeField.Add | libtls13/script/generate-ec-test-data.py:17-18 | the representative of x + y |
| PrimeField.Mul | libtls13/script/generate-ec-test-data.py:20-21 | the representative of x * y |
| PrimeField.Pow | libtls13/script/generate-ec-test-data.py:23-24 | the representative of x^y |
| PrimeField.Neg | libtls13/script/generate-ec-test-data.py:26-27 | the representative of -x |
| PrimeField.Inv | libtls13/script/generate-ec-test-data.py:29-30 | `pow(x, -1, p)`: a result is an inverse in [0, p) |
| PrimeField.Legendre | libtls13/script/generate-ec-test-data.py:32-35 | the symbol is x^((p-1)/2) mod p, for odd p |
| PrimeField.NegSpec | libtls13/script/generate-ec-test-data.py:26-27 | x + (-x) = 0 and -(-x) = x |
| PrimeField.InvSpec | libtls13/script/generate-ec-test-data.py:29-30 | any inverse in [0, p) is the one returned; for a prime p an inverse exists if and only if x is non-zero mod p (otherwise ValueError) |
| Modular.Representative | libtls13/script/generate-ec-test-data.py:15 | `x % p` is the unique representative in [0, p) |
| Modular.PowMod | libtls13/script/generate-ec-test-data.py:24 | `pow(x, y, p)` is in [0, p) |
| Modular.Egcd | libtls13/script/generate-ec-test-data.py:30 | the extended Euclid: the Bézout identity holds and the result divides both |
| Modular.ModInverse | libtls13/script/generate-ec-test-data.py:30 | a result is an inverse modulo p |
| Modular.InverseUnique | libtls13/script/generate-ec-test-data.py:30 | any inverse in [0, p) is the one returned |
| Modular.NoInverse | libtls13/script/generate-ec-test-data.py:30 | when none is returned, none exists |
| Modular.PrimeInverse | libtls13/script/generate-ec-test-data.py:30 | modulo a prime, an inverse exists exactly for the non-zero residues |
| Modular.SquareRootsOfOne | libtls13/script/generate-ec-test-data.py:72-78 | modulo a prime, 1 and -1 are the only square roots of 1 |
| Modular.PowNonZero | libtls13/script/generate-ec-test-data.py:24 | a power of a non-zero residue modulo a prime is non-zero |
| FieldElements.MakeElem | libtls13/script/generate-ec-test-data.py:93-95 | `FieldElement(x, field)` holds the reduced x |
| FieldElements.ToFieldElement | libtls13/script/generate-ec-test-data.py:97-110 | an int is reduced; an element of the same field is returned as is; an element of another field is re-reduced; anything else raises TypeError |
| FieldElements.ToFieldElementIdempotent | libtls13/script/generate-ec-test-data.py:97-110 | converting a converted value again changes nothing |
| FieldElements.Coerce | libtls13/script/generate-ec-test-data.py:118-119 | `_coerce` gives an element of this field congruent to the operand |
| FieldElements.Const | libtls13/script/generate-ec-test-data.py:118-119 | an int operand becomes its representative |
| FieldElements.Plus | libtls13/script/generate-ec-test-data.py:121-126 | `a + b` reduces a + b in a's field |
| FieldElements.Minus | libtls13/script/generate-ec-test-data.py:128-131 | `a - b` reduces a - b |
| FieldElements.RMinus | libtls13/script/generate-ec-test-data.py:133-136 | `n - a` reduces n - a |
| FieldElements.Times | libtls13/script/generate-ec-test-data.py:138-143 | `a * b` reduces a * b |
| FieldElements.Over | libtls13/script/generate-ec-test-data.py:145-148 | `a / b` gives r with r * b = a, or the ValueError of a non-invertible divisor |
| FieldElements.ROver | libtls13/script/generate-ec-test-data.py:150-153 | `n / a` gives r with r * a = n, or the ValueError |
| FieldElements.Power | libtls13/script/generate-ec-test-data.py:155-156 | `a ** n` reduces a^n |
| FieldElements.Negate | libtls13/script/generate-ec-test-data.py:158-159 | `-a` reduces -a |
| FieldElements.EqualSpec | libtls13/script/generate-ec-test-data.py:167-169 | `a == b` holds if and only if the values are congruent modulo a's modulus |
| FieldElements.SameElem | libtls13/script/generate-ec-test-data.py:167-169 | congruent reduced elements of one field are the same value |
| FieldElements.PlusLaws | libtls13/script/generate-ec-test-data.py:121-159 | + commutes, (a + b) - b = a, a + (-a) = 0, -(-a) = a, a - b = a + (-b) |
| FieldElements.ReflectedLaws | libtls13/script/generate-ec-test-data.py:133-153 | `__rsub__` and `__rtruediv__` agree with the forward operators on the coerced int |
| FieldElements.TimesLaws | libtls13/script/generate-ec-test-data.py:138-143 | * commutes |
| FieldElements.OverLaws | libtls13/script/generate-ec-test-data.py:145-148 | in a prime field, division succeeds if and only if the divisor is non-zero, and (a * b) / b = a |
| SquareRoot.TwoAdic | libtls13/script/generate-ec-test-data.py:52-56 | p - 1 = q * 2^s with q odd |
| SquareRoot.OddPart | libtls13/script/generate-ec-test-data.py:52-56 | the shifting loop computes `TwoAdic` |
| SquareRoot.Scan | libtls13/script/generate-ec-test-data.py:72-78 | the `for` loop breaks at an index in [i, m), or runs out |
| SquareRoot.FindIndex | libtls13/script/generate-ec-test-data.py:72-78 | the loop computes `Scan` |
| SquareRoot.Root | libtls13/script/generate-ec-test-data.py:43-89 | `sqrt`: 0 for 0, None for a non-residue, else the Tonelli-Shanks descent |
| SquareRoot.Sqrt | libtls13/script/generate-ec-test-data.py:43-89 | the method with its loops computes `Root` |
| SquareRoot.SquaringsIsPower | libtls13/script/generate-ec-test-data.py:72-78 | squaring k times raises to 2^k |
| SquareRoot.DescendSound | libtls13/script/generate-ec-test-data.py:70-89 | the loop keeps r^2 = x t, so a result squares to x |
| SquareRoot.RootSound | libtls13/script/generate-ec-test-data.py:43-89 | in either variant, whatever `sqrt` returns squares to x |
| SquareRoot.ScanFinds | libtls13/script/generate-ec-test-data.py:72-78 | the intended loop finds the least i with t^(2^i) = 1 |
| SquareRoot.DescendFinds | libtls13/script/generate-ec-test-data.py:70-89 | with c of order 2^m, the intended descent never runs out |
| SquareRoot.CorrectedFindsRoot | libtls13/script/generate-ec-test-data.py:43-89 | with a non-residue z, the intended algorithm returns a root for every quadratic residue |
| SquareRoot.AsWrittenMissesRoot | libtls13/script/generate-ec-test-data.py:72-78 | modulo 13, 4 = 2·2 is a residue, but the loop as written returns None for every z |
| SquareRoot.CorrectedFindsThatRoot | libtls13/script/generate-ec-test-data.py:72-78 | the intended loop returns 11 for the same input, with z = 2 |
| SquareRoot.ResidueZMisses | libtls13/script/generate-ec-test-data.py:58-62 | modulo 17, 2 = 6·6 is a residue, but with the residue z = 2 that the rejection loop accepts, even the intended descent returns None |
| SquareRoot.ThreeModFour | libtls13/script/generate-ec-test-data.py:43-89 | for p ≡ 3 (mod 4) both variants return x^((p+1)/4) for any z, which is a root |
| SquareRoot.ElemSqrtSpec | libtls13/script/generate-ec-test-data.py:112-116 | `FieldElement.sqrt`, with the script's loop or the intended one, squares back to the element; it exists for 0 and, in both variants and for any z, for every residue when p ≡ 3 (mod 4); with the intended loop it exists for every residue given a non-residue z; it is None for a non-zero non-residue |
| SquareRoot.ElemSqrtMisses | libtls13/script/generate-ec-test-data.py:112-116 | as written, `FieldElement(4, Field(13)).sqrt()` is None for every z, although 2·2 = 4 |
| ScalarMul.BitLengthSpec | libtls13/script/generate-ec-test-data.py:184-193 | 2^(k-1) <= n < 2^k for the returned k, and k = 0 exactly for n = 0 |
| ScalarMul.BitCount | libtls13/script/generate-ec-test-data.py:184-193 | the shifting loop computes `BitLength` |
| ScalarMul.LeadingDiv | libtls13/script/generate-ec-test-data.py:229-233 | the bits above i read as k / 2^i |
| ScalarMul.LeadingPositive | libtls13/script/generate-ec-test-data.py:229 | the bits above i are non-zero exactly for i below the bit length |
| ScalarMul.LadderFails | libtls13/script/generate-ec-test-data.py:226-235 | an addition that raises on a prefix ends the whole multiplication with that error |
| ScalarMul.Multiply | libtls13/script/generate-ec-test-data.py:226-235 | the loop over the bits from the top computes `Ladder` |
| ScalarMul.LadderMultiples | libtls13/script/generate-ec-test-data.py:226-235 | when adding multiples of P gives the multiple of the sum, the ladder gives k·P |
| ScalarMul.IntegerLadder | libtls13/script/generate-ec-test-data.py:226-235 | over integers the ladder computes k * x |
| ScalarMul.JacobianLadderOk | libtls13/script/generate-ec-test-data.py:226-235 | Jacobian multiplication never raises |
| ScalarMul.AffineMulSmall | libtls13/script/generate-ec-test-data.py:226-235 | 0·P = O, 1·P = P and 2·P = P.double() for affine points |
| ScalarMul.JacobianMulSmall | libtls13/script/generate-ec-test-data.py:226-235 | the same for Jacobian points |
| ScalarMul.JAddValid | libtls13/script/generate-ec-test-data.py:325-367 | `JacobianPoint.__add__` of two valid points of one curve is a valid point of that curve |
| ScalarMul.JacobianMulValid | libtls13/script/generate-ec-test-data.py:226-235 | `k * J` for a valid Jacobian point is a valid point of the same curve |
| ScalarMul.MulAgrees | libtls13/script/generate-ec-test-data.py:226-235 | over an odd prime field with a ≡ -3, the affine image of the Jacobian `k * J` is the affine `k * A`, for A the affine image of J, whenever the affine ladder does not raise |
| Encoding.Remove | libtls13/script/generate-ec-test-data.py:374 | `replace(c, '')` removes every c and adds nothing |
| Encoding.RemoveAbsent | libtls13/script/generate-ec-test-data.py:374 | nothing changes when c is absent |
| Encoding.RemoveAppend | libtls13/script/generate-ec-test-data.py:374 | removal distributes over concatenation |
| Encoding.BlanksIgnored | libtls13/script/generate-ec-test-data.py:373-374 | a space or newline anywhere does not change what `from_hex` reads |
| Encoding.NoBlanks | libtls13/script/generate-ec-test-data.py:374 | an encoded element has no blanks to remove |
| Encoding.EncodeSpec | libtls13/script/generate-ec-test-data.py:577 | for a modulus up to 16^96, an element encodes as exactly 96 lower-case hex digits |
| Encoding.RoundTrip | libtls13/script/generate-ec-test-data.py:577 | `from_hex` reads an encoded element back as the same element |
| Secp384r1.FieldFormula | libtls13/script/generate-ec-test-data.py:377 | the prime literal is 2^384 - 2^128 - 2^96 + 2^32 - 1, and n < p < 16^96 |
| Secp384r1.CurveSpec | libtls13/script/generate-ec-test-data.py:379-386 | building the curve from -3 and b succeeds, with a = p - 3 |
| Secp384r1.GOnCurve | libtls13/script/generate-ec-test-data.py:388-398 | the base point satisfies y^2 = x^3 - 3x + b |
| Secp384r1.SquareRootOnField | libtls13/script/generate-ec-test-data.py:43-89 | p ≡ 3 (mod 4), so on this field both variants of `sqrt` return x^((p+1)/4), a root, whatever z is |
| Secp384r1.ElementsEncode | libtls13/script/generate-ec-test-data.py:577 | every element of the field or of the scalars encodes in 96 digits and reads back |
| Curves.MakeCurve | libtls13/script/generate-ec-test-data.py:196-204 | `Curve(a, b, field)` coerces both coefficients and raises TypeError exactly on a non-number |
| Curves.Into | libtls13/script/generate-ec-test-data.py:252-253 | a coordinate is brought into the curve's field |
| Curves.MakePoint | libtls13/script/generate-ec-test-data.py:251-253 | `Point(x, y, curve)` holds coordinates of the curve's field that are congruent to the arguments |
| Curves.Zero | libtls13/script/generate-ec-test-data.py:255-257 | `Point.zero` is the identity of the curve |
| Curves.ThirdSpec | libtls13/script/generate-ec-test-data.py:275-278 | the third point is (s^2 - x1 - x2, -y1 + s(x1 - x3)) |
| Curves.ChordSlopeSpec | libtls13/script/generate-ec-test-data.py:273 | for distinct x the chord slope exists and satisfies s(x1 - x2) = y1 - y2 |
| Curves.TangentSlopeSpec | libtls13/script/generate-ec-test-data.py:269 | the tangent slope exists if and only if y != 0 (else ValueError) and satisfies s·2y = 3x^2 + a |
| Curves.AddIdentity | libtls13/script/generate-ec-test-data.py:263-266 | O + P = P and P + O = P |
| Curves.NegLaws | libtls13/script/generate-ec-test-data.py:280-281 | -P keeps x and negates y, -(-P) = P, and -P is on the curve when P is |
| Curves.AddErrors | libtls13/script/generate-ec-test-data.py:262-278 | addition raises if and only if it doubles a non-identity point with y = 0 |
| Curves.SubSelf | libtls13/script/generate-ec-test-data.py:223-224 | P - P = P + (-P), which is O when y != 0 and raises when y = 0 |
| Curves.AddClosed | libtls13/script/generate-ec-test-data.py:262-278 | the sum of two points on the curve is on the curve |
| Curves.ChordClosed | libtls13/script/generate-ec-test-data.py:273-278 | the chord's third point is on the curve |
| Curves.TangentClosed | libtls13/script/generate-ec-test-data.py:268-278 | the tangent's third point is on the curve |
| Curves.AddCommutes | libtls13/script/generate-ec-test-data.py:262-278 | P + Q = Q + P, errors included |
| Curves.ChordCommutes | libtls13/script/generate-ec-test-data.py:273-278 | the chord slope and the third point do not depend on the order |
| Curves.EqSpec | libtls13/script/generate-ec-test-data.py:283-289 | `Point.__eq__` is equality of the points |
| Curves.RootOnCurve | libtls13/script/generate-ec-test-data.py:206-207 | a y whose square is x^3 + ax + b gives a valid point of the curve with that x |
| Curves.RhsSpec | libtls13/script/generate-ec-test-data.py:207 | `x**3 + a*x + b` is the cubic modulo p |
| Curves.GetYSpec | libtls13/script/generate-ec-test-data.py:206-207 | in either variant of the square root, a returned y gives a point on the curve with that x; one is returned when the cubic is 0, and for every residue cubic when p ≡ 3 (mod 4); with the intended loop, for every residue cubic given a non-residue z; none when the cubic is a non-zero non-residue |
| CurveAlgebra.ChordOnCurve | libtls13/script/generate-ec-test-data.py:273-278 | the line through two points of the curve meets it at the reflected third point |
| CurveAlgebra.TangentOnCurve | libtls13/script/generate-ec-test-data.py:269-278 | the same for the tangent |
| CurveAlgebra.Reflect | libtls13/script/generate-ec-test-data.py:275-276 | a root of the line's gap, reflected, satisfies the curve equation |
| CurveAlgebra.CubicCongruent | libtls13/script/generate-ec-test-data.py:207 | congruent x give congruent cubics |
| Jacobian.MakeJ | libtls13/script/generate-ec-test-data.py:299-302 | `JacobianPoint(x, y, z, curve)` holds coordinates of the curve's field congruent to the arguments |
| Jacobian.FromAffineSpec | libtls13/script/generate-ec-test-data.py:308-311 | `from_affine` gives (x, y, 1), or Z = 0 for O, and `to_affine` of it is the point back |
| Jacobian.JZeroSpec | libtls13/script/generate-ec-test-data.py:304-306 | `zero` is (0, 1, 0), the identity, and maps to O |
| Jacobian.ToAffineOk | libtls13/script/generate-ec-test-data.py:313-317 | over a prime field `to_affine` never raises; it gives O exactly for Z = 0, and otherwise the point with x Z^2 = X and y Z^3 = Y |
| Jacobian.JNegLaws | libtls13/script/generate-ec-test-data.py:369-370 | `-J` negates Y only, and -(-J) = J |
| Jacobian.JNegAffine | libtls13/script/generate-ec-test-data.py:369-370 | the affine image of -J is -(affine image of J) |
| Jacobian.NegatedY | libtls13/script/generate-ec-test-data.py:369-370 | the affine y of -J is the negated y |
| Jacobian.DoubleZ | libtls13/script/generate-ec-test-data.py:334 | the doubled Z is 2YZ |
| Jacobian.JSubSelf | libtls13/script/generate-ec-test-data.py:240-241 | for a Jacobian point, `J == J` holds: J + (-J) is the identity |
| JacobianLaw.FromScaled | libtls13/script/generate-ec-test-data.py:313-317 | a Jacobian point scaled from (x, y) by a non-zero factor maps to (x, y) |
| JacobianLaw.Scaled | libtls13/script/generate-ec-test-data.py:313-317 | a point's affine image (x, y) satisfies X = x Z^2 and Y = y Z^3 |
| JacobianLaw.ChordJacobian | libtls13/script/generate-ec-test-data.py:345-367 | the add-2007-bl outputs are the chord sum scaled by 2 (x2 - x1) (Z1 Z2)^3 |
| JacobianLaw.ChordCase | libtls13/script/generate-ec-test-data.py:339-367 | for points whose affine x differ, the affine image of the Jacobian sum is the affine chord sum |
| JacobianDouble.DoubleJacobian | libtls13/script/generate-ec-test-data.py:325-337 | for a = -3, the dbl-2001-b outputs are the tangent sum scaled by 2 y Z^4 |
| JacobianDouble.DoubleCase | libtls13/script/generate-ec-test-data.py:325-337 | for a = -3 and y != 0, the affine image of `double()` is the affine tangent sum |
| JacobianDouble.DoubleTwoTorsion | libtls13/script/generate-ec-test-data.py:325-337 | for y = 0, `double()` gives the identity while the affine doubling raises |
| JacobianDouble.SameX | libtls13/script/generate-ec-test-data.py:348-356 | equal affine x make u1 == u2, and then s1 == s2 if and only if the affine y are equal, so the `self.double()` branch is taken exactly for equal points |
| JacobianDouble.VerticalCase | libtls13/script/generate-ec-test-data.py:355-367 | for equal x and different y, both laws give the identity |
| JacobianDouble.AddAgrees | libtls13/script/generate-ec-test-data.py:339-367 | over an odd prime field with a = -3: every affine image exists; whenever the affine sum exists it is the affine image of the Jacobian sum; the affine sum raises exactly when doubling a point with y = 0, and then the Jacobian sum is the identity |

## Left out

- `Field.random` and `Curve.random_point` (generate-ec-test-data.py:37-41, 209-216) draw from Python's random generator. The model takes the square root's `z` as a parameter, and every random choice in the test generation is left out.
- The `__main__` block of generate-ec-test-data.py (lines 406-581) builds test cases and writes JSON to standard output. Only the `"{:096x}"` element format it writes is modelled.
- Standard input and the command line of evaluate-chain.py are parameters of `ChainProgram.EvaluateChain`, and printing is the returned list of lines.
- The `__radd__`, `__rmul__`, `__pos__`, `__int__`, `__bool__`, `__hash__`, `__str__`, `__repr__` and `to_tuple` plumbing of `FieldElement` and `JacobianPoint` is folded into the functions it forwards to. The non-commuting reflected operators are modelled (`RMinus`, `ROver`).
- Python's dynamic typing: an operand that is neither an int nor a `FieldElement` is an `OtherValue`. `to_field_element` and `Curve` report TypeError for it. The element operators take elements or ints only.
- PrimeField.Field: a modulus below 2 is not modelled. Every field the script builds is over a prime above 2.
- PrimeField.Legendre: Euler's criterion is not proved. The square-root results assume the Legendre value they need (1 for x, p - 1 for z) rather than deriving it from quadratic residuosity.
- ChainLexer.Tokenize: a hand-written scanner with the same rule order and greediness, not Python's `re` engine. `\s` is the `str.isspace()` set, which is what `re` matches for `\s` in a str pattern.
- Numerals.PyInt: reads ASCII digits only. Python's `int()` also accepts other Unicode decimal digits (`int("٣") == 3`); for such text, for instance in the count of an addchain `shift` line, the model returns None where Python gives a number.
- SquareRoot.ElemSqrtSpec: with the script's own loop (`AsWritten`), a root is promised only for 0 and, when p ≡ 3 (mod 4), for every residue. For other primes the script misses roots (see Findings), so no more can be promised. secp384r1's prime is ≡ 3 (mod 4).
- For p = 3 the rejection loop of `sqrt` (generate-ec-test-data.py:58-62) never ends when it is reached (x = 1): `random(2)` can only draw z = 2, and `legendre(2)` is 2, not 1. The model takes z as a parameter, so this non-termination is not captured.
- Curves.GetYSpec: the same limit as `SquareRoot.ElemSqrtSpec`, since `get_y` is the square root of x^3 + ax + b.
- ScalarMul.MulAgrees: says nothing when the affine ladder raises, which happens when it doubles a point with y = 0. The script's comparison would fail there too.
- ScalarMul.BitCount: `assert n >= 0` is the precondition `n >= 0`. A negative scalar in `PointOps.__mul__` is likewise a precondition.
- Secp384r1: the primality of p and of the group order is not proved. So `JacobianDouble.AddAgrees`, which needs a prime field, is stated for every odd prime field with a = -3 and not instantiated for secp384r1. That the order times G is the identity is not proved either.
- JacobianDouble.DoubleCase: `JacobianPoint.double` uses the a = -3 formula for every curve. The agreement with the affine law is proved only for curves with a ≡ -3, which is the only kind the script builds.
- Evaluator.Step: a negative `shift` count (which `int` can read from an addchain listing) stops evaluation with `NegativeCount`. Python would go on with fractional exponents.
- `verify-ecdsa-mul.py` and the other scripts of the directory are not part of this model.

## Findings

| source | as written | input that shows it | evidently intended | confidence | as-written member | corrected member |
|---|---|---|---|---|---|---|
| libtls13/script/generate-ec-test-data.py:72-78 | the inner loop tests `tt == 1` before it squares `tt`, so the index it breaks at is one too large: the least i with t^(2^(i-1)) = 1 instead of the least i with t^(2^i) = 1; when t^(2^(m-1)) = 1 is the first hit, the `else` returns None | p = 13, x = 4 (= 2·2, a residue): `sqrt` returns None for every z | square, then test, so that i is the least index with t^(2^i) = 1, as Tonelli-Shanks requires; this returns 11 | not executed | SquareRoot.AsWrittenMissesRoot | SquareRoot.CorrectedFindsThatRoot |
| libtls13/script/generate-ec-test-data.py:58-62 | the rejection loop keeps a z with `legendre(z) == 1`, a quadratic residue, so c = z^q does not have order 2^s | p = 17, x = 2 (= 6·6), z = 2 (a residue mod 17): even the corrected descent returns None | keep a z with `legendre(z) == p - 1`, a non-residue; then a root is found for every residue | not executed | SquareRoot.ResidueZMisses | SquareRoot.CorrectedFindsRoot |

Neither defect affects secp384r1: its p ≡ 3 (mod 4), so s = 1, the descent is never entered, and both variants return x^((p+1)/4) (`Secp384r1.SquareRootOnField`). `SquareRoot.ElemSqrt` and `Curves.GetY` take the variant as a parameter; `AsWritten` is the script's behaviour, and `SquareRoot.ElemSqrtMisses` shows the first defect at the level of `FieldElement.sqrt`.
