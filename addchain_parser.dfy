/** `parse_addchain` of libtls13/script/evaluate-chain.py (lines 129-160):
    the text is cut into lines as `str.splitlines` does, each line into
    tab-separated fields as `str.split("\t")` does, and the first field
    picks what the line contributes. */
module AddchainParser {
  import opened Results
  import opened ChainIR
  import Numerals

  // ---------------------------------------------------------------------
  // `str.splitlines()`.

  /** The line boundaries of `str.splitlines`: \n, \r (and \r\n as one),
      \v, \f, \x1c, \x1d, \x1e, \x85, U+2028 and U+2029. */
  predicate IsLineBreak(c: char)
  {
    c == '\n' || c == '\r' || c == '\U{0B}' || c == '\U{0C}' || c == '\U{1C}' || c == '\U{1D}'
    || c == '\U{1E}' || c == '\U{85}' || c == '\U{2028}' || c == '\U{2029}'
  }

  predicate NoLineBreak(s: string)
  {
    forall i :: 0 <= i < |s| ==> !IsLineBreak(s[i])
  }

  /** The first line boundary at or after `i`, or |s| when there is none. */
  function LineEnd(s: string, i: nat): (k: nat)
    requires i <= |s|
    ensures i <= k <= |s| && NoLineBreak(s[i..k])
    ensures k < |s| ==> IsLineBreak(s[k])
    decreases |s| - i
  {
    if i == |s| || IsLineBreak(s[i]) then i
    else
      var k := LineEnd(s, i + 1);
      assert s[i..k] == [s[i]] + s[i + 1..k];
      k
  }

  /** `s.splitlines()`: the text between boundaries, without a trailing
      empty line, so "" has no lines at all. */
  function SplitLines(s: string): (ls: seq<string>)
    ensures forall j :: 0 <= j < |ls| ==> NoLineBreak(ls[j])
    ensures s == [] <==> ls == []
    decreases |s|
  {
    if s == [] then []
    else
      var k := LineEnd(s, 0);
      if k == |s| then [s]
      else
        var next := if s[k] == '\r' && k + 1 < |s| && s[k + 1] == '\n' then k + 2 else k + 1;
        [s[..k]] + SplitLines(s[next..])
  }

  /** Lines each ended by "\n". */
  function JoinLines(ls: seq<string>): string
  {
    if ls == [] then [] else ls[0] + "\n" + JoinLines(ls[1..])
  }

  /** Cutting "\n"-terminated lines gives the lines back. */
  lemma {:induction false} SplitJoinLines(ls: seq<string>)
    requires forall j :: 0 <= j < |ls| ==> NoLineBreak(ls[j])
    ensures SplitLines(JoinLines(ls)) == ls
    decreases |ls|
  {
    if ls != [] {
      var s := JoinLines(ls);
      var l := ls[0];
      assert s == l + ("\n" + JoinLines(ls[1..]));
      LineEndAt(s, l);
      assert s[..|l|] == l;
      assert s[|l| + 1..] == JoinLines(ls[1..]);
      SplitJoinLines(ls[1..]);
      assert [l] + ls[1..] == ls;
    }
  }

  /** A line without boundaries followed by anything ends where it ends. */
  lemma LineEndAt(s: string, l: string)
    requires |l| < |s| && s[..|l|] == l && NoLineBreak(l) && s[|l|] == '\n'
    ensures LineEnd(s, 0) == |l|
  {
  }

  // ---------------------------------------------------------------------
  // `str.split("\t")`.

  /** The first occurrence of `c` at or after `i`, or |s|. */
  function IndexOf(s: string, c: char, i: nat): (k: nat)
    requires i <= |s|
    ensures i <= k <= |s| && c !in s[i..k]
    ensures k < |s| ==> s[k] == c
    decreases |s| - i
  {
    if i == |s| || s[i] == c then i
    else
      var k := IndexOf(s, c, i + 1);
      assert s[i..k] == [s[i]] + s[i + 1..k];
      k
  }

  /** `s.split(sep)`: always at least one field, and no field holds `sep`. */
  function SplitOn(s: string, sep: char): (fs: seq<string>)
    ensures |fs| >= 1
    ensures forall j :: 0 <= j < |fs| ==> sep !in fs[j]
    decreases |s|
  {
    var k := IndexOf(s, sep, 0);
    assert s[..k] == s[0..k];
    if k == |s| then [s] else [s[..k]] + SplitOn(s[k + 1..], sep)
  }

  /** `sep.join(fs)`. */
  function JoinOn(fs: seq<string>, sep: char): string
    requires |fs| >= 1
  {
    if |fs| == 1 then fs[0] else fs[0] + [sep] + JoinOn(fs[1..], sep)
  }

  /** Splitting then joining gives the line back. */
  lemma {:induction false} JoinSplit(s: string, sep: char)
    ensures JoinOn(SplitOn(s, sep), sep) == s
    decreases |s|
  {
    var k := IndexOf(s, sep, 0);
    if k < |s| {
      JoinSplit(s[k + 1..], sep);
      assert s == s[..k] + [sep] + s[k + 1..];
    }
  }

  /** Joining fields free of `sep` then splitting gives the fields back. */
  lemma {:induction false} SplitJoin(fs: seq<string>, sep: char)
    requires |fs| >= 1 && forall j :: 0 <= j < |fs| ==> sep !in fs[j]
    ensures SplitOn(JoinOn(fs, sep), sep) == fs
    decreases |fs|
  {
    if |fs| == 1 {
      IndexOfAbsent(fs[0], sep);
    } else {
      var rest := fs[1..];
      SplitCons(fs[0], JoinOn(rest, sep), sep);
      TailFree(fs, sep);
      SplitJoin(rest, sep);
      assert [fs[0]] + rest == fs;
    }
  }

  /** The fields after the first are free of `sep` too. */
  lemma TailFree(fs: seq<string>, sep: char)
    requires |fs| >= 1 && forall j :: 0 <= j < |fs| ==> sep !in fs[j]
    ensures forall j :: 0 <= j < |fs| - 1 ==> sep !in fs[1..][j]
  {
    forall j | 0 <= j < |fs| - 1
      ensures sep !in fs[1..][j]
    {
      assert fs[1..][j] == fs[j + 1];
    }
  }

  /** Splitting a field, the separator and the rest gives the field first. */
  lemma SplitCons(f: string, rest: string, sep: char)
    requires sep !in f
    ensures SplitOn(f + [sep] + rest, sep) == [f] + SplitOn(rest, sep)
  {
    var s := f + [sep] + rest;
    IndexOfAt(s, f, sep);
    assert s[..|f|] == f;
    assert s[|f| + 1..] == rest;
  }

  lemma IndexOfAbsent(s: string, c: char)
    requires c !in s
    ensures IndexOf(s, c, 0) == |s|
  {
  }

  lemma IndexOfAt(s: string, f: string, c: char)
    requires |f| < |s| && s[..|f|] == f && c !in f && s[|f|] == c
    ensures IndexOf(s, c, 0) == |f|
  {
  }

  /** Text without a line boundary is one line. */
  lemma SingleLine(s: string)
    requires s != [] && NoLineBreak(s)
    ensures SplitLines(s) == [s]
  {
  }

  /** Joining boundary-free fields with a separator that is no boundary
      gives one line. */
  lemma {:induction false} JoinNoBreak(fs: seq<string>, sep: char)
    requires |fs| >= 1 && !IsLineBreak(sep)
    requires forall j :: 0 <= j < |fs| ==> NoLineBreak(fs[j])
    ensures NoLineBreak(JoinOn(fs, sep))
    decreases |fs|
  {
    if |fs| > 1 {
      JoinNoBreak(fs[1..], sep);
      var rest := JoinOn(fs[1..], sep);
      var s := fs[0] + [sep] + rest;
      forall i | 0 <= i < |s|
        ensures !IsLineBreak(s[i])
      {
        if i < |fs[0]| {
          assert s[i] == fs[0][i];
        } else if i > |fs[0]| {
          assert s[i] == rest[i - |fs[0]| - 1];
        }
      }
    }
  }

  // ---------------------------------------------------------------------
  // One line, and the whole text.

  /** What a line does: nothing ("tmp"), one instruction, or the end of
      parsing ("break"). */
  datatype Action = Skip | Emit(instr: Instr) | Stop

  /** The `match instr` of one line: the opcode is the first field and the
      remaining fields are the tuple's fields; `shift` reads its last field
      as `int(...)` and keeps the fields before it. */
  function LineStep(line: string): (r: Result<Action, ParseError>)
  {
    var fields := SplitOn(line, '\t');
    Dispatch(fields[0], fields[1..])
  }

  /** The cases of the `match`, on the opcode and the other fields. */
  function Dispatch(instr: string, args: seq<string>): (r: Result<Action, ParseError>)
  {
    if instr == "tmp" then Ok(Skip)
    else if instr == "double" then Ok(Emit(Instr(Sq, args)))
    else if instr == "add" then Ok(Emit(Instr(Mul, args)))
    else if instr == "sub" then Ok(Emit(Instr(Div, args)))
    else if instr == "zero" then Ok(Emit(Instr(Zero, args)))
    else if instr == "shift" then
      if |args| == 0 then Err(MissingCount)
      else
        match Numerals.PyInt(args[|args| - 1], 10)
        case None => Err(InvalidLiteral(args[|args| - 1]))
        case Some(c) => Ok(Emit(Instr(RepeatedSq(c), args[..|args| - 1])))
    else if instr == "break" then Ok(Stop)
    else Err(UnknownInstruction(instr))
  }

  /** The instructions of the lines, in order, up to the first "break". */
  function Lines(ls: seq<string>): (r: Result<seq<Instr>, ParseError>)
  {
    if ls == [] then Ok([])
    else
      match LineStep(ls[0])
      case Err(e) => Err(e)
      case Ok(Stop) => Ok([])
      case Ok(Skip) => Lines(ls[1..])
      case Ok(Emit(x)) =>
        var rest :- Lines(ls[1..]);
        Ok([x] + rest)
  }

  /** `parse_addchain(code)`. */
  function Addchain(code: string): Result<seq<Instr>, ParseError>
  {
    Lines(SplitLines(code))
  }

  /** `parse_addchain`, with its loop over the lines. */
  method ParseAddchain(code: string) returns (r: Result<seq<Instr>, ParseError>)
    ensures r == Addchain(code)
  {
    var lines := SplitLines(code);
    var parsed: seq<Instr> := [];
    ThenAllEmpty(Lines(lines));
    assert lines[0..] == lines;
    var i := 0;
    while i < |lines|
      invariant i <= |lines|
      invariant ThenAll(parsed, Lines(lines[i..])) == Lines(lines)
    {
      assert lines[i..][0] == lines[i] && lines[i..][1..] == lines[i + 1..];
      var a := LineStep(lines[i]);
      match a {
        case Err(e) =>
          return Err(e);
        case Ok(Skip) =>
        case Ok(Emit(x)) =>
          LinesEmit(lines[i..], parsed, x);
          parsed := parsed + [x];
        case Ok(Stop) =>
          assert parsed + [] == parsed;
          break;
      }
      i := i + 1;
    }
    if i == |lines| {
      assert parsed + [] == parsed;
    }
    r := Ok(parsed);
  }

  /** Unfolding `Lines` at a line that emits. */
  lemma LinesEmit(ls: seq<string>, parsed: seq<Instr>, x: Instr)
    requires ls != [] && LineStep(ls[0]) == Ok(Emit(x))
    ensures ThenAll(parsed, Lines(ls)) == ThenAll(parsed + [x], Lines(ls[1..]))
  {
    LinesCons(ls, x);
    ThenAllSnoc(parsed, x, Lines(ls[1..]));
  }

  lemma ThenAllSnoc(parsed: seq<Instr>, x: Instr, r: Result<seq<Instr>, ParseError>)
    ensures ThenAll(parsed, ThenAll([x], r)) == ThenAll(parsed + [x], r)
  {
    if r.Ok? {
      assert parsed + ([x] + r.value) == parsed + [x] + r.value;
    }
  }

  /** `Lines` at a line that emits x: x, then the rest. */
  lemma LinesCons(ls: seq<string>, x: Instr)
    requires ls != [] && LineStep(ls[0]) == Ok(Emit(x))
    ensures Lines(ls) == ThenAll([x], Lines(ls[1..]))
  {
    var r := Lines(ls[1..]);
    if r.Ok? {
      assert Lines(ls) == Ok([x] + r.value);
    } else {
      assert Lines(ls) == Err(r.error);
    }
  }

  // ---------------------------------------------------------------------
  // What the front-end promises.

  /** The opcode table: each known opcode emits its tag with the line's
      other fields, `tmp` emits nothing, `break` stops, and any other first
      field is an unknown instruction. */
  lemma Opcodes(op: string, args: seq<string>)
    requires '\t' !in op && forall j :: 0 <= j < |args| ==> '\t' !in args[j]
    ensures op == "double" ==> LineStep(JoinOn([op] + args, '\t')) == Ok(Emit(Instr(Sq, args)))
    ensures op == "add" ==> LineStep(JoinOn([op] + args, '\t')) == Ok(Emit(Instr(Mul, args)))
    ensures op == "sub" ==> LineStep(JoinOn([op] + args, '\t')) == Ok(Emit(Instr(Div, args)))
    ensures op == "zero" ==> LineStep(JoinOn([op] + args, '\t')) == Ok(Emit(Instr(Zero, args)))
    ensures op == "tmp" ==> LineStep(JoinOn([op] + args, '\t')) == Ok(Skip)
    ensures op == "break" ==> LineStep(JoinOn([op] + args, '\t')) == Ok(Stop)
    ensures op !in {"tmp", "double", "add", "sub", "zero", "shift", "break"} ==>
      LineStep(JoinOn([op] + args, '\t')) == Err(UnknownInstruction(op))
  {
    LineOfFields(op, args);
  }

  /** A line written as tab-joined fields is dispatched on those fields. */
  lemma LineOfFields(op: string, args: seq<string>)
    requires '\t' !in op && forall j :: 0 <= j < |args| ==> '\t' !in args[j]
    ensures LineStep(JoinOn([op] + args, '\t')) == Dispatch(op, args)
  {
    ConsFields(op, args);
    SplitJoin([op] + args, '\t');
  }

  /** Putting a tab-free opcode in front keeps the fields tab-free. */
  lemma ConsFields(op: string, args: seq<string>)
    requires '\t' !in op && forall j :: 0 <= j < |args| ==> '\t' !in args[j]
    ensures forall j :: 0 <= j < |[op] + args| ==> '\t' !in ([op] + args)[j]
    ensures ([op] + args)[0] == op && ([op] + args)[1..] == args
  {
    forall j | 0 <= j < |[op] + args|
      ensures '\t' !in ([op] + args)[j]
    {
      if j > 0 {
        assert ([op] + args)[j] == args[j - 1];
      }
    }
  }

  /** A `shift` line takes its last field as the count, written in decimal,
      and the fields before it as the tuple's names. */
  lemma ShiftLine(names: seq<string>, count: int)
    requires forall j :: 0 <= j < |names| ==> '\t' !in names[j]
    ensures LineStep(JoinOn(["shift"] + names + [Numerals.DecimalString(count)], '\t'))
      == Ok(Emit(Instr(RepeatedSq(count), names)))
  {
    DecimalHasNoTab(count);
    Numerals.DecimalRoundTrip(count);
    ShiftLineOf(names, Numerals.DecimalString(count), count);
  }

  /** A decimal numeral holds no tab. */
  lemma DecimalHasNoTab(count: int)
    ensures '\t' !in Numerals.DecimalString(count)
  {
    var c := Numerals.DecimalString(count);
    assert forall j :: 0 <= j < |c| ==> c[j] != '\t';
  }

  /** A `shift` line whose last field reads as `count`. */
  lemma ShiftLineOf(names: seq<string>, c: string, count: int)
    requires forall j :: 0 <= j < |names| ==> '\t' !in names[j]
    requires '\t' !in c && Numerals.PyInt(c, 10) == Some(count)
    ensures LineStep(JoinOn(["shift"] + names + [c], '\t')) == Ok(Emit(Instr(RepeatedSq(count), names)))
  {
    SnocFields(names, c);
    ShiftHasNoTab();
    LineOfFields("shift", names + [c]);
    ShiftDispatch(names, c, count);
  }

  /** Appending a tab-free field keeps the fields tab-free. */
  lemma SnocFields(names: seq<string>, c: string)
    requires forall j :: 0 <= j < |names| ==> '\t' !in names[j]
    requires '\t' !in c
    ensures forall j :: 0 <= j < |names + [c]| ==> '\t' !in (names + [c])[j]
    ensures ["shift"] + names + [c] == ["shift"] + (names + [c])
  {
    forall j | 0 <= j < |names + [c]|
      ensures '\t' !in (names + [c])[j]
    {
      if j < |names| {
        assert (names + [c])[j] == names[j];
      }
    }
  }

  lemma ShiftHasNoTab()
    ensures '\t' !in "shift"
  {
    assert "shift" == ['s', 'h', 'i', 'f', 't'];
  }

  /** The `shift` case of the dispatch, once the last field reads back. */
  lemma ShiftDispatch(names: seq<string>, c: string, count: int)
    requires Numerals.PyInt(c, 10) == Some(count)
    ensures Dispatch("shift", names + [c]) == Ok(Emit(Instr(RepeatedSq(count), names)))
  {
    var args := names + [c];
    assert args[|args| - 1] == c;
    assert args[..|args| - 1] == names;
  }

  /** A `shift` line without fields after the opcode, or whose last field
      is not an integer, is rejected. */
  lemma ShiftErrors(line: string)
    requires SplitOn(line, '\t')[0] == "shift"
    ensures |SplitOn(line, '\t')| == 1 ==> LineStep(line) == Err(MissingCount)
    ensures |SplitOn(line, '\t')| > 1 && Numerals.PyInt(SplitOn(line, '\t')[|SplitOn(line, '\t')| - 1], 10).None?
      ==> LineStep(line) == Err(InvalidLiteral(SplitOn(line, '\t')[|SplitOn(line, '\t')| - 1]))
  {
    var fs := SplitOn(line, '\t');
    assert |fs| > 1 ==> fs[1..][|fs[1..]| - 1] == fs[|fs| - 1];
  }

  /** Output order follows line order: lines that parse without a
      "break" put their instructions before those of later lines. */
  lemma {:induction false} LinesAppend(a: seq<string>, b: seq<string>)
    requires forall j :: 0 <= j < |a| ==> LineStep(a[j]).Ok? && !LineStep(a[j]).value.Stop?
    ensures Lines(a).Ok?
    ensures Lines(a + b) == ThenAll(Lines(a).value, Lines(b))
    decreases |a|
  {
    if a == [] {
      assert a + b == b;
      ThenAllEmpty(Lines(b));
    } else {
      assert (a + b)[0] == a[0] && (a + b)[1..] == a[1..] + b;
      LinesAppend(a[1..], b);
      match LineStep(a[0]).value
      case Skip =>
      case Emit(x) =>
        match Lines(b)
        case Err(e) =>
        case Ok(rest) =>
          assert [x] + (Lines(a[1..]).value + rest) == [x] + Lines(a[1..]).value + rest;
    }
  }

  /** A "break" line ends parsing: nothing after it matters. */
  lemma {:induction false} BreakIgnoresRest(a: seq<string>, brk: string, b: seq<string>)
    requires LineStep(brk) == Ok(Stop)
    ensures Lines(a + [brk] + b) == Lines(a)
    decreases |a|
  {
    if a == [] {
      assert a + [brk] + b == [brk] + b;
    } else {
      assert (a + [brk] + b)[0] == a[0] && (a + [brk] + b)[1..] == a[1..] + [brk] + b;
      BreakIgnoresRest(a[1..], brk, b);
    }
  }

  /** A line whose first field is "tmp" contributes nothing. */
  lemma {:induction false} TmpIgnored(a: seq<string>, tmp: string, b: seq<string>)
    requires LineStep(tmp) == Ok(Skip)
    ensures Lines(a + [tmp] + b) == Lines(a + b)
    decreases |a|
  {
    if a == [] {
      assert a + [tmp] + b == [tmp] + b && a + b == b;
      assert ([tmp] + b)[1..] == b;
    } else {
      assert (a + [tmp] + b)[0] == a[0] && (a + [tmp] + b)[1..] == a[1..] + [tmp] + b;
      assert (a + b)[0] == a[0] && (a + b)[1..] == a[1..] + b;
      TmpIgnored(a[1..], tmp, b);
    }
  }

  /** The lines "break" and "tmp" are read as they are spelled. */
  lemma KeywordLines()
    ensures LineStep("break") == Ok(Stop) && LineStep("tmp") == Ok(Skip)
  {
    Opcodes("break", []);
    Opcodes("tmp", []);
    assert JoinOn(["break"], '\t') == "break" && JoinOn(["tmp"], '\t') == "tmp";
  }
}
