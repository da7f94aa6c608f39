/** The evaluation loop of libtls13/script/evaluate-chain.py (lines 230-256):
    the global dict `env` from names to monomials, `get_var`, which binds a
    name on first read, and the `match` over the instruction tuples. The
    value-level functions say what each step does to the bindings; the
    `Interpreter` class keeps the dict of `Monomial` objects and is proved
    to follow them. */
module Evaluator {
  import opened Results
  import opened ChainIR
  import opened Monomials
  import Numerals

  /** The bindings of `env` as values, in insertion order. */
  type Env = seq<(string, Mono)>

  /** The position of `k` among the names, if it is there. */
  function IndexIn(ks: seq<string>, k: string): (r: Option<nat>)
    ensures r.Some? ==> r.value < |ks| && ks[r.value] == k
    ensures r.None? <==> k !in ks
    decreases |ks|
  {
    if ks == [] then None
    else if ks[0] == k then Some(0)
    else
      match IndexIn(ks[1..], k)
      case None => None
      case Some(i) => Some(i + 1)
  }

  predicate DistinctNames(ks: seq<string>)
  {
    forall i, j :: 0 <= i < j < |ks| ==> ks[i] != ks[j]
  }

  /** `env[k] = v`: an existing binding is replaced where it stands, a new
      one goes last. */
  function Put<V>(e: seq<(string, V)>, k: string, v: V): seq<(string, V)>
  {
    match IndexIn(Keys(e), k)
    case None => e + [(k, v)]
    case Some(i) => e[i := (k, v)]
  }

  /** `env[k]` for a bound name (the empty monomial for an unbound one,
      which the evaluator never reads). */
  function Lookup(e: Env, k: string): Mono
  {
    match IndexIn(Keys(e), k)
    case None => []
    case Some(i) => e[i].1
  }

  /** The bindings after `get_var(k)`: `env.setdefault(k, Monomial(k))`. */
  function Touch(e: Env, k: string): Env
  {
    if k in Keys(e) then e else e + [(k, Initial(Some(k)))]
  }

  /** What `get_var(k)` returns. */
  function Get(e: Env, k: string): Mono
  {
    Lookup(Touch(e, k), k)
  }

  /** `2**count` with a negative count makes Python continue with float
      exponents, which this model does not follow. */
  datatype EvalError = NegativeCount(count: int)

  /** Reading the operands of a binary instruction: `get_var(v2)`, then
      `get_var(v3)`; the bindings after both and the two values. */
  function Operands(e: Env, v2: string, v3: string): (Env, Mono, Mono)
  {
    var e1 := Touch(e, v2);
    var e2 := Touch(e1, v3);
    (e2, Lookup(e1, v2), Lookup(e2, v3))
  }

  /** One pass of the loop body. A tuple whose length the `match` does not
      expect matches no case and changes nothing. */
  function Step(e: Env, x: Instr): Result<Env, EvalError>
  {
    var a := x.args;
    if |a| != Arity(x.op) then Ok(e)
    else
      match x.op
      case Mul =>
        var (e2, p, q) := Operands(e, a[1], a[2]);
        Ok(Put(e2, a[0], Product(p, q)))
      case Div =>
        var (e2, p, q) := Operands(e, a[1], a[2]);
        Ok(Put(e2, a[0], Quotient(p, q)))
      case Sq =>
        Ok(Put(Touch(e, a[1]), a[0], Power(Get(e, a[1]), 2)))
      case RepeatedSq(c) =>
        if c < 0 then Err(NegativeCount(c))
        else Ok(Put(Touch(e, a[1]), a[0], Power(Get(e, a[1]), Numerals.Pow(2, c))))
      case Zero =>
        Ok(Put(e, a[0], []))
  }

  /** The whole loop `for instr in instrs`. */
  function ExecAll(e: Env, xs: seq<Instr>): Result<Env, EvalError>
    decreases |xs|
  {
    if xs == [] then Ok(e)
    else
      match Step(e, xs[0])
      case Err(err) => Err(err)
      case Ok(e1) => ExecAll(e1, xs[1..])
  }

  /** The printed lines `f"{var} = {value}"`, in the dict's order. */
  function Listing(e: Env): (lines: seq<string>)
    ensures |lines| == |e|
  {
    seq(|e|, i requires 0 <= i < |e| => e[i].0 + " = " + Render(e[i].1))
  }

  // ---------------------------------------------------------------------
  // The environment.

  /** `k` appended to the names unless it is there already. */
  function AddName(ks: seq<string>, k: string): seq<string>
  {
    if k in ks then ks else ks + [k]
  }

  function AddNames(ks: seq<string>, ns: seq<string>): seq<string>
    decreases |ns|
  {
    if ns == [] then ks else AddNames(AddName(ks, ns[0]), ns[1..])
  }

  /** Every binding holds a proper dict. */
  predicate Dicts(e: Env)
  {
    forall i :: 0 <= i < |e| ==> Distinct(e[i].1)
  }

  /** A well-formed environment: distinct names bound to dicts. */
  predicate WellFormedEnv(e: Env)
  {
    DistinctNames(Keys(e)) && Dicts(e)
  }

  lemma IndexDistinct(ks: seq<string>, i: nat)
    requires DistinctNames(ks) && i < |ks|
    ensures IndexIn(ks, ks[i]) == Some(i)
    decreases |ks|
  {
    if i > 0 {
      assert ks[1..][i - 1] == ks[i];
      IndexDistinct(ks[1..], i - 1);
    }
  }

  /** Assignment replaces the binding of `k`, leaves every other binding
      as it was, and adds `k` last only when it was unbound. */
  lemma PutSpec(e: Env, k: string, v: Mono, w: string)
    requires DistinctNames(Keys(e))
    ensures Keys(Put(e, k, v)) == AddName(Keys(e), k)
    ensures DistinctNames(Keys(Put(e, k, v)))
    ensures Lookup(Put(e, k, v), w) == if w == k then v else Lookup(e, w)
    ensures Dicts(e) && Distinct(v) ==> Dicts(Put(e, k, v))
  {
    var p := Put(e, k, v);
    match IndexIn(Keys(e), k)
    case None =>
      assert Keys(p) == Keys(e) + [k];
      NamesLookupSnoc(e, k, v, w);
    case Some(i) =>
      assert Keys(p) == Keys(e);
      if w == k {
        IndexDistinct(Keys(p), i);
      } else if w in Keys(e) {
        var j := IndexIn(Keys(e), w).value;
        IndexDistinct(Keys(e), j);
        IndexDistinct(Keys(p), j);
      }
  }

  lemma NamesLookupSnoc(e: Env, k: string, v: Mono, w: string)
    requires DistinctNames(Keys(e)) && k !in Keys(e)
    ensures Keys(e + [(k, v)]) == Keys(e) + [k]
    ensures DistinctNames(Keys(e + [(k, v)]))
    ensures Lookup(e + [(k, v)], w) == if w == k then v else Lookup(e, w)
  {
    var p := e + [(k, v)];
    assert Keys(p) == Keys(e) + [k];
    if w == k {
      IndexDistinct(Keys(p), |e|);
    } else if w in Keys(e) {
      var j := IndexIn(Keys(e), w).value;
      IndexDistinct(Keys(e), j);
      IndexDistinct(Keys(p), j);
    } else {
      assert w !in Keys(p);
    }
  }

  /** `get_var` on a bound name returns its value and changes nothing; on
      an unbound one it binds and returns `{name: 1}` (the empty monomial
      for ""), placed last. */
  lemma TouchSpec(e: Env, k: string, w: string)
    requires WellFormedEnv(e)
    ensures WellFormedEnv(Touch(e, k))
    ensures Keys(Touch(e, k)) == AddName(Keys(e), k)
    ensures k in Keys(e) ==> Touch(e, k) == e
    ensures k !in Keys(e) ==> Get(e, k) == Initial(Some(k))
    ensures Lookup(Touch(e, k), w) == if w == k then Get(e, k) else Lookup(e, w)
  {
    if k !in Keys(e) {
      NamesLookupSnoc(e, k, Initial(Some(k)), w);
      NamesLookupSnoc(e, k, Initial(Some(k)), k);
      var t := Touch(e, k);
      forall i | 0 <= i < |t| ensures Distinct(t[i].1) {
        if i < |e| { assert t[i] == e[i]; }
      }
    }
  }

  /** The names one instruction touches, in the order it touches them:
      the operands, then the target. */
  function Touched(x: Instr): seq<string>
  {
    var a := x.args;
    if |a| != Arity(x.op) then []
    else
      match x.op
      case Mul => [a[1], a[2], a[0]]
      case Div => [a[1], a[2], a[0]]
      case Sq => [a[1], a[0]]
      case RepeatedSq(_) => [a[1], a[0]]
      case Zero => [a[0]]
  }

  function TouchedAll(xs: seq<Instr>): seq<string>
    decreases |xs|
  {
    if xs == [] then [] else Touched(xs[0]) + TouchedAll(xs[1..])
  }

  lemma {:induction false} AddNamesAppend(ks: seq<string>, a: seq<string>, b: seq<string>)
    ensures AddNames(ks, a + b) == AddNames(AddNames(ks, a), b)
    decreases |a|
  {
    if a != [] {
      assert (a + b)[0] == a[0] && (a + b)[1..] == a[1..] + b;
      AddNamesAppend(AddName(ks, a[0]), a[1..], b);
    } else {
      assert a + b == b;
    }
  }

  /** Reading two operands keeps the environment well formed, adds their
      names in reading order, and yields what `get_var` returns for each. */
  lemma OperandsSpec(e: Env, v2: string, v3: string)
    requires WellFormedEnv(e)
    ensures WellFormedEnv(Operands(e, v2, v3).0)
    ensures Keys(Operands(e, v2, v3).0) == AddNames(Keys(e), [v2, v3])
    ensures Operands(e, v2, v3).1 == Get(e, v2) && Operands(e, v2, v3).2 == Get(Touch(e, v2), v3)
    ensures Distinct(Operands(e, v2, v3).1) && Distinct(Operands(e, v2, v3).2)
  {
    var e1 := Touch(e, v2);
    TouchSpec(e, v2, v2);
    TouchSpec(e1, v3, v2);
    var e2 := Touch(e1, v3);
    DictsLookup(e2, v2);
    DictsLookup(e2, v3);
    assert AddNames(Keys(e), [v2, v3]) == AddNames(AddName(Keys(e), v2), [v3]);
  }

  /** One step keeps the environment well formed and adds the names it
      touches, in touch order, after those already bound. */
  lemma StepSpec(e: Env, x: Instr)
    requires WellFormedEnv(e) && Step(e, x).Ok?
    ensures WellFormedEnv(Step(e, x).value)
    ensures Keys(Step(e, x).value) == AddNames(Keys(e), Touched(x))
  {
    var a := x.args;
    if |a| == Arity(x.op) {
      match x.op
      case Mul =>
        MulStep(e, a[0], a[1], a[2]);
      case Div =>
        DivStep(e, a[0], a[1], a[2]);
      case Sq =>
        PowerOfOperand(e, a[0], a[1], 2);
      case RepeatedSq(c) =>
        PowerOfOperand(e, a[0], a[1], Numerals.Pow(2, c));
      case Zero =>
        PutSpec(e, a[0], [], a[0]);
    }
  }

  lemma MulStep(e: Env, v0: string, v1: string, v2: string)
    requires WellFormedEnv(e)
    ensures var (e2, p, q) := Operands(e, v1, v2);
      WellFormedEnv(Put(e2, v0, Product(p, q))) && Keys(Put(e2, v0, Product(p, q))) == AddNames(Keys(e), [v1, v2, v0])
  {
    var (e2, p, q) := Operands(e, v1, v2);
    OperandsSpec(e, v1, v2);
    ProductSpec(p, q, v0);
    PutSpec(e2, v0, Product(p, q), v0);
    AddNamesAppend(Keys(e), [v1, v2], [v0]);
    assert [v1, v2] + [v0] == [v1, v2, v0];
  }

  lemma DivStep(e: Env, v0: string, v1: string, v2: string)
    requires WellFormedEnv(e)
    ensures var (e2, p, q) := Operands(e, v1, v2);
      WellFormedEnv(Put(e2, v0, Quotient(p, q))) && Keys(Put(e2, v0, Quotient(p, q))) == AddNames(Keys(e), [v1, v2, v0])
  {
    var (e2, p, q) := Operands(e, v1, v2);
    OperandsSpec(e, v1, v2);
    QuotientSpec(p, q, v0);
    PutSpec(e2, v0, Quotient(p, q), v0);
    AddNamesAppend(Keys(e), [v1, v2], [v0]);
    assert [v1, v2] + [v0] == [v1, v2, v0];
  }

  lemma PowerOfOperand(e: Env, v1: string, v2: string, n: int)
    requires WellFormedEnv(e)
    ensures WellFormedEnv(Put(Touch(e, v2), v1, Power(Get(e, v2), n)))
    ensures Keys(Put(Touch(e, v2), v1, Power(Get(e, v2), n))) == AddNames(Keys(e), [v2, v1])
  {
    var e1 := Touch(e, v2);
    TouchSpec(e, v2, v2);
    DictsLookup(e1, v2);
    PowerDistinct(Get(e, v2), n);
    PutSpec(e1, v1, Power(Get(e, v2), n), v1);
    assert [v2, v1][1..] == [v1];
    assert AddNames(Keys(e), [v2, v1]) == AddNames(AddName(Keys(e), v2), [v1]);
  }

  lemma DictsLookup(e: Env, k: string)
    requires Dicts(e)
    ensures Distinct(Lookup(e, k))
  {
  }

  lemma PowerDistinct(m: Mono, n: int)
    requires Distinct(m)
    ensures Distinct(Power(m, n))
  {
    AbsorbKeys([], m, n);
  }

  /** Output lists every name ever touched, read or written, in the order
      of its first touch. */
  lemma {:induction false} ExecNames(e: Env, xs: seq<Instr>)
    requires WellFormedEnv(e) && ExecAll(e, xs).Ok?
    ensures WellFormedEnv(ExecAll(e, xs).value)
    ensures Keys(ExecAll(e, xs).value) == AddNames(Keys(e), TouchedAll(xs))
    decreases |xs|
  {
    if xs != [] {
      StepSpec(e, xs[0]);
      var e1 := Step(e, xs[0]).value;
      ExecNames(e1, xs[1..]);
      AddNamesAppend(Keys(e), Touched(xs[0]), TouchedAll(xs[1..]));
    }
  }

  /** What each instruction binds its target to, in terms of the
      monomials its operands held (`get_var` binds an unbound operand to
      itself first): exponents added, subtracted, doubled, multiplied by
      2^c, or none at all. */
  lemma StepValue(e: Env, x: Instr, w: string)
    requires WellFormedEnv(e) && |x.args| == Arity(x.op) && Step(e, x).Ok?
    ensures x.op == Mul ==> (Exp(Lookup(Step(e, x).value, x.args[0]), w)
      == Exp(Get(e, x.args[1]), w) + Exp(Get(Touch(e, x.args[1]), x.args[2]), w))
    ensures x.op == Div ==> (Exp(Lookup(Step(e, x).value, x.args[0]), w)
      == Exp(Get(e, x.args[1]), w) - Exp(Get(Touch(e, x.args[1]), x.args[2]), w))
    ensures x.op == Sq ==> Exp(Lookup(Step(e, x).value, x.args[0]), w) == 2 * Exp(Get(e, x.args[1]), w)
    ensures x.op.RepeatedSq? ==> (x.op.count >= 0 && Exp(Lookup(Step(e, x).value, x.args[0]), w)
      == Numerals.Pow(2, x.op.count) * Exp(Get(e, x.args[1]), w))
    ensures x.op == Zero ==> Lookup(Step(e, x).value, x.args[0]) == []
  {
    var a := x.args;
    match x.op
    case Mul =>
      var (e2, p, q) := Operands(e, a[1], a[2]);
      OperandsSpec(e, a[1], a[2]);
      ProductSpec(p, q, w);
      PutSpec(e2, a[0], Product(p, q), a[0]);
    case Div =>
      var (e2, p, q) := Operands(e, a[1], a[2]);
      OperandsSpec(e, a[1], a[2]);
      QuotientSpec(p, q, w);
      PutSpec(e2, a[0], Quotient(p, q), a[0]);
    case Sq =>
      TouchSpec(e, a[1], a[1]);
      DictsLookup(Touch(e, a[1]), a[1]);
      PowerExp(Get(e, a[1]), 2, w);
      PutSpec(Touch(e, a[1]), a[0], Power(Get(e, a[1]), 2), a[0]);
    case RepeatedSq(c) =>
      TouchSpec(e, a[1], a[1]);
      DictsLookup(Touch(e, a[1]), a[1]);
      PowerExp(Get(e, a[1]), Numerals.Pow(2, c), w);
      PutSpec(Touch(e, a[1]), a[0], Power(Get(e, a[1]), Numerals.Pow(2, c)), a[0]);
    case Zero =>
      PutSpec(e, a[0], [], a[0]);
  }

  lemma PowerExp(m: Mono, n: int, w: string)
    requires Distinct(m)
    ensures Exp(Power(m, n), w) == n * Exp(m, w)
  {
    AbsorbExp([], m, n, w);
  }

  /** A tuple of the wrong length is skipped. */
  lemma ArityMismatch(e: Env, x: Instr)
    requires |x.args| != Arity(x.op)
    ensures Step(e, x) == Ok(e) && Touched(x) == []
  {
  }

  // ---------------------------------------------------------------------
  // Three small programs and what they print.

  /** `sq z x` on a fresh environment binds x to itself and z to x**2,
      and prints "x = x" then "z = x**2". */
  lemma SquareScenario()
    ensures ExecAll([], [Instr(Sq, ["z", "x"])]) == Ok([("x", [("x", 1)]), ("z", [("x", 2)])])
    ensures Listing([("x", [("x", 1)]), ("z", [("x", 2)])]) == ["x = x", "z = x**2"]
  {
    var e1: Env := [("x", [("x", 1)])];
    FreshOperand("x");
    PowersOfOneVariable("x", 1, 0);
    FreshTarget(e1, "z", [("x", 2)]);
    assert e1 + [("z", [("x", 2)])] == [("x", [("x", 1)]), ("z", [("x", 2)])];
    ExecSingle([], Instr(Sq, ["z", "x"]), [("x", [("x", 1)]), ("z", [("x", 2)])]);
    SquareListing();
  }

  /** The listing of x = x, z = x**2. */
  lemma SquareListing()
    ensures Listing([("x", [("x", 1)]), ("z", [("x", 2)])]) == ["x = x", "z = x**2"]
  {
    assert Render([("x", 1)]) == "x";
    assert Numerals.DecimalString(2) == "2";
    assert Render([("x", 2)]) == "x**2";
    var l := Listing([("x", [("x", 1)]), ("z", [("x", 2)])]);
    assert l[0] == "x = x" && l[1] == "z = x**2";
  }

  /** `repeated-sq z x 5` binds z to x**32. */
  lemma ShiftScenario()
    ensures ExecAll([], [Instr(RepeatedSq(5), ["z", "x"])]) == Ok([("x", [("x", 1)]), ("z", [("x", 32)])])
  {
    var e1: Env := [("x", [("x", 1)])];
    FreshOperand("x");
    assert Numerals.Pow(2, 5) == 32;
    PowersOfOneVariable("x", 1, 5);
    FreshTarget(e1, "z", [("x", 32)]);
    assert e1 + [("z", [("x", 32)])] == [("x", [("x", 1)]), ("z", [("x", 32)])];
    ExecSingle([], Instr(RepeatedSq(5), ["z", "x"]), [("x", [("x", 1)]), ("z", [("x", 32)])]);
  }

  /** A program of one instruction runs that instruction. */
  lemma ExecSingle(e: Env, x: Instr, e': Env)
    requires Step(e, x) == Ok(e')
    ensures ExecAll(e, [x]) == Ok(e')
  {
    assert [x][0] == x && [x][1..] == [];
  }

  /** `zero z` binds z to the empty monomial, printed as "z = 1". */
  lemma ZeroScenario()
    ensures ExecAll([], [Instr(Zero, ["z"])]) == Ok([("z", [])])
    ensures Listing([("z", [])]) == ["z = 1"]
  {
    var empty: Env := [];
    var none: Mono := [];
    assert Put(empty, "z", none) == [("z", none)];
    assert [Instr(Zero, ["z"])][1..] == [];
    assert Listing([("z", [])])[0] == "z = 1";
  }

  /** Reading an unbound name on an empty environment. */
  lemma FreshOperand(v: string)
    requires v != ""
    ensures Touch([], v) == [(v, [(v, 1)])] && Get([], v) == [(v, 1)]
  {
    assert Keys([(v, [(v, 1)])]) == [v];
  }

  /** Assigning a name that is not bound yet. */
  lemma FreshTarget(e: Env, k: string, m: Mono)
    requires k !in Keys(e)
    ensures Put(e, k, m) == e + [(k, m)]
  {
  }

  // ---------------------------------------------------------------------
  // The dict of objects.

  ghost function Objects(e: seq<(string, Monomial)>): set<Monomial>
  {
    set i | 0 <= i < |e| :: e[i].1
  }

  /** The bindings as values: each name with its object's current dict. */
  ghost function Snapshot(e: seq<(string, Monomial)>): (r: Env)
    reads Objects(e)
    ensures |r| == |e| && forall i :: 0 <= i < |e| ==> r[i] == (e[i].0, e[i].1.vars)
  {
    seq(|e|, i requires 0 <= i < |e| reads Objects(e) => (e[i].0, e[i].1.vars))
  }

  lemma SnapshotNames(e: seq<(string, Monomial)>)
    ensures Keys(Snapshot(e)) == Keys(e)
  {
  }

  lemma SnapshotPut(e: seq<(string, Monomial)>, k: string, m: Monomial)
    ensures Snapshot(Put(e, k, m)) == Put(Snapshot(e), k, m.vars)
  {
    SnapshotNames(e);
  }

  /** The global `env` and the functions that use it. */
  class Interpreter {
    var env: seq<(string, Monomial)>

    ghost function Values(): Env
      reads this, Objects(env)
    {
      Snapshot(env)
    }

    constructor ()
      ensures Values() == []
    {
      env := [];
    }

    /** `get_var(name)`. `Monomial(name)` is built whether or not it is
        needed. */
    method GetVar(name: string) returns (m: Monomial)
      modifies this
      ensures Values() == Touch(old(Values()), name)
      ensures m.vars == Lookup(Values(), name)
    {
      var initial := new Monomial(Some(name));
      SnapshotNames(env);
      var i := IndexIn(Keys(env), name);
      if i.None? {
        env := env + [(name, initial)];
        m := initial;
        assert Snapshot(env) == old(Snapshot(env)) + [(name, Initial(Some(name)))];
        SnapshotNames(env);
        IndexLast(Keys(env), name);
      } else {
        m := env[i.value].1;
        assert Values()[i.value] == (name, m.vars);
      }
    }

    /** `env[name] = m`. */
    method Assign(name: string, m: Monomial)
      modifies this
      ensures Values() == Put(old(Values()), name, m.vars)
    {
      SnapshotPut(env, name, m);
      env := Put(env, name, m);
    }

    /** `env[v1] = get_var(v2) * get_var(v3)`. */
    method Multiply(v1: string, v2: string, v3: string)
      modifies this
      ensures Values() == Put(Operands(old(Values()), v2, v3).0, v1,
        Product(Operands(old(Values()), v2, v3).1, Operands(old(Values()), v2, v3).2))
    {
      ghost var e0 := Values();
      var m2 := GetVar(v2);
      ghost var e1 := Values();
      var m3 := GetVar(v3);
      ghost var e2 := Values();
      assert (e2, m2.vars, m3.vars) == Operands(e0, v2, v3);
      var p := m2.Times(m3);
      assert Values() == e2;
      Assign(v1, p);
    }

    /** `env[v1] = get_var(v2) / get_var(v3)`. */
    method Divide(v1: string, v2: string, v3: string)
      modifies this
      ensures Values() == Put(Operands(old(Values()), v2, v3).0, v1,
        Quotient(Operands(old(Values()), v2, v3).1, Operands(old(Values()), v2, v3).2))
    {
      ghost var e0 := Values();
      var m2 := GetVar(v2);
      ghost var e1 := Values();
      var m3 := GetVar(v3);
      ghost var e2 := Values();
      assert (e2, m2.vars, m3.vars) == Operands(e0, v2, v3);
      var q := m2.DividedBy(m3);
      assert Values() == e2;
      Assign(v1, q);
    }

    /** `env[v1] = get_var(v2)**n`. */
    method Raise(v1: string, v2: string, n: int)
      modifies this
      ensures Values() == Put(Touch(old(Values()), v2), v1, Power(Get(old(Values()), v2), n))
    {
      ghost var e0 := Values();
      var m2 := GetVar(v2);
      ghost var e1 := Values();
      assert e1 == Touch(e0, v2) && m2.vars == Get(e0, v2);
      var s := m2.Raised(n);
      assert Values() == e1;
      Assign(v1, s);
    }

    /** One pass of the loop body. */
    method Execute(x: Instr) returns (r: Result<(), EvalError>)
      modifies this
      ensures Step(old(Values()), x).Ok? ==> r.Ok? && Values() == Step(old(Values()), x).value
      ensures Step(old(Values()), x).Err? ==> r == Err(Step(old(Values()), x).error)
    {
      var a := x.args;
      r := Ok(());
      ghost var e0 := Values();
      match x.op {
        case Mul =>
          if |a| == 3 {
            Multiply(a[0], a[1], a[2]);
            assert Step(e0, x) == Ok(Values());
          }
        case Div =>
          if |a| == 3 {
            Divide(a[0], a[1], a[2]);
            assert Step(e0, x) == Ok(Values());
          }
        case Sq =>
          if |a| == 2 {
            Raise(a[0], a[1], 2);
            assert Step(e0, x) == Ok(Values());
          }
        case RepeatedSq(c) =>
          if |a| == 2 {
            if c < 0 {
              return Err(NegativeCount(c));
            }
            Raise(a[0], a[1], Numerals.Pow(2, c));
            assert Step(e0, x) == Ok(Values());
          }
        case Zero =>
          if |a| == 1 {
            var z := new Monomial(None);
            assert z.vars == [] && Values() == e0;
            Assign(a[0], z);
            assert Step(e0, x) == Ok(Values());
          }
      }
    }

    /** `for instr in instrs: ...`. */
    method Run(xs: seq<Instr>) returns (r: Result<(), EvalError>)
      modifies this
      ensures ExecAll(old(Values()), xs).Ok? ==> r.Ok? && Values() == ExecAll(old(Values()), xs).value
      ensures ExecAll(old(Values()), xs).Err? ==> r == Err(ExecAll(old(Values()), xs).error)
    {
      var i := 0;
      assert xs[0..] == xs;
      while i < |xs|
        invariant i <= |xs|
        invariant ExecAll(Values(), xs[i..]) == ExecAll(old(Values()), xs)
      {
        assert xs[i..][0] == xs[i] && xs[i..][1..] == xs[i + 1..];
        var step := Execute(xs[i]);
        if step.Err? {
          return Err(step.error);
        }
        i := i + 1;
      }
      r := Ok(());
    }

    /** `for var, value in env.items(): print(f"{var} = {value}")`, as the
        lines it prints. */
    method Output() returns (lines: seq<string>)
      ensures lines == Listing(Values())
    {
      lines := [];
      var i := 0;
      while i < |env|
        invariant i <= |env|
        invariant lines == Listing(Values())[..i]
      {
        lines := lines + [env[i].0 + " = " + Render(env[i].1.vars)];
        i := i + 1;
      }
    }
  }

  lemma IndexLast(ks: seq<string>, k: string)
    requires ks != [] && ks[|ks| - 1] == k && k !in ks[..|ks| - 1]
    ensures IndexIn(ks, k) == Some(|ks| - 1)
    decreases |ks|
  {
    if |ks| > 1 {
      assert ks[0] != k by { assert ks[..|ks| - 1][0] == ks[0]; }
      assert ks[1..][..|ks| - 2] == ks[..|ks| - 1][1..];
      IndexLast(ks[1..], k);
    }
  }
}
