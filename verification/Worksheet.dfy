/** The prover's polynomial interpreter (`compute_poly` in `libv/computation_p.cpp`): rationals
    accumulated token by token, and why it agrees with the field value of the expression. */
module Worksheet {
  import opened Arith
  import opened Poly
  import opened Rational
  import opened Expand

  /** Variables hold rationals; one never written holds 0. */
  type Store = map<Id, Rat>

  function Get(s: Store, v: Id): Rat {
    if v in s then s[v] else ZERO
  }

  // ----- value of an expression over the rationals, in the interpreter's order -----

  function PolyQ(p: Poly, s: Store): Rat
    decreases p, 1
  {
    SumQ(ZERO, false, p.terms, s)
  }

  function SumQ(acc: Rat, started: bool, ts: seq<Term>, s: Store): Rat
    decreases ts, 0
  {
    if ts == [] then acc
    else SumQ(if started then Add(acc, TermQ(ts[0], s)) else TermQ(ts[0], s), true, ts[1..], s)
  }

  function TermQ(t: Term, s: Store): Rat
    decreases t, 1
  {
    var m := ProductQ(ZERO, false, t.factors, s);
    if t.neg then Neg(m) else m
  }

  function ProductQ(acc: Rat, started: bool, fs: seq<Factor>, s: Store): Rat
    decreases fs, 0
  {
    if fs == [] then acc
    else ProductQ(if started then Mul(acc, FactorQ(fs[0], s)) else FactorQ(fs[0], s), true, fs[1..], s)
  }

  function FactorQ(f: Factor, s: Store): Rat
    decreases f, 2
  {
    match f
    case Const(c) => Q(c, 1)
    case Var(v) => Get(s, v)
    case Paren(p) => PolyQ(p, s)
  }

  // ----- its field image -----

  /** `convert_to_z` over all variables. */
  function FieldEnv(s: Store, p: int): Env
    requires p >= 2
  {
    (v: Id) => ToField(Get(s, v), p)
  }

  /** Every stored denominator is invertible in the field. */
  ghost predicate Units(s: Store, p: int)
    requires p > 0
  {
    forall v :: v in s ==> Unit(s[v], p)
  }

  lemma GetUnit(s: Store, v: Id, p: int)
    requires IsPrime(p) && Units(s, p)
    ensures Unit(Get(s, v), p)
  {
    FieldInteger(0, p);
  }

  ghost predicate Nonempty(ts: seq<Term>)
    decreases ts, 0
  {
    forall i :: 0 <= i < |ts| ==> NonemptyTerm(ts[i])
  }

  ghost predicate NonemptyTerm(t: Term)
    decreases t, 1
  {
    t.factors != [] && forall i :: 0 <= i < |t.factors| ==> NonemptyFactor(t.factors[i])
  }

  ghost predicate NonemptyFactor(f: Factor)
    decreases f, 2
  {
    match f
    case Paren(p) => Nonempty(p.terms)
    case _ => true
  }

  lemma {:induction false} FactorField(f: Factor, s: Store, p: int)
    requires IsPrime(p) && Units(s, p) && NonemptyFactor(f)
    ensures Unit(FactorQ(f, s), p)
    ensures Cong(ToField(FactorQ(f, s), p), EvalFactor(f, FieldEnv(s, p)), p)
    decreases f, 2
  {
    match f
    case Const(c) => FieldInteger(c, p);
    case Var(v) => GetUnit(s, v, p);
    case Paren(q) => PolyField(q, s, p);
  }

  lemma {:induction false} ProductField(acc: Rat, fs: seq<Factor>, s: Store, p: int)
    requires IsPrime(p) && Units(s, p) && Unit(acc, p)
    requires forall i :: 0 <= i < |fs| ==> NonemptyFactor(fs[i])
    ensures Unit(ProductQ(acc, true, fs, s), p)
    ensures Cong(ToField(ProductQ(acc, true, fs, s), p), ToField(acc, p) * EvalFactors(fs, FieldEnv(s, p)), p)
    decreases fs, 0
  {
    if fs != [] {
      var f, env := fs[0], FieldEnv(s, p);
      FactorField(f, s, p);
      var next := Mul(acc, FactorQ(f, s));
      FieldArithmetic(acc, FactorQ(f, s), p);
      ProductField(next, fs[1..], s, p);
      ChainMul(ToField(next, p), ToField(acc, p), ToField(FactorQ(f, s), p), EvalFactor(f, env),
               EvalFactors(fs[1..], env), p);
    }
  }

  lemma ChainMul(n: int, a: int, x: int, y: int, z: int, p: int)
    requires p > 0 && Cong(n, a * x, p) && Cong(x, y, p)
    ensures Cong(n * z, a * (y * z), p)
  {
    CongMul(a, a, x, y, p);
    CongMul(n, a * y, z, z, p);
    MulAssoc(a, y, z);
  }

  lemma {:induction false} TermField(t: Term, s: Store, p: int)
    requires IsPrime(p) && Units(s, p) && NonemptyTerm(t)
    ensures Unit(TermQ(t, s), p) && Cong(ToField(TermQ(t, s), p), EvalTerm(t, FieldEnv(s, p)), p)
    decreases t, 1
  {
    var fs, env := t.factors, FieldEnv(s, p);
    FactorField(fs[0], s, p);
    ProductField(FactorQ(fs[0], s), fs[1..], s, p);
    var z := EvalFactors(fs[1..], env);
    CongMul(ToField(FactorQ(fs[0], s), p), EvalFactor(fs[0], env), z, z, p);
    var m := ProductQ(ZERO, false, fs, s);
    FieldNeg(m, p);
    CongMul(ToField(m, p), EvalFactors(fs, env), -1, -1, p);
  }

  lemma {:induction false} SumField(acc: Rat, ts: seq<Term>, s: Store, p: int)
    requires IsPrime(p) && Units(s, p) && Unit(acc, p) && Nonempty(ts)
    ensures Unit(SumQ(acc, true, ts, s), p)
    ensures Cong(ToField(SumQ(acc, true, ts, s), p), ToField(acc, p) + EvalTerms(ts, FieldEnv(s, p)), p)
    decreases ts, 0
  {
    if ts != [] {
      var t, env := ts[0], FieldEnv(s, p);
      TermField(t, s, p);
      var next := Add(acc, TermQ(t, s));
      FieldArithmetic(acc, TermQ(t, s), p);
      SumField(next, ts[1..], s, p);
      ChainAdd(ToField(next, p), ToField(acc, p), ToField(TermQ(t, s), p), EvalTerm(t, env), EvalTerms(ts[1..], env), p);
    }
  }

  lemma ChainAdd(n: int, a: int, x: int, y: int, z: int, p: int)
    requires p > 0 && Cong(n, a + x, p) && Cong(x, y, p)
    ensures Cong(n + z, a + (y + z), p)
  {
    CongAdd(a, a, x, y, p);
    CongAdd(n, a + y, z, z, p);
  }

  /** Evaluating over the rationals and converting gives the value of the expression in the field. */
  lemma {:induction false} PolyField(q: Poly, s: Store, p: int)
    requires IsPrime(p) && Units(s, p) && Nonempty(q.terms)
    ensures Unit(PolyQ(q, s), p)
    ensures Cong(ToField(PolyQ(q, s), p), EvalPoly(q, FieldEnv(s, p)), p)
    decreases q, 1
  {
    var ts, env := q.terms, FieldEnv(s, p);
    if ts == [] {
      FieldInteger(0, p);
    } else {
      TermField(ts[0], s, p);
      SumField(TermQ(ts[0], s), ts[1..], s, p);
      CongAdd(ToField(TermQ(ts[0], s), p), EvalTerm(ts[0], env), EvalTerms(ts[1..], env), EvalTerms(ts[1..], env), p);
    }
  }

  // ----- compute_poly on tokens -----

  /** `temp_stack_size` is 16 and each level takes two slots. */
  const MAX_DEPTH := 7

  /** The locals of `compute_poly`. */
  datatype Acc = Acc(poly: Rat, term: Rat, hasTerms: bool, hasFactors: bool, negate: bool)

  const INIT := Acc(ZERO, ZERO, false, false, false)

  function Emit(a: Acc): Acc {
    if !a.hasFactors then a
    else
      var t := if a.negate then Neg(a.term) else a.term;
      Acc(if a.hasTerms then Add(a.poly, t) else t, a.term, true, false, false)
  }

  function TakeFactor(a: Acc, f: Rat): Acc {
    a.(term := if a.hasFactors then Mul(a.term, f) else f, hasFactors := true)
  }

  /** Tokens are read up to a closing parenthesis, the final `E` (a closing parenthesis here too) or the
      end of input; `None` where the recursion would leave the temporary stack. */
  function ComputeLoop(tokens: seq<Token>, a: Acc, depth: nat, s: Store): (r: Option<(Rat, seq<Token>)>)
    ensures r.Some? ==> |r.value.1| <= |tokens|
    decreases |tokens|
  {
    if tokens == [] then Some((Emit(a).poly, []))
    else
      var rest := tokens[1..];
      match tokens[0]
      case LParen =>
        if depth >= MAX_DEPTH then None
        else
          var sub := ComputeLoop(rest, INIT, depth + 1, s);
          if sub.None? then None else ComputeLoop(sub.value.1, TakeFactor(a, sub.value.0), depth, s)
      case RParen => Some((Emit(a).poly, rest))
      case Plus => ComputeLoop(rest, Emit(a), depth, s)
      case Minus => ComputeLoop(rest, Emit(a).(negate := !Emit(a).negate), depth, s)
      case Star => ComputeLoop(rest, a, depth, s)
      case Blank => ComputeLoop(rest, a, depth, s)
      case NumTok(n) => ComputeLoop(rest, TakeFactor(a, Q(n, 1)), depth, s)
      case NameTok(v) => ComputeLoop(rest, TakeFactor(a, Get(s, v)), depth, s)
  }

  /** `compute_poly` as a loop over the token cursor. */
  method ComputePoly(tokens: seq<Token>, depth: nat, s: Store) returns (r: Option<(Rat, seq<Token>)>)
    ensures r == ComputeLoop(tokens, INIT, depth, s)
    decreases |tokens|
  {
    var cmds, a := tokens, INIT;
    while cmds != []
      invariant |cmds| <= |tokens|
      invariant ComputeLoop(tokens, INIT, depth, s) == ComputeLoop(cmds, a, depth, s)
      decreases |cmds|
    {
      var tok := cmds[0];
      cmds := cmds[1..];
      if tok == Plus || tok == Minus {
        a := Emit(a);
      }
      if tok == LParen {
        if depth >= MAX_DEPTH { return None; }
        var sub := ComputePoly(cmds, depth + 1, s);
        if sub.None? { return None; }
        a, cmds := TakeFactor(a, sub.value.0), sub.value.1;
      } else if tok == RParen {
        return Some((Emit(a).poly, cmds));
      } else if tok == Minus {
        a := a.(negate := !a.negate);
      } else if tok.NumTok? {
        a := TakeFactor(a, Q(tok.n, 1));
      } else if tok.NameTok? {
        a := TakeFactor(a, Get(s, tok.v));
      }
    }
    return Some((Emit(a).poly, []));
  }

  /** Parentheses nest no deeper than the temporary stack allows. */
  predicate Fits(ts: seq<Term>, room: nat)
    decreases ts, 0
  {
    ts == [] || (FitsFactors(ts[0].factors, room) && Fits(ts[1..], room))
  }

  predicate FitsFactors(fs: seq<Factor>, room: nat)
    decreases fs, 0
  {
    fs == [] || (FitsFactor(fs[0], room) && FitsFactors(fs[1..], room))
  }

  predicate FitsFactor(f: Factor, room: nat)
    decreases f, 2
  {
    match f
    case Paren(p) => room > 0 && Fits(p.terms, room - 1)
    case _ => true
  }

  function AfterFactors(a: Acc, fs: seq<Factor>, s: Store): Acc {
    a.(term := ProductQ(a.term, a.hasFactors, fs, s), hasFactors := a.hasFactors || fs != [])
  }

  lemma {:induction false} ReadFactors(fs: seq<Factor>, tail: seq<Token>, a: Acc, depth: nat, s: Store)
    requires depth <= MAX_DEPTH && FitsFactors(fs, MAX_DEPTH - depth)
    requires forall i :: 0 <= i < |fs| ==> NonemptyFactor(fs[i])
    ensures ComputeLoop(PrintFactors(fs) + tail, a, depth, s) == ComputeLoop(tail, AfterFactors(a, fs, s), depth, s)
    decreases fs, 0
  {
    if fs == [] {
      assert PrintFactors(fs) + tail == tail;
      assert AfterFactors(a, fs, s) == a;
    } else {
      var star := if |fs| > 1 then [Star] else [];
      var after := PrintFactors(fs[1..]) + tail;
      assert PrintFactors(fs) + tail == PrintFactor(fs[0]) + (star + after);
      var b := TakeFactor(a, FactorQ(fs[0], s));
      ReadFactor(fs[0], star + after, a, depth, s);
      SkipStar(star, after, b, depth, s);
      ReadFactors(fs[1..], tail, b, depth, s);
      assert AfterFactors(b, fs[1..], s) == AfterFactors(a, fs, s);
    }
  }

  lemma SkipStar(star: seq<Token>, after: seq<Token>, b: Acc, depth: nat, s: Store)
    requires star == [] || star == [Star]
    ensures ComputeLoop(star + after, b, depth, s) == ComputeLoop(after, b, depth, s)
  {
    if star == [] {
      assert star + after == after;
    } else {
      assert (star + after)[0] == Star && (star + after)[1..] == after;
    }
  }

  lemma {:induction false} ReadFactor(f: Factor, tail: seq<Token>, a: Acc, depth: nat, s: Store)
    requires depth <= MAX_DEPTH && FitsFactor(f, MAX_DEPTH - depth) && NonemptyFactor(f)
    ensures ComputeLoop(PrintFactor(f) + tail, a, depth, s) == ComputeLoop(tail, TakeFactor(a, FactorQ(f, s)), depth, s)
    decreases f, 2
  {
    var tokens := PrintFactor(f) + tail;
    match f
    case Const(c) => assert tokens[0] == NumTok(c) && tokens[1..] == tail;
    case Var(v) => assert tokens[0] == NameTok(v) && tokens[1..] == tail;
    case Paren(p) =>
      assert PrintPoly(p) == [LParen] + PrintTerms(p.terms) + [RParen];
      assert tokens[0] == LParen && tokens[1..] == PrintTerms(p.terms) + [RParen] + tail;
      ReadTerms(p.terms, tail, INIT, depth + 1, s);
  }

  lemma {:induction false} ReadTerms(ts: seq<Term>, tail: seq<Token>, a: Acc, depth: nat, s: Store)
    requires depth <= MAX_DEPTH && Fits(ts, MAX_DEPTH - depth) && Nonempty(ts)
    requires a.hasFactors || !a.negate
    ensures ComputeLoop(PrintTerms(ts) + [RParen] + tail, a, depth, s)
         == Some((SumQ(Emit(a).poly, Emit(a).hasTerms, ts, s), tail))
    decreases ts, 0
  {
    var tokens := PrintTerms(ts) + [RParen] + tail;
    if ts == [] {
      assert tokens[0] == RParen && tokens[1..] == tail;
    } else {
      var t := ts[0];
      var after := PrintTerms(ts[1..]) + [RParen] + tail;
      assert tokens[0] == (if t.neg then Minus else Plus);
      assert tokens[1..] == PrintFactors(t.factors) + after;
      assert NonemptyTerm(t);
      var b := Emit(a).(negate := t.neg);
      ReadFactors(t.factors, after, b, depth, s);
      var c := AfterFactors(b, t.factors, s);
      ProductStart(b.term, t.factors, s);
      ReadTerms(ts[1..], tail, c, depth, s);
    }
  }

  lemma ProductStart(acc: Rat, fs: seq<Factor>, s: Store)
    requires fs != []
    ensures ProductQ(acc, false, fs, s) == ProductQ(ZERO, false, fs, s)
  {
  }

  /** The interpreter computes the value of every printed expression, zero prefixes included. */
  lemma ComputePrinted(p: Poly, tail: seq<Token>, s: Store)
    requires Fits(p.terms, MAX_DEPTH) && Nonempty(p.terms)
    ensures ComputeLoop(PrintTerms(p.terms) + [RParen] + tail, INIT, 0, s) == Some((PolyQ(p, s), tail))
  {
    ReadTerms(p.terms, tail, INIT, 0, s);
  }

  /** Unlike the compiler, the interpreter reads two minus signs as a plus. */
  lemma DoubleMinusIsPlus(tail: seq<Token>, depth: nat, s: Store)
    ensures ComputeLoop([Minus, Minus] + tail, INIT, depth, s) == ComputeLoop(tail, INIT, depth, s)
  {
    assert ([Minus, Minus] + tail)[1..] == [Minus] + tail && ([Minus] + tail)[1..] == tail;
  }
}
