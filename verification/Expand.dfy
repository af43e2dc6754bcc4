/** Expansion of nested polynomial expressions into sums of monomials
    (`expand_polynomial`, `expand_add_term`, `product_term` in `code/compiler/backend/zcc_parser.py`). */
module Expand {
  import opened Arith
  import opened Poly

  /** A factor list with its constant in front. Sorting plus joining the names makes the dictionary
      key, so two lists share a key when their names form the same multiset. */
  datatype Mono = Mono(coeff: int, vars: seq<Id>)

  datatype Option<T> = None | Some(value: T)

  function VarsValue(vars: seq<Id>, env: Env): int {
    if vars == [] then 1 else env(vars[0]) * VarsValue(vars[1..], env)
  }

  function MonoValue(m: Mono, env: Env): int {
    m.coeff * VarsValue(m.vars, env)
  }

  function SumValue(ms: seq<Mono>, env: Env): int {
    if ms == [] then 0 else MonoValue(ms[0], env) + SumValue(ms[1..], env)
  }

  // ----- the operations -----

  /** `product_term`: nothing when the constants multiply to 0. */
  function ProductTerm(a: Mono, b: Mono): seq<Mono> {
    if a.coeff * b.coeff == 0 then [] else [Mono(a.coeff * b.coeff, a.vars + b.vars)]
  }

  function ProductRow(a: Mono, ms: seq<Mono>): seq<Mono> {
    if ms == [] then [] else ProductTerm(a, ms[0]) + ProductRow(a, ms[1..])
  }

  function Cross(as_: seq<Mono>, bs: seq<Mono>): seq<Mono> {
    if as_ == [] then [] else ProductRow(as_[0], bs) + Cross(as_[1..], bs)
  }

  function KeyIndex(e: seq<Mono>, vars: seq<Id>): (i: nat)
    ensures i <= |e|
    ensures i < |e| ==> multiset(e[i].vars) == multiset(vars)
    ensures forall k :: 0 <= k < i ==> multiset(e[k].vars) != multiset(vars)
  {
    if e == [] then 0
    else if multiset(e[0].vars) == multiset(vars) then 0
    else KeyIndex(e[1..], vars) + 1
  }

  /** `expand_add_term`: merge a term into the dictionary, dropping it when the constants cancel. */
  function AddTerm(e: seq<Mono>, m: Mono): seq<Mono> {
    var i := KeyIndex(e, m.vars);
    if i == |e| then e + [m]
    else
      var rest := e[..i] + e[i + 1..];
      if e[i].coeff + m.coeff != 0 then rest + [Mono(e[i].coeff + m.coeff, e[i].vars)] else rest
  }

  function AddTerms(e: seq<Mono>, ms: seq<Mono>): seq<Mono>
    decreases |ms|
  {
    if ms == [] then e else AddTerms(AddTerm(e, ms[0]), ms[1..])
  }

  /** A token entering a product. An empty list stands both for "no factor yet" and for zero. */
  function TimesToken(multiply: seq<Mono>, tok: Mono): seq<Mono> {
    if multiply == [] then ProductTerm(Mono(1, []), tok) else ProductRow(tok, multiply)
  }

  function TimesPoly(multiply: seq<Mono>, sub: seq<Mono>): seq<Mono> {
    if multiply == [] then sub else Cross(multiply, sub)
  }

  // ----- values -----

  lemma {:induction false} SumAppend(a: seq<Mono>, b: seq<Mono>, env: Env)
    ensures SumValue(a + b, env) == SumValue(a, env) + SumValue(b, env)
    decreases |a|
  {
    if a == [] {
      assert a + b == b;
    } else {
      SumAppend(a[1..], b, env);
      assert (a + b)[1..] == a[1..] + b;
    }
  }

  lemma {:induction false} VarsAppend(a: seq<Id>, b: seq<Id>, env: Env)
    ensures VarsValue(a + b, env) == VarsValue(a, env) * VarsValue(b, env)
    decreases |a|
  {
    if a == [] {
      assert a + b == b;
    } else {
      VarsAppend(a[1..], b, env);
      assert (a + b)[1..] == a[1..] + b;
      MulAssoc(env(a[0]), VarsValue(a[1..], env), VarsValue(b, env));
    }
  }

  lemma {:induction false} VarsRemove(a: seq<Id>, i: nat, env: Env)
    requires i < |a|
    ensures VarsValue(a, env) == env(a[i]) * VarsValue(a[..i] + a[i + 1..], env)
  {
    VarsAppend(a[..i], a[i..], env);
    VarsAppend(a[..i], a[i + 1..], env);
    assert a == a[..i] + a[i..] && a[i..][1..] == a[i + 1..];
    MulSwap(VarsValue(a[..i], env), env(a[i]), VarsValue(a[i + 1..], env));
  }

  lemma RemoveShared(a: seq<Id>, b: seq<Id>, i: nat)
    requires multiset(a) == multiset(b) && a != [] && i < |b| && b[i] == a[0]
    ensures multiset(a[1..]) == multiset(b[..i] + b[i + 1..])
  {
    assert a == [a[0]] + a[1..] && b == b[..i] + [b[i]] + b[i + 1..];
    assert multiset(b[..i] + b[i + 1..]) == multiset(b) - multiset{b[i]};
    assert multiset(a[1..]) == multiset(a) - multiset{a[0]};
  }

  /** The value of a product of names depends on its key only. */
  lemma {:induction false} VarsPermute(a: seq<Id>, b: seq<Id>, env: Env)
    requires multiset(a) == multiset(b)
    ensures VarsValue(a, env) == VarsValue(b, env)
    decreases |a|
  {
    if a == [] {
      assert |b| == |multiset(b)| == 0;
    } else {
      assert a[0] in multiset(b);
      var i :| 0 <= i < |b| && b[i] == a[0];
      RemoveShared(a, b, i);
      VarsPermute(a[1..], b[..i] + b[i + 1..], env);
      VarsRemove(b, i, env);
    }
  }

  lemma ProductTermValue(a: Mono, b: Mono, env: Env)
    ensures SumValue(ProductTerm(a, b), env) == MonoValue(a, env) * MonoValue(b, env)
  {
    VarsAppend(a.vars, b.vars, env);
    var c, d, x, y := a.coeff, b.coeff, VarsValue(a.vars, env), VarsValue(b.vars, env);
    assert (c * x) * (d * y) == (c * d) * (x * y) by {
      MulAssoc(c, x, d * y); MulSwap(x, d, y); MulAssoc(c, d, x * y);
    }
    var p := ProductTerm(a, b);
    if p != [] { assert p[1..] == []; }
  }

  lemma {:induction false} ProductRowValue(a: Mono, ms: seq<Mono>, env: Env)
    ensures SumValue(ProductRow(a, ms), env) == MonoValue(a, env) * SumValue(ms, env)
    decreases |ms|
  {
    if ms != [] {
      ProductTermValue(a, ms[0], env);
      ProductRowValue(a, ms[1..], env);
      SumAppend(ProductTerm(a, ms[0]), ProductRow(a, ms[1..]), env);
      MulDist(MonoValue(a, env), MonoValue(ms[0], env), SumValue(ms[1..], env));
    }
  }

  lemma {:induction false} CrossValue(as_: seq<Mono>, bs: seq<Mono>, env: Env)
    ensures SumValue(Cross(as_, bs), env) == SumValue(as_, env) * SumValue(bs, env)
    decreases |as_|
  {
    if as_ != [] {
      ProductRowValue(as_[0], bs, env);
      CrossValue(as_[1..], bs, env);
      SumAppend(ProductRow(as_[0], bs), Cross(as_[1..], bs), env);
      MulDist(SumValue(bs, env), MonoValue(as_[0], env), SumValue(as_[1..], env));
    }
  }

  lemma SumRemove(e: seq<Mono>, i: nat, env: Env)
    requires i < |e|
    ensures SumValue(e, env) == MonoValue(e[i], env) + SumValue(e[..i] + e[i + 1..], env)
  {
    SumAppend(e[..i], e[i..], env);
    SumAppend(e[..i], e[i + 1..], env);
    assert e == e[..i] + e[i..] && e[i..][1..] == e[i + 1..];
  }

  lemma AddTermValue(e: seq<Mono>, m: Mono, env: Env)
    ensures SumValue(AddTerm(e, m), env) == SumValue(e, env) + MonoValue(m, env)
  {
    var i := KeyIndex(e, m.vars);
    if i == |e| {
      SumAppend(e, [m], env);
      assert [m][1..] == [];
    } else {
      VarsPermute(e[i].vars, m.vars, env);
      SumRemove(e, i, env);
      var rest := e[..i] + e[i + 1..];
      var n := Mono(e[i].coeff + m.coeff, e[i].vars);
      MulDist(VarsValue(m.vars, env), e[i].coeff, m.coeff);
      SumAppend(rest, [n], env);
      assert [n][1..] == [];
    }
  }

  lemma {:induction false} AddTermsValue(e: seq<Mono>, ms: seq<Mono>, env: Env)
    ensures SumValue(AddTerms(e, ms), env) == SumValue(e, env) + SumValue(ms, env)
    decreases |ms|
  {
    if ms != [] {
      AddTermValue(e, ms[0], env);
      AddTermsValue(AddTerm(e, ms[0]), ms[1..], env);
    }
  }

  // ----- like terms are merged, no constant is 0 -----

  ghost predicate Reduced(e: seq<Mono>) {
    && (forall i :: 0 <= i < |e| ==> e[i].coeff != 0)
    && forall i, j :: 0 <= i < j < |e| ==> multiset(e[i].vars) != multiset(e[j].vars)
  }

  ghost predicate NonzeroCoeffs(e: seq<Mono>) {
    forall i :: 0 <= i < |e| ==> e[i].coeff != 0
  }

  lemma AddTermReduced(e: seq<Mono>, m: Mono)
    requires Reduced(e) && m.coeff != 0
    ensures Reduced(AddTerm(e, m))
  {
    var i := KeyIndex(e, m.vars);
    if i < |e| {
      var rest := e[..i] + e[i + 1..];
      assert forall k :: 0 <= k < |rest| ==> rest[k] == if k < i then e[k] else e[k + 1];
    }
  }

  lemma {:induction false} AddTermsReduced(e: seq<Mono>, ms: seq<Mono>)
    requires Reduced(e) && NonzeroCoeffs(ms)
    ensures Reduced(AddTerms(e, ms))
    decreases |ms|
  {
    if ms != [] {
      AddTermReduced(e, ms[0]);
      AddTermsReduced(AddTerm(e, ms[0]), ms[1..]);
    }
  }

  lemma {:induction false} ProductRowNonzero(a: Mono, ms: seq<Mono>)
    ensures NonzeroCoeffs(ProductRow(a, ms))
    decreases |ms|
  {
    if ms != [] { ProductRowNonzero(a, ms[1..]); }
  }

  lemma {:induction false} CrossNonzero(as_: seq<Mono>, bs: seq<Mono>)
    ensures NonzeroCoeffs(Cross(as_, bs))
    decreases |as_|
  {
    if as_ != [] {
      ProductRowNonzero(as_[0], bs);
      CrossNonzero(as_[1..], bs);
    }
  }

  // ----- expand_polynomial on tokens -----

  function TokenMono(tok: Token): Mono
    requires tok.NumTok? || tok.NameTok?
  {
    if tok.NumTok? then Mono(tok.n, []) else Mono(1, [tok.v])
  }

  /** The loop of `expand_polynomial`: current product, dictionary, remaining tokens; `None` where the
      tokens run out before the closing parenthesis. */
  function Loop(tokens: seq<Token>, multiply: seq<Mono>, e: seq<Mono>): (r: Option<(seq<Mono>, seq<Token>)>)
    ensures r.Some? ==> |r.value.1| < |tokens|
    decreases |tokens|, 1
  {
    if tokens == [] then None
    else
      var rest := tokens[1..];
      match tokens[0]
      case LParen =>
        var sub := ExpandTokens(tokens);
        if sub.None? then None else Loop(sub.value.1, TimesPoly(multiply, sub.value.0), e)
      case RParen => Some((AddTerms(e, multiply), rest))
      case Plus => Loop(rest, [], AddTerms(e, multiply))
      case Minus => Loop(rest, [Mono(-1, [])], AddTerms(e, multiply))
      case Star => Loop(rest, multiply, e)
      case Blank => Loop(rest, multiply, e)
      case _ => Loop(rest, TimesToken(multiply, TokenMono(tokens[0])), e)
  }

  function ExpandTokens(tokens: seq<Token>): (r: Option<(seq<Mono>, seq<Token>)>)
    ensures r.Some? ==> |r.value.1| < |tokens|
    decreases |tokens|, 0
  {
    if tokens == [] || tokens[0] != LParen then None
    else Loop(tokens[1..], [], [])
  }

  /** `expand_polynomial`, popping tokens and updating the dictionary as it goes. */
  method ExpandPolynomial(tokens: seq<Token>) returns (r: Option<(seq<Mono>, seq<Token>)>)
    ensures r == ExpandTokens(tokens)
    decreases |tokens|
  {
    if tokens == [] || tokens[0] != LParen { return None; }
    var queue, multiply: seq<Mono>, e: seq<Mono> := tokens[1..], [], [];
    while true
      invariant |queue| < |tokens|
      invariant Loop(tokens[1..], [], []) == Loop(queue, multiply, e)
      decreases |queue|
    {
      if queue == [] { return None; }
      if queue[0] == LParen {
        var sub := ExpandPolynomial(queue);
        if sub.None? { return None; }
        multiply, queue := TimesPoly(multiply, sub.value.0), sub.value.1;
      } else {
        var token := queue[0];
        queue := queue[1..];
        if token == RParen || token == Plus || token == Minus {
          e := AddTerms(e, multiply);
          multiply := [];
        }
        if token == RParen { return Some((e, queue)); }
        if token == Minus {
          multiply := [Mono(-1, [])];
        } else if token.NumTok? || token.NameTok? {
          multiply := TimesToken(multiply, TokenMono(token));
        }
      }
    }
  }

  // ----- the same expansion, following the expression -----

  function ExpandPoly(p: Poly): seq<Mono>
    decreases p, 1
  {
    ExpandTerms(p.terms, [])
  }

  function ExpandTerms(ts: seq<Term>, e: seq<Mono>): seq<Mono>
    decreases ts, 0
  {
    if ts == [] then e else ExpandTerms(ts[1..], AddTerms(e, ExpandTerm(ts[0])))
  }

  function ExpandTerm(t: Term): seq<Mono>
    decreases t, 1
  {
    TimesFactors(if t.neg then [Mono(-1, [])] else [], t.factors)
  }

  function TimesFactors(multiply: seq<Mono>, fs: seq<Factor>): seq<Mono>
    decreases fs, 0
  {
    if fs == [] then multiply else TimesFactors(TimesFactor(multiply, fs[0]), fs[1..])
  }

  function TimesFactor(multiply: seq<Mono>, f: Factor): seq<Mono>
    decreases f, 2
  {
    match f
    case Const(c) => TimesToken(multiply, Mono(c, []))
    case Var(v) => TimesToken(multiply, Mono(1, [v]))
    case Paren(p) => TimesPoly(multiply, ExpandPoly(p))
  }

  /** Reading back a printed product. */
  lemma {:induction false} LoopFactors(fs: seq<Factor>, tail: seq<Token>, multiply: seq<Mono>, e: seq<Mono>)
    ensures Loop(PrintFactors(fs) + tail, multiply, e) == Loop(tail, TimesFactors(multiply, fs), e)
    decreases fs, 0
  {
    if fs == [] {
      assert PrintFactors(fs) + tail == tail;
    } else {
      var star := if |fs| > 1 then [Star] else [];
      var after := PrintFactors(fs[1..]) + tail;
      assert PrintFactors(fs) + tail == PrintFactor(fs[0]) + (star + after);
      LoopFactor(fs[0], star + after, multiply, e);
      var m := TimesFactor(multiply, fs[0]);
      assert Loop(star + after, m, e) == Loop(after, m, e) by {
        if |fs| > 1 {
          assert (star + after)[0] == Star && (star + after)[1..] == after;
        } else {
          assert star + after == after;
        }
      }
      LoopFactors(fs[1..], tail, m, e);
    }
  }

  lemma {:induction false} LoopFactor(f: Factor, tail: seq<Token>, multiply: seq<Mono>, e: seq<Mono>)
    ensures Loop(PrintFactor(f) + tail, multiply, e) == Loop(tail, TimesFactor(multiply, f), e)
    decreases f, 2
  {
    var tokens := PrintFactor(f) + tail;
    match f
    case Const(c) => assert tokens[0] == NumTok(c) && tokens[1..] == tail;
    case Var(v) => assert tokens[0] == NameTok(v) && tokens[1..] == tail;
    case Paren(p) =>
      ParsePrinted(p, tail);
      assert tokens[0] == LParen;
  }

  lemma {:induction false} LoopTerms(ts: seq<Term>, tail: seq<Token>, multiply: seq<Mono>, e: seq<Mono>)
    ensures Loop(PrintTerms(ts) + [RParen] + tail, multiply, e) == Some((ExpandTerms(ts, AddTerms(e, multiply)), tail))
    decreases ts, 0
  {
    var tokens := PrintTerms(ts) + [RParen] + tail;
    if ts == [] {
      assert tokens[0] == RParen && tokens[1..] == tail;
    } else {
      var t := ts[0];
      var after := PrintTerms(ts[1..]) + [RParen] + tail;
      var m := if t.neg then [Mono(-1, [])] else [];
      assert tokens[0] == (if t.neg then Minus else Plus);
      assert tokens[1..] == PrintFactors(t.factors) + after;
      LoopFactors(t.factors, after, m, AddTerms(e, multiply));
      LoopTerms(ts[1..], tail, ExpandTerm(t), AddTerms(e, multiply));
    }
  }

  /** `expand_polynomial` on a printed expression returns that expression's expansion and stops at its
      closing parenthesis. */
  lemma {:induction false} ParsePrinted(p: Poly, tail: seq<Token>)
    ensures ExpandTokens(PrintPoly(p) + tail) == Some((ExpandPoly(p), tail))
    decreases p, 1
  {
    var tokens := PrintPoly(p) + tail;
    assert tokens[0] == LParen;
    assert tokens[1..] == PrintTerms(p.terms) + [RParen] + tail;
    LoopTerms(p.terms, tail, [], []);
  }

  // ----- when the expansion keeps the meaning -----

  function Start(neg: bool): seq<Mono> {
    if neg then [Mono(-1, [])] else []
  }

  /** No proper prefix of any product expands to zero, at any depth, and no product is empty. */
  predicate SafePoly(p: Poly)
    decreases p, 1
  {
    SafeTerms(p.terms)
  }

  predicate SafeTerms(ts: seq<Term>)
    decreases ts, 0
  {
    ts == [] || (SafeTerm(ts[0]) && SafeTerms(ts[1..]))
  }

  predicate SafeTerm(t: Term)
    decreases t, 1
  {
    t.factors != [] && SafeNested(t.factors) && NoZeroPrefix(Start(t.neg), t.factors)
  }

  /** Parenthesised factors are safe themselves. */
  predicate SafeNested(fs: seq<Factor>)
    decreases fs, 0
  {
    fs == [] || (SafeFactor(fs[0]) && SafeNested(fs[1..]))
  }

  predicate SafeFactor(f: Factor)
    decreases f, 2
  {
    match f
    case Paren(p) => SafePoly(p)
    case _ => true
  }

  predicate NoZeroPrefix(multiply: seq<Mono>, fs: seq<Factor>)
    decreases |fs|
  {
    |fs| <= 1 || (TimesFactor(multiply, fs[0]) != [] && NoZeroPrefix(TimesFactor(multiply, fs[0]), fs[1..]))
  }

  /** What is left of a product after its last prefix that expands to zero, if it has one. */
  function LiveSuffix(multiply: seq<Mono>, fs: seq<Factor>): Option<seq<Factor>>
    decreases |fs|
  {
    if |fs| <= 1 then None
    else
      var m := TimesFactor(multiply, fs[0]);
      var later := LiveSuffix(m, fs[1..]);
      if later.None? && m == [] then Some(fs[1..]) else later
  }

  lemma TokenValue(multiply: seq<Mono>, tok: Mono, env: Env)
    ensures SumValue(TimesToken(multiply, tok), env)
         == Accumulated(multiply, env) * MonoValue(tok, env)
  {
    if multiply == [] {
      ProductTermValue(Mono(1, []), tok, env);
      assert MonoValue(Mono(1, []), env) == 1;
    } else {
      ProductRowValue(tok, multiply, env);
      assert MonoValue(tok, env) * SumValue(multiply, env) == SumValue(multiply, env) * MonoValue(tok, env);
    }
  }

  lemma {:induction false} FactorValue(multiply: seq<Mono>, f: Factor, env: Env)
    requires SafeFactor(f)
    ensures SumValue(TimesFactor(multiply, f), env)
         == Accumulated(multiply, env) * EvalFactor(f, env)
    decreases f, 2
  {
    match f
    case Const(c) => TokenValue(multiply, Mono(c, []), env);
    case Var(v) =>
      TokenValue(multiply, Mono(1, [v]), env);
      assert VarsValue([v], env) == env(v) * VarsValue([v][1..], env);
    case Paren(p) =>
      ExpansionMeaning(p, env);
      CrossValue(multiply, ExpandPoly(p), env);
  }

  /** The exact value of an expanded product: a prefix expanding to zero restarts it. */
  lemma {:induction false} FactorsValue(multiply: seq<Mono>, fs: seq<Factor>, env: Env)
    requires fs != [] && SafeNested(fs)
    ensures LiveSuffix(multiply, fs).None? ==>
              SumValue(TimesFactors(multiply, fs), env)
              == Accumulated(multiply, env) * EvalFactors(fs, env)
    ensures LiveSuffix(multiply, fs).Some? ==>
              && SumValue(TimesFactors(multiply, fs), env) == EvalFactors(LiveSuffix(multiply, fs).value, env)
              && Accumulated(multiply, env) * EvalFactors(fs, env) == 0
    decreases fs, 0
  {
    var m := TimesFactor(multiply, fs[0]);
    var start := Accumulated(multiply, env);
    var x, y := EvalFactor(fs[0], env), EvalFactors(fs[1..], env);
    FactorValue(multiply, fs[0], env);
    assert start * (x * y) == SumValue(m, env) * y by { MulAssoc(start, x, y); }
    if |fs| == 1 {
      assert fs[1..] == [] && y == 1;
      assert TimesFactors(multiply, fs) == m;
    } else {
      FactorsValue(m, fs[1..], env);
      assert TimesFactors(multiply, fs) == TimesFactors(m, fs[1..]);
    }
  }

  /** The value so far: an empty list counts as "no factor yet". */
  function Accumulated(multiply: seq<Mono>, env: Env): int {
    if multiply == [] then 1 else SumValue(multiply, env)
  }

  /** Exactly when an expanded product has the value of the product: when no proper prefix expands to
      zero, or the factors after the last such prefix happen to multiply to zero. */
  lemma TermExact(t: Term, env: Env)
    requires t.factors != [] && SafeNested(t.factors)
    ensures var live := LiveSuffix(Start(t.neg), t.factors);
            SumValue(ExpandTerm(t), env) == EvalTerm(t, env)
            <==> (live.None? || EvalFactors(live.value, env) == 0)
  {
    FactorsValue(Start(t.neg), t.factors, env);
    MinusOne(env);
  }

  lemma {:induction false} NoZeroPrefixLive(multiply: seq<Mono>, fs: seq<Factor>)
    ensures NoZeroPrefix(multiply, fs) ==> LiveSuffix(multiply, fs).None?
    decreases |fs|
  {
    if |fs| > 1 { NoZeroPrefixLive(TimesFactor(multiply, fs[0]), fs[1..]); }
  }

  lemma {:induction false} TermsMeaning(ts: seq<Term>, e: seq<Mono>, env: Env)
    requires SafeTerms(ts)
    ensures SumValue(ExpandTerms(ts, e), env) == SumValue(e, env) + EvalTerms(ts, env)
    decreases ts, 0
  {
    if ts != [] {
      var m := ExpandTerm(ts[0]);
      TermMeaning(ts[0], env);
      AddTermsValue(e, m, env);
      TermsMeaning(ts[1..], AddTerms(e, m), env);
    }
  }

  lemma {:induction false} TermMeaning(t: Term, env: Env)
    requires SafeTerm(t)
    ensures SumValue(ExpandTerm(t), env) == EvalTerm(t, env)
    decreases t, 1
  {
    NoZeroPrefixLive(Start(t.neg), t.factors);
    FactorsValue(Start(t.neg), t.factors, env);
    MinusOne(env);
  }

  lemma MinusOne(env: Env)
    ensures SumValue([Mono(-1, [])], env) == -1
  {
    assert [Mono(-1, [])][1..] == [];
    assert MonoValue(Mono(-1, []), env) == -1;
  }

  /** Expansion preserves the value of every safe expression under every assignment. */
  lemma {:induction false} ExpansionMeaning(p: Poly, env: Env)
    requires SafePoly(p)
    ensures SumValue(ExpandPoly(p), env) == EvalPoly(p, env)
    decreases p, 1
  {
    TermsMeaning(p.terms, [], env);
  }

  // ----- shape of the result, for every expression -----

  lemma {:induction false} FactorsNonzero(multiply: seq<Mono>, fs: seq<Factor>)
    requires NonzeroCoeffs(multiply)
    ensures NonzeroCoeffs(TimesFactors(multiply, fs))
    decreases fs, 0
  {
    if fs != [] {
      FactorNonzero(multiply, fs[0]);
      FactorsNonzero(TimesFactor(multiply, fs[0]), fs[1..]);
    }
  }

  lemma {:induction false} FactorNonzero(multiply: seq<Mono>, f: Factor)
    requires NonzeroCoeffs(multiply)
    ensures NonzeroCoeffs(TimesFactor(multiply, f))
    decreases f, 2
  {
    match f
    case Const(c) => ProductRowNonzero(Mono(c, []), multiply);
    case Var(v) => ProductRowNonzero(Mono(1, [v]), multiply);
    case Paren(p) =>
      ExpansionReduced(p);
      CrossNonzero(multiply, ExpandPoly(p));
  }

  lemma {:induction false} TermsReduced(ts: seq<Term>, e: seq<Mono>)
    requires Reduced(e)
    ensures Reduced(ExpandTerms(ts, e))
    decreases ts, 0
  {
    if ts != [] {
      FactorsNonzero(Start(ts[0].neg), ts[0].factors);
      AddTermsReduced(e, ExpandTerm(ts[0]));
      TermsReduced(ts[1..], AddTerms(e, ExpandTerm(ts[0])));
    }
  }

  /** Like terms are merged and no constant is 0. */
  lemma {:induction false} ExpansionReduced(p: Poly)
    ensures Reduced(ExpandPoly(p))
    decreases p, 1
  {
    TermsReduced(p.terms, []);
  }

  // ----- expanding twice -----

  /** The printed form of an expanded polynomial, read as an expression. */
  function AsTerm(m: Mono): Term {
    Term(false, [Const(m.coeff)] + seq(|m.vars|, i requires 0 <= i < |m.vars| => Var(m.vars[i])))
  }

  function AsPoly(e: seq<Mono>): Poly {
    Poly(seq(|e|, i requires 0 <= i < |e| => AsTerm(e[i])))
  }

  /** Same constant and same key. */
  ghost predicate SameMono(a: Mono, b: Mono) {
    a.coeff == b.coeff && multiset(a.vars) == multiset(b.vars)
  }

  ghost predicate SameExpansion(a: seq<Mono>, b: seq<Mono>) {
    |a| == |b| && forall i :: 0 <= i < |a| ==> SameMono(a[i], b[i])
  }

  lemma {:induction false} TimesVars(m: Mono, vars: seq<Id>, fs: seq<Factor>) returns (r: Mono)
    requires m.coeff != 0 && |fs| == |vars| && forall i :: 0 <= i < |vars| ==> fs[i] == Var(vars[i])
    ensures TimesFactors([m], fs) == [r]
    ensures r.coeff == m.coeff && multiset(r.vars) == multiset(vars) + multiset(m.vars)
    decreases |fs|
  {
    if fs == [] {
      r := m;
    } else {
      var next := Mono(m.coeff, [vars[0]] + m.vars);
      assert [m][1..] == [];
      assert TimesFactor([m], fs[0]) == [next] by {
        assert ProductRow(Mono(1, [vars[0]]), [m]) == ProductTerm(Mono(1, [vars[0]]), m) + [];
      }
      r := TimesVars(next, vars[1..], fs[1..]);
      assert vars == [vars[0]] + vars[1..];
    }
  }

  lemma ReexpandTerm(m: Mono) returns (r: Mono)
    requires m.coeff != 0
    ensures ExpandTerm(AsTerm(m)) == [r] && SameMono(r, m)
  {
    var t := AsTerm(m);
    var fs := t.factors[1..];
    var nil: seq<Id> := [];
    assert nil + nil == nil;
    assert ProductTerm(Mono(1, nil), Mono(m.coeff, nil)) == [Mono(m.coeff, nil + nil)];
    assert TimesFactor([], t.factors[0]) == [Mono(m.coeff, [])];
    r := TimesVars(Mono(m.coeff, []), m.vars, fs);
  }

  lemma KeyAbsent(e: seq<Mono>, a: seq<Mono>, m: Mono, r: Mono, k: nat)
    requires Reduced(e) && k < |e| && m == e[k] && SameMono(r, m) && SameExpansion(a, e[..k])
    ensures AddTerm(a, r) == a + [r] && SameExpansion(a + [r], e[..k + 1])
  {
    forall j | 0 <= j < |a| ensures multiset(a[j].vars) != multiset(r.vars) {
      assert SameMono(a[j], e[..k][j]);
    }
    forall j | 0 <= j < |a + [r]| ensures SameMono((a + [r])[j], e[..k + 1][j]) {
      if j < k { assert SameMono(a[j], e[..k][j]); }
    }
  }

  lemma {:induction false} ReexpandFrom(e: seq<Mono>, a: seq<Mono>, k: nat, ts: seq<Term>)
    requires Reduced(e) && k <= |e| && SameExpansion(a, e[..k]) && ts == AsPoly(e).terms[k..]
    ensures SameExpansion(ExpandTerms(ts, a), e)
    decreases |e| - k
  {
    if k == |e| {
      assert e[..k] == e;
    } else {
      var r := ReexpandTerm(e[k]);
      assert ts[0] == AsTerm(e[k]);
      KeyAbsent(e, a, e[k], r, k);
      assert [r][1..] == [];
      assert AddTerms(a, [r]) == a + [r];
      ReexpandFrom(e, a + [r], k + 1, ts[1..]);
    }
  }

  /** Expanding the printed form of an expansion gives it back. */
  lemma ReexpansionStable(p: Poly)
    ensures SameExpansion(ExpandPoly(AsPoly(ExpandPoly(p))), ExpandPoly(p))
  {
    var e := ExpandPoly(p);
    ExpansionReduced(p);
    assert AsPoly(e).terms[0..] == AsPoly(e).terms;
    ReexpandFrom(e, [], 0, AsPoly(e).terms);
  }

  // ----- inputs the expansion gets wrong -----

  /** `( 0 * x )` expands to `x`. */
  lemma ZeroPrefixLost(x: Id)
    ensures ExpandPoly(Poly([Term(false, [Const(0), Var(x)])])) == [Mono(1, [x])]
    ensures !SafePoly(Poly([Term(false, [Const(0), Var(x)])]))
  {
    var fs := [Const(0), Var(x)];
    var one := Mono(1, [x]);
    assert fs[1..] == [Var(x)] && fs[1..][1..] == [];
    assert TimesFactor([], fs[0]) == [];
    assert ProductTerm(Mono(1, []), one) == [Mono(1, [] + [x])];
    assert [] + [x] == [x];
    assert TimesFactor([], Var(x)) == [one];
    assert TimesFactors([one], fs[1..][1..]) == [one];
    assert TimesFactors([], fs[1..]) == [one];
    assert TimesFactors([], fs) == [one];
    var t := Term(false, fs);
    assert ExpandTerm(t) == [one];
    assert [one][1..] == [] && [t][1..] == [];
    assert AddTerms([], [one]) == AddTerms(AddTerm([], one), [one][1..]);
    assert ExpandTerms([t], []) == ExpandTerms([t][1..], [one]);
    assert !SafeTerms([t]);
  }
}
