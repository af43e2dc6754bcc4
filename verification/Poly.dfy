/** Polynomial expressions of the constraint language, their tokens and their values
    (`code/compiler/backend/zcc_parser.py`). */
module Poly {
  import opened Arith

  /** A variable: one named in the source, or `target$tag` made for a gate. */
  datatype Id = Plain(name: string) | Aux(target: string, tag: Tag)

  datatype Tag = Mlt | Meq | Mgt | M | M2 | Num | Den | NumDen | NBit(i: nat) | DBit(i: nat)

  datatype Factor = Const(c: int) | Var(v: Id) | Paren(p: Poly)

  datatype Term = Term(neg: bool, factors: seq<Factor>)

  datatype Poly = Poly(terms: seq<Term>)

  type Env = Id -> int

  // ----- value of a nested expression -----

  function EvalPoly(p: Poly, env: Env): int
    decreases p, 1
  {
    EvalTerms(p.terms, env)
  }

  function EvalTerms(ts: seq<Term>, env: Env): int
    decreases ts, 0
  {
    if ts == [] then 0 else EvalTerm(ts[0], env) + EvalTerms(ts[1..], env)
  }

  function EvalTerm(t: Term, env: Env): int
    decreases t, 1
  {
    if t.neg then -EvalFactors(t.factors, env) else EvalFactors(t.factors, env)
  }

  function EvalFactors(fs: seq<Factor>, env: Env): int
    decreases fs, 0
  {
    if fs == [] then 1 else EvalFactor(fs[0], env) * EvalFactors(fs[1..], env)
  }

  function EvalFactor(f: Factor, env: Env): int
    decreases f, 2
  {
    match f
    case Const(c) => c
    case Var(v) => env(v)
    case Paren(p) => EvalPoly(p, env)
  }

  // ----- tokens -----

  datatype Token = LParen | RParen | Plus | Minus | Star | Blank | NumTok(n: int) | NameTok(v: Id)

  function PrintPoly(p: Poly): seq<Token>
    decreases p, 1
  {
    [LParen] + PrintTerms(p.terms) + [RParen]
  }

  function PrintTerms(ts: seq<Term>): seq<Token>
    decreases ts, 0
  {
    if ts == [] then []
    else [if ts[0].neg then Minus else Plus] + PrintFactors(ts[0].factors) + PrintTerms(ts[1..])
  }

  function PrintFactors(fs: seq<Factor>): seq<Token>
    decreases fs, 0
  {
    if fs == [] then []
    else PrintFactor(fs[0]) + (if |fs| > 1 then [Star] else []) + PrintFactors(fs[1..])
  }

  function PrintFactor(f: Factor): seq<Token>
    decreases f, 2
  {
    match f
    case Const(c) => [NumTok(c)]
    case Var(v) => [NameTok(v)]
    case Paren(p) => PrintPoly(p)
  }

  lemma {:induction false} EvalTermsAppend(a: seq<Term>, b: seq<Term>, env: Env)
    ensures EvalTerms(a + b, env) == EvalTerms(a, env) + EvalTerms(b, env)
    decreases |a|
  {
    if a == [] {
      assert a + b == b;
    } else {
      EvalTermsAppend(a[1..], b, env);
      assert (a + b)[1..] == a[1..] + b;
    }
  }
}
