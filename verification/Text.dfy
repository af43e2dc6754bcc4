/** Constraint text as the generators write it: first terms without a sign, runs of signs, blanks. The compiler
    (`expand_polynomial` in `code/compiler/backend/zcc_parser.py`) and the prover's interpreter (`compute_poly` in
    `libv/computation_p.cpp`) read the same expression exactly when no sign directly follows a minus. */
module Text {
  import opened Arith
  import opened Poly
  import opened Rational
  import opened Expand
  import opened Worksheet

  /** A term with all the signs in front of it. */
  datatype Written = Written(signs: seq<Token>, items: seq<Item>)

  datatype Item = Number(c: int) | Name(v: Id) | Group(terms: seq<Written>)

  function Print(ts: seq<Written>): seq<Token>
    decreases ts, 0
  {
    if ts == [] then [] else ts[0].signs + PrintItems(ts[0].items) + Print(ts[1..])
  }

  function PrintItems(fs: seq<Item>): seq<Token>
    decreases fs, 0
  {
    if fs == [] then [] else PrintItem(fs[0]) + (if |fs| > 1 then [Star] else []) + PrintItems(fs[1..])
  }

  function PrintItem(f: Item): seq<Token>
    decreases f, 2
  {
    match f
    case Number(c) => [NumTok(c)]
    case Name(v) => [NameTok(v)]
    case Group(ts) => [LParen] + Print(ts) + [RParen]
  }

  /** Only the first term of a sum may go without a sign. */
  predicate WellFormed(ts: seq<Written>, first: bool)
    decreases ts, 0
  {
    ts == [] || (AreSigns(ts[0].signs) && (first || ts[0].signs != []) && WellFormedItems(ts[0].items)
                 && WellFormed(ts[1..], false))
  }

  predicate AreSigns(signs: seq<Token>) {
    forall i :: 0 <= i < |signs| ==> signs[i] == Plus || signs[i] == Minus
  }

  predicate WellFormedItems(fs: seq<Item>)
    decreases fs, 0
  {
    fs == [] || ((fs[0].Group? ==> WellFormed(fs[0].terms, true)) && WellFormedItems(fs[1..]))
  }

  // ----- what the compiler reads: the last sign counts, every minus before it stands for -1 -----

  const STRAY := Term(true, [Const(1)])

  function Strays(signs: seq<Token>): seq<Term> {
    if |signs| <= 1 then [] else (if signs[0] == Minus then [STRAY] else []) + Strays(signs[1..])
  }

  predicate LastMinus(signs: seq<Token>) {
    signs != [] && signs[|signs| - 1] == Minus
  }

  function Read(ts: seq<Written>): seq<Term>
    decreases ts, 0
  {
    if ts == [] then []
    else Strays(ts[0].signs) + [Term(LastMinus(ts[0].signs), ReadItems(ts[0].items))] + Read(ts[1..])
  }

  function ReadItems(fs: seq<Item>): (r: seq<Factor>)
    ensures |r| == |fs|
    decreases fs, 0
  {
    if fs == [] then [] else [ReadItem(fs[0])] + ReadItems(fs[1..])
  }

  function ReadItem(f: Item): Factor
    decreases f, 2
  {
    match f
    case Number(c) => Const(c)
    case Name(v) => Var(v)
    case Group(ts) => Paren(Poly(Read(ts)))
  }

  lemma StrayExpands()
    ensures ExpandTerm(STRAY) == Start(true)
  {
    var m := [Mono(-1, [])];
    assert STRAY.factors[1..] == [] && m[1..] == [];
    assert ProductRow(Mono(1, []), m) == ProductTerm(Mono(1, []), m[0]) + ProductRow(Mono(1, []), []);
    var none: seq<Id> := [];
    assert none + none == none;
    assert ProductTerm(Mono(1, none), Mono(-1, none)) == [Mono(-1, none + none)];
    assert TimesFactor(m, Const(1)) == m;
    assert TimesFactors(m, STRAY.factors) == TimesFactors(TimesFactor(m, STRAY.factors[0]), STRAY.factors[1..]);
  }

  lemma {:induction false} ExpandAppend(a: seq<Term>, b: seq<Term>, e: seq<Mono>)
    ensures ExpandTerms(a + b, e) == ExpandTerms(b, ExpandTerms(a, e))
    decreases |a|
  {
    if a == [] {
      assert a + b == b;
    } else {
      assert (a + b)[1..] == a[1..] + b;
      ExpandAppend(a[1..], b, AddTerms(e, ExpandTerm(a[0])));
    }
  }

  lemma ExpandOne(t: Term, e: seq<Mono>)
    ensures ExpandTerms([t], e) == AddTerms(e, ExpandTerm(t))
  {
    assert [t][1..] == [];
  }

  /** A run of signs. */
  lemma {:induction false} LoopSigns(signs: seq<Token>, rest: seq<Token>, multiply: seq<Mono>, e: seq<Mono>)
    requires signs != [] && AreSigns(signs)
    ensures Loop(signs + rest, multiply, e)
         == Loop(rest, Start(LastMinus(signs)), ExpandTerms(Strays(signs), AddTerms(e, multiply)))
    decreases |signs|, 1
  {
    var after := signs[1..] + rest;
    assert signs + rest == [signs[0]] + after;
    LoopSign(signs[0], after, multiply, e);
    if |signs| == 1 {
      assert after == rest;
    } else {
      SignsMore(signs, signs[1..], after, rest, Start(signs[0] == Minus), AddTerms(e, multiply));
    }
  }

  lemma {:induction false} SignsMore(signs: seq<Token>, more: seq<Token>, after: seq<Token>, rest: seq<Token>, m: seq<Mono>,
                                     e: seq<Mono>)
    requires |signs| > 1 && more == signs[1..] && AreSigns(signs) && after == more + rest && m == Start(signs[0] == Minus)
    ensures Loop(after, m, e) == Loop(rest, Start(LastMinus(signs)), ExpandTerms(Strays(signs), e))
    decreases |signs|, 0
  {
    LoopSigns(more, rest, m, e);
    StrayStep(signs, e);
  }

  lemma LoopSign(sign: Token, rest: seq<Token>, multiply: seq<Mono>, e: seq<Mono>)
    requires sign == Plus || sign == Minus
    ensures Loop([sign] + rest, multiply, e) == Loop(rest, Start(sign == Minus), AddTerms(e, multiply))
  {
    assert ([sign] + rest)[1..] == rest;
  }

  lemma StrayStep(signs: seq<Token>, e: seq<Mono>)
    requires |signs| > 1
    ensures ExpandTerms(Strays(signs), e) == ExpandTerms(Strays(signs[1..]), AddTerms(e, Start(signs[0] == Minus)))
  {
    if signs[0] == Minus {
      ExpandAppend([STRAY], Strays(signs[1..]), e);
      ExpandOne(STRAY, e);
      StrayExpands();
    } else {
      assert [] + Strays(signs[1..]) == Strays(signs[1..]);
    }
  }

  lemma {:induction false} LoopItems(fs: seq<Item>, tail: seq<Token>, multiply: seq<Mono>, e: seq<Mono>)
    requires WellFormedItems(fs)
    ensures Loop(PrintItems(fs) + tail, multiply, e) == Loop(tail, TimesFactors(multiply, ReadItems(fs)), e)
    decreases fs, 0
  {
    if fs == [] {
      assert PrintItems(fs) + tail == tail;
    } else {
      var star := if |fs| > 1 then [Star] else [];
      var after := PrintItems(fs[1..]) + tail;
      assert PrintItems(fs) + tail == PrintItem(fs[0]) + (star + after);
      LoopItem(fs[0], star + after, multiply, e);
      var m := TimesFactor(multiply, ReadItem(fs[0]));
      LoopStar(star, after, m, e);
      LoopItems(fs[1..], tail, m, e);
      assert ReadItems(fs)[1..] == ReadItems(fs[1..]);
    }
  }

  lemma LoopStar(star: seq<Token>, after: seq<Token>, m: seq<Mono>, e: seq<Mono>)
    requires star == [] || star == [Star]
    ensures Loop(star + after, m, e) == Loop(after, m, e)
  {
    if star == [] {
      assert star + after == after;
    } else {
      assert (star + after)[0] == Star && (star + after)[1..] == after;
    }
  }

  lemma {:induction false} LoopItem(f: Item, tail: seq<Token>, multiply: seq<Mono>, e: seq<Mono>)
    requires f.Group? ==> WellFormed(f.terms, true)
    ensures Loop(PrintItem(f) + tail, multiply, e) == Loop(tail, TimesFactor(multiply, ReadItem(f)), e)
    decreases f, 2
  {
    var tokens := PrintItem(f) + tail;
    match f
    case Number(c) => assert tokens[0] == NumTok(c) && tokens[1..] == tail;
    case Name(v) => assert tokens[0] == NameTok(v) && tokens[1..] == tail;
    case Group(ts) =>
      assert tokens[0] == LParen && tokens[1..] == Print(ts) + [RParen] + tail;
      LoopText(ts, tail, [], [], true);
  }

  lemma {:induction false} LoopText(ts: seq<Written>, tail: seq<Token>, multiply: seq<Mono>, e: seq<Mono>, first: bool)
    requires WellFormed(ts, first) && (first ==> multiply == [])
    ensures Loop(Print(ts) + [RParen] + tail, multiply, e) == Some((ExpandTerms(Read(ts), AddTerms(e, multiply)), tail))
    decreases ts, 0
  {
    var tokens := Print(ts) + [RParen] + tail;
    if ts == [] {
      assert tokens[0] == RParen && tokens[1..] == tail;
    } else {
      var w := ts[0];
      var after := Print(ts[1..]) + [RParen] + tail;
      var t := Term(LastMinus(w.signs), ReadItems(w.items));
      assert tokens == w.signs + (PrintItems(w.items) + after);
      var e1 := ExpandTerms(Strays(w.signs), AddTerms(e, multiply));
      if w.signs == [] {
        assert w.signs + (PrintItems(w.items) + after) == PrintItems(w.items) + after;
      } else {
        LoopSigns(w.signs, PrintItems(w.items) + after, multiply, e);
      }
      LoopItems(w.items, after, Start(t.neg), e1);
      LoopText(ts[1..], tail, ExpandTerm(t), e1, false);
      ReadStep(ts, AddTerms(e, multiply));
    }
  }

  lemma ReadStep(ts: seq<Written>, e: seq<Mono>)
    requires ts != []
    ensures var t := Term(LastMinus(ts[0].signs), ReadItems(ts[0].items));
            ExpandTerms(Read(ts), e) == ExpandTerms(Read(ts[1..]), AddTerms(ExpandTerms(Strays(ts[0].signs), e), ExpandTerm(t)))
  {
    var a, t, b := Strays(ts[0].signs), Term(LastMinus(ts[0].signs), ReadItems(ts[0].items)), Read(ts[1..]);
    ExpandAppend(a + [t], b, e);
    ExpandAppend(a, [t], e);
    ExpandOne(t, ExpandTerms(a, e));
  }

  /** The compiler's reading of every text. */
  lemma CompilerReads(ts: seq<Written>, tail: seq<Token>)
    requires WellFormed(ts, true)
    ensures ExpandTokens([LParen] + Print(ts) + [RParen] + tail) == Some((ExpandPoly(Poly(Read(ts))), tail))
  {
    var tokens := [LParen] + Print(ts) + [RParen] + tail;
    assert tokens[0] == LParen && tokens[1..] == Print(ts) + [RParen] + tail;
    LoopText(ts, tail, [], [], true);
  }

  // ----- what the interpreter reads: every minus turns the sign -----

  predicate OddMinus(signs: seq<Token>) {
    signs != [] && ((signs[0] == Minus) != OddMinus(signs[1..]))
  }

  function Meant(ts: seq<Written>): (r: seq<Term>)
    ensures |r| == |ts|
    decreases ts, 0
  {
    if ts == [] then [] else [Term(OddMinus(ts[0].signs), MeantItems(ts[0].items))] + Meant(ts[1..])
  }

  function MeantItems(fs: seq<Item>): (r: seq<Factor>)
    ensures |r| == |fs|
    decreases fs, 0
  {
    if fs == [] then [] else [MeantItem(fs[0])] + MeantItems(fs[1..])
  }

  function MeantItem(f: Item): Factor
    decreases f, 2
  {
    match f
    case Number(c) => Const(c)
    case Name(v) => Var(v)
    case Group(ts) => Paren(Poly(Meant(ts)))
  }

  lemma ComputeSign(sign: Token, rest: seq<Token>, a: Acc, depth: nat, s: Store)
    requires sign == Plus || sign == Minus
    ensures ComputeLoop([sign] + rest, a, depth, s)
         == ComputeLoop(rest, Emit(a).(negate := Emit(a).negate != (sign == Minus)), depth, s)
  {
    assert ([sign] + rest)[1..] == rest;
  }

  lemma {:induction false} ComputeSigns(signs: seq<Token>, rest: seq<Token>, a: Acc, depth: nat, s: Store)
    requires AreSigns(signs) && (signs == [] ==> !a.hasFactors)
    ensures ComputeLoop(signs + rest, a, depth, s)
         == ComputeLoop(rest, Emit(a).(negate := Emit(a).negate != OddMinus(signs)), depth, s)
    decreases |signs|
  {
    if signs == [] {
      assert signs + rest == rest && Emit(a).(negate := Emit(a).negate != OddMinus(signs)) == a;
    } else {
      var after, b := signs[1..] + rest, Emit(a).(negate := Emit(a).negate != (signs[0] == Minus));
      assert signs + rest == [signs[0]] + after;
      ComputeSign(signs[0], after, a, depth, s);
      ComputeSigns(signs[1..], rest, b, depth, s);
      assert Emit(b).(negate := b.negate != OddMinus(signs[1..])) == Emit(a).(negate := Emit(a).negate != OddMinus(signs));
    }
  }

  lemma {:induction false} ComputeItems(fs: seq<Item>, tail: seq<Token>, a: Acc, depth: nat, s: Store)
    requires WellFormedItems(fs) && depth <= MAX_DEPTH && FitsFactors(MeantItems(fs), MAX_DEPTH - depth)
    requires forall i :: 0 <= i < |fs| ==> NonemptyFactor(MeantItems(fs)[i])
    ensures ComputeLoop(PrintItems(fs) + tail, a, depth, s)
         == ComputeLoop(tail, AfterFactors(a, MeantItems(fs), s), depth, s)
    decreases fs, 0
  {
    if fs == [] {
      assert PrintItems(fs) + tail == tail;
      assert AfterFactors(a, MeantItems(fs), s) == a;
    } else {
      var star := if |fs| > 1 then [Star] else [];
      var after := PrintItems(fs[1..]) + tail;
      var all, f := MeantItems(fs), MeantItem(fs[0]);
      assert all[0] == f && all[1..] == MeantItems(fs[1..]);
      assert PrintItems(fs) + tail == PrintItem(fs[0]) + (star + after);
      var b := TakeFactor(a, FactorQ(f, s));
      ComputeItem(fs[0], star + after, a, depth, s);
      SkipStar(star, after, b, depth, s);
      ComputeItems(fs[1..], tail, b, depth, s);
      assert AfterFactors(b, all[1..], s) == AfterFactors(a, all, s);
    }
  }

  lemma {:induction false} ComputeItem(f: Item, tail: seq<Token>, a: Acc, depth: nat, s: Store)
    requires f.Group? ==> WellFormed(f.terms, true)
    requires depth <= MAX_DEPTH && FitsFactor(MeantItem(f), MAX_DEPTH - depth) && NonemptyFactor(MeantItem(f))
    ensures ComputeLoop(PrintItem(f) + tail, a, depth, s)
         == ComputeLoop(tail, TakeFactor(a, FactorQ(MeantItem(f), s)), depth, s)
    decreases f, 2
  {
    var tokens := PrintItem(f) + tail;
    match f
    case Number(c) => assert tokens[0] == NumTok(c) && tokens[1..] == tail;
    case Name(v) => assert tokens[0] == NameTok(v) && tokens[1..] == tail;
    case Group(ts) =>
      assert tokens[0] == LParen && tokens[1..] == Print(ts) + [RParen] + tail;
      ComputeText(ts, tail, INIT, depth + 1, s, true);
  }

  lemma {:induction false} ComputeText(ts: seq<Written>, tail: seq<Token>, a: Acc, depth: nat, s: Store, first: bool)
    requires WellFormed(ts, first) && (first ==> !a.hasFactors) && (a.hasFactors || !a.negate)
    requires depth <= MAX_DEPTH && Fits(Meant(ts), MAX_DEPTH - depth) && Nonempty(Meant(ts))
    ensures ComputeLoop(Print(ts) + [RParen] + tail, a, depth, s)
         == Some((SumQ(Emit(a).poly, Emit(a).hasTerms, Meant(ts), s), tail))
    decreases ts, 0
  {
    var tokens := Print(ts) + [RParen] + tail;
    if ts == [] {
      assert tokens[0] == RParen && tokens[1..] == tail;
    } else {
      var w := ts[0];
      var after := Print(ts[1..]) + [RParen] + tail;
      var all := Meant(ts);
      assert all[1..] == Meant(ts[1..]) && NonemptyTerm(all[0]);
      forall i | 0 <= i < |all[1..]| ensures NonemptyTerm(all[1..][i]) { assert all[1..][i] == all[i + 1]; }
      assert tokens == w.signs + (PrintItems(w.items) + after);
      ComputeSigns(w.signs, PrintItems(w.items) + after, a, depth, s);
      var b := Emit(a).(negate := OddMinus(w.signs));
      ComputeItems(w.items, after, b, depth, s);
      var c := AfterFactors(b, all[0].factors, s);
      ProductStart(b.term, all[0].factors, s);
      ComputeText(ts[1..], tail, c, depth, s, false);
    }
  }

  /** The interpreter's reading of every text that fits its stack of temporaries. */
  lemma InterpreterReads(ts: seq<Written>, tail: seq<Token>, s: Store)
    requires WellFormed(ts, true) && Fits(Meant(ts), MAX_DEPTH) && Nonempty(Meant(ts))
    ensures ComputeLoop(Print(ts) + [RParen] + tail, INIT, 0, s) == Some((PolyQ(Poly(Meant(ts)), s), tail))
  {
    ComputeText(ts, tail, INIT, 0, s, true);
  }

  // ----- when the two agree -----

  /** No sign directly after a minus, at any depth. */
  predicate Clean(ts: seq<Written>)
    decreases ts, 0
  {
    ts == [] || (CleanSigns(ts[0].signs) && CleanItems(ts[0].items) && Clean(ts[1..]))
  }

  predicate CleanSigns(signs: seq<Token>) {
    forall i :: 0 <= i < |signs| - 1 ==> signs[i] != Minus
  }

  predicate CleanItems(fs: seq<Item>)
    decreases fs, 0
  {
    fs == [] || ((fs[0].Group? ==> Clean(fs[0].terms)) && CleanItems(fs[1..]))
  }

  lemma {:induction false} SignsAgree(signs: seq<Token>)
    ensures CleanSigns(signs) <==> Strays(signs) == []
    ensures CleanSigns(signs) ==> (LastMinus(signs) <==> OddMinus(signs))
    decreases |signs|
  {
    if |signs| > 1 {
      SignsAgree(signs[1..]);
      if CleanSigns(signs) {
        assert forall i :: 0 <= i < |signs[1..]| - 1 ==> signs[1..][i] == signs[i + 1];
      }
      if Strays(signs) == [] {
        forall i | 0 <= i < |signs| - 1 ensures signs[i] != Minus {
          if i > 0 { assert signs[1..][i - 1] != Minus; }
        }
      }
    } else if |signs| == 1 {
      assert !OddMinus(signs[1..]);
    }
  }

  lemma {:induction false} ItemsAgree(fs: seq<Item>)
    ensures ReadItems(fs) == MeantItems(fs) <==> CleanItems(fs)
    decreases fs, 0
  {
    if fs != [] {
      ItemsAgree(fs[1..]);
      var r, m := ReadItems(fs), MeantItems(fs);
      assert r[0] == ReadItem(fs[0]) && m[0] == MeantItem(fs[0]);
      assert r[1..] == ReadItems(fs[1..]) && m[1..] == MeantItems(fs[1..]);
      if fs[0].Group? { ReadingsAgree(fs[0].terms); }
    }
  }

  lemma {:induction false} ReadLonger(ts: seq<Written>)
    ensures |Read(ts)| >= |ts|
    decreases ts, 0
  {
    if ts != [] { ReadLonger(ts[1..]); }
  }

  /** Compiler and interpreter read the same expression exactly when no sign directly follows a minus. A plus
      before a minus, and a missing first sign, are harmless. */
  lemma {:induction false} ReadingsAgree(ts: seq<Written>)
    ensures Read(ts) == Meant(ts) <==> Clean(ts)
    decreases ts, 0
  {
    if ts != [] {
      var w := ts[0];
      var a, t, b := Strays(w.signs), Term(LastMinus(w.signs), ReadItems(w.items)), Read(ts[1..]);
      var m := Meant(ts);
      SignsAgree(w.signs);
      ItemsAgree(w.items);
      ReadingsAgree(ts[1..]);
      ReadLonger(ts[1..]);
      assert m[1..] == Meant(ts[1..]);
      if a == [] {
        assert a + [t] + b == [t] + b && ([t] + b)[1..] == b && ([t] + b)[0] == t;
      }
    }
  }

  /** On clean text both sides work on one expression: the compiler expands it, the interpreter evaluates it. */
  lemma SameReading(ts: seq<Written>, tail: seq<Token>, s: Store)
    requires WellFormed(ts, true) && Clean(ts) && Fits(Meant(ts), MAX_DEPTH) && Nonempty(Meant(ts))
    ensures var q := Poly(Meant(ts));
            && ExpandTokens([LParen] + Print(ts) + [RParen] + tail) == Some((ExpandPoly(q), tail))
            && ComputeLoop(Print(ts) + [RParen] + tail, INIT, 0, s) == Some((PolyQ(q, s), tail))
  {
    ReadingsAgree(ts);
    CompilerReads(ts, tail);
    InterpreterReads(ts, tail, s);
  }

  // ----- how far the values are apart otherwise -----

  function StrayCount(ts: seq<Written>): nat {
    if ts == [] then 0 else |Strays(ts[0].signs)| + StrayCount(ts[1..])
  }

  /** The terms whose sign the compiler gets wrong, as it reads them. */
  function Turned(ts: seq<Written>, env: Env): int {
    if ts == [] then 0
    else
      (if LastMinus(ts[0].signs) != OddMinus(ts[0].signs)
       then EvalTerm(Term(LastMinus(ts[0].signs), MeantItems(ts[0].items)), env) else 0) + Turned(ts[1..], env)
  }

  /** Nothing is wrong inside parentheses. */
  predicate CleanInside(ts: seq<Written>) {
    forall i :: 0 <= i < |ts| ==> CleanItems(ts[i].items)
  }

  lemma {:induction false} StraysValue(signs: seq<Token>, env: Env)
    ensures EvalTerms(Strays(signs), env) == -|Strays(signs)|
    decreases |signs|
  {
    if |signs| > 1 {
      StraysValue(signs[1..], env);
      if signs[0] == Minus {
        var all := [STRAY] + Strays(signs[1..]);
        assert all[0] == STRAY && all[1..] == Strays(signs[1..]);
        assert STRAY.factors[1..] == [];
        assert EvalFactors(STRAY.factors, env) == EvalFactor(Const(1), env) * EvalFactors([], env);
      } else {
        assert [] + Strays(signs[1..]) == Strays(signs[1..]);
      }
    }
  }

  lemma {:induction false} ValuesApart(ts: seq<Written>, env: Env)
    requires CleanInside(ts)
    ensures EvalTerms(Read(ts), env) == EvalTerms(Meant(ts), env) + 2 * Turned(ts, env) - StrayCount(ts)
    decreases ts, 0
  {
    if ts != [] {
      var w := ts[0];
      var a, t, b := Strays(w.signs), Term(LastMinus(w.signs), ReadItems(w.items)), Read(ts[1..]);
      var m := Meant(ts);
      ItemsAgree(w.items);
      forall i | 0 <= i < |ts[1..]| ensures CleanItems(ts[1..][i].items) { assert ts[1..][i] == ts[i + 1]; }
      ValuesApart(ts[1..], env);
      StraysValue(w.signs, env);
      EvalTermsAppend(a + [t], b, env);
      EvalTermsAppend(a, [t], env);
      assert [t][1..] == [] && m[1..] == Meant(ts[1..]);
    }
  }

  /** Exactly when the expansion has the value that is meant. */
  lemma StrayExact(ts: seq<Written>, tail: seq<Token>, env: Env)
    requires WellFormed(ts, true) && CleanInside(ts) && SafeTerms(Read(ts))
    ensures var r := ExpandTokens([LParen] + Print(ts) + [RParen] + tail);
            && r.Some? && r.value.1 == tail
            && (SumValue(r.value.0, env) == EvalTerms(Meant(ts), env) <==> 2 * Turned(ts, env) == StrayCount(ts))
  {
    CompilerReads(ts, tail);
    ExpansionMeaning(Poly(Read(ts)), env);
    ValuesApart(ts, env);
  }

  /** An odd number of minus signs with a sign directly after them, anywhere in the sum, and the value is wrong
      under every assignment. */
  lemma StrayMinus(ts: seq<Written>, tail: seq<Token>, env: Env)
    requires WellFormed(ts, true) && CleanInside(ts) && SafeTerms(Read(ts)) && StrayCount(ts) % 2 == 1
    ensures var r := ExpandTokens([LParen] + Print(ts) + [RParen] + tail);
            r.Some? && SumValue(r.value.0, env) != EvalTerms(Meant(ts), env)
  {
    StrayExact(ts, tail, env);
  }

  /** One such minus, at any position, is the case above. */
  lemma OneStray(us: seq<Written>, w: Written, vs: seq<Written>)
    requires Clean(us) && CleanItems(w.items) && Clean(vs)
    ensures CleanInside(us + [w] + vs) && StrayCount(us + [w] + vs) == |Strays(w.signs)|
  {
    CleanCount(us);
    CleanCount(vs);
    CountAppend(us + [w], vs);
    CountAppend(us, [w]);
    assert [w][1..] == [];
  }

  lemma {:induction false} CleanCount(ts: seq<Written>)
    requires Clean(ts)
    ensures CleanInside(ts) && StrayCount(ts) == 0
    decreases |ts|
  {
    if ts != [] {
      CleanCount(ts[1..]);
      SignsAgree(ts[0].signs);
      forall i | 0 <= i < |ts| ensures CleanItems(ts[i].items) {
        if i > 0 { assert ts[i] == ts[1..][i - 1]; }
      }
    }
  }

  lemma {:induction false} CountAppend(a: seq<Written>, b: seq<Written>)
    ensures StrayCount(a + b) == StrayCount(a) + StrayCount(b)
    decreases |a|
  {
    if a == [] {
      assert a + b == b;
    } else {
      assert (a + b)[1..] == a[1..] + b;
      CountAppend(a[1..], b);
    }
  }

  /** `( x - - y )` expands to `x - y - 1`, whatever `x` and `y` are. */
  lemma DoubleMinusRead(x: Id, y: Id)
    ensures var ts := [Written([], [Name(x)]), Written([Minus, Minus], [Name(y)])];
            && Read(ts) == [Term(false, [Var(x)]), STRAY, Term(true, [Var(y)])]
            && Meant(ts) == [Term(false, [Var(x)]), Term(false, [Var(y)])]
  {
    var u, w := Written([], [Name(x)]), Written([Minus, Minus], [Name(y)]);
    assert [u, w][1..] == [w] && [w][1..] == [];
    assert w.signs[1..] == [Minus] && [Minus][1..] == [];
    assert Strays(w.signs) == [STRAY] + Strays([Minus]);
    OneName(x);
    OneName(y);
    assert Read([w]) == [STRAY] + [Term(true, [Var(y)])] + [];
    assert OddMinus([Minus]) && !OddMinus(w.signs);
    assert Meant([w]) == [Term(false, [Var(y)])] + [];
  }

  lemma OneName(x: Id)
    ensures ReadItems([Name(x)]) == [Var(x)] && MeantItems([Name(x)]) == [Var(x)]
  {
    assert [Name(x)][1..] == [];
    assert ReadItems([Name(x)]) == [ReadItem(Name(x))] + ReadItems([]);
    assert MeantItems([Name(x)]) == [MeantItem(Name(x))] + MeantItems([]);
  }

  /** `+ -` reads as `-`, to the compiler and to the interpreter. */
  lemma PlusMinus(items: seq<Item>, rest: seq<Written>)
    ensures Read([Written([Plus, Minus], items)] + rest) == Read([Written([Minus], items)] + rest)
    ensures Meant([Written([Plus, Minus], items)] + rest) == Meant([Written([Minus], items)] + rest)
  {
    var a, b := [Plus, Minus], [Minus];
    assert a[1..] == b && b[1..] == [];
    assert ([Written(a, items)] + rest)[1..] == rest && ([Written(b, items)] + rest)[1..] == rest;
    assert Strays(b) == [] && Strays(a) == [] + Strays(b);
    assert OddMinus(b) && OddMinus(a);
  }

  // ----- blanks -----

  /** Without the blank tokens. */
  function Squeeze(ts: seq<Token>): (r: seq<Token>)
    ensures |r| <= |ts|
  {
    if ts == [] then [] else (if ts[0] == Blank then [] else [ts[0]]) + Squeeze(ts[1..])
  }

  function SqueezeTail<T>(r: Option<(T, seq<Token>)>): Option<(T, seq<Token>)> {
    if r.None? then None else Some((r.value.0, Squeeze(r.value.1)))
  }

  lemma SqueezeFirst(ts: seq<Token>)
    requires ts != [] && ts[0] != Blank
    ensures Squeeze(ts) != [] && Squeeze(ts)[0] == ts[0] && Squeeze(ts)[1..] == Squeeze(ts[1..])
  {
  }

  /** Blank tokens change nothing for the compiler. */
  lemma {:induction false} BlanksIgnored(ts: seq<Token>, multiply: seq<Mono>, e: seq<Mono>)
    ensures SqueezeTail(Loop(ts, multiply, e)) == Loop(Squeeze(ts), multiply, e)
    decreases |ts|
  {
    if ts != [] {
      var rest, q := ts[1..], Squeeze(ts);
      if ts[0] == Blank {
        assert q == Squeeze(rest);
        BlanksIgnored(rest, multiply, e);
      } else {
        SqueezeFirst(ts);
        match ts[0]
        case LParen =>
          BlanksIgnored(rest, [], []);
          var sub := ExpandTokens(ts);
          if sub.Some? { BlanksIgnored(sub.value.1, TimesPoly(multiply, sub.value.0), e); }
        case RParen =>
        case Plus => BlanksIgnored(rest, [], AddTerms(e, multiply));
        case Minus => BlanksIgnored(rest, [Mono(-1, [])], AddTerms(e, multiply));
        case Star => BlanksIgnored(rest, multiply, e);
        case NumTok(n) => BlanksIgnored(rest, TimesToken(multiply, Mono(n, [])), e);
        case NameTok(v) => BlanksIgnored(rest, TimesToken(multiply, Mono(1, [v])), e);
      }
    }
  }

  /** Nor for the interpreter. */
  lemma {:induction false} BlanksSkipped(ts: seq<Token>, a: Acc, depth: nat, s: Store)
    ensures SqueezeTail(ComputeLoop(ts, a, depth, s)) == ComputeLoop(Squeeze(ts), a, depth, s)
    decreases |ts|
  {
    if ts != [] {
      var rest, q := ts[1..], Squeeze(ts);
      if ts[0] == Blank {
        assert q == Squeeze(rest);
        BlanksSkipped(rest, a, depth, s);
      } else {
        SqueezeFirst(ts);
        match ts[0]
        case LParen =>
          BlanksSkipped(rest, INIT, depth + 1, s);
          var sub := ComputeLoop(rest, INIT, depth + 1, s);
          if sub.Some? { BlanksSkipped(sub.value.1, TakeFactor(a, sub.value.0), depth, s); }
        case RParen =>
        case Plus => BlanksSkipped(rest, Emit(a), depth, s);
        case Minus => BlanksSkipped(rest, Emit(a).(negate := !Emit(a).negate), depth, s);
        case Star => BlanksSkipped(rest, a, depth, s);
        case NumTok(n) => BlanksSkipped(rest, TakeFactor(a, Q(n, 1)), depth, s);
        case NameTok(v) => BlanksSkipped(rest, TakeFactor(a, Get(s, v)), depth, s);
      }
    }
  }

  // ----- where an expression ends -----

  /** What follows the parenthesis that closes `depth` more than are opened; `None` where there is none. */
  function Closing(ts: seq<Token>, depth: nat): (r: Option<seq<Token>>)
    ensures r.Some? ==> |r.value| < |ts|
  {
    if ts == [] then None
    else if ts[0] == LParen then Closing(ts[1..], depth + 1)
    else if ts[0] == RParen then (if depth == 0 then Some(ts[1..]) else Closing(ts[1..], depth - 1))
    else Closing(ts[1..], depth)
  }

  lemma {:induction false} ClosingNested(ts: seq<Token>, k: nat, d: nat)
    ensures Closing(ts, k + d + 1) == if Closing(ts, k).None? then None else Closing(Closing(ts, k).value, d)
    decreases |ts|
  {
    if ts != [] {
      if ts[0] == LParen {
        ClosingNested(ts[1..], k + 1, d);
      } else if ts[0] == RParen {
        if k > 0 { ClosingNested(ts[1..], k - 1, d); }
      } else {
        ClosingNested(ts[1..], k, d);
      }
    }
  }

  lemma {:induction false} LoopCloses(ts: seq<Token>, multiply: seq<Mono>, e: seq<Mono>)
    ensures Loop(ts, multiply, e).Some? <==> Closing(ts, 0).Some?
    ensures Loop(ts, multiply, e).Some? ==> Loop(ts, multiply, e).value.1 == Closing(ts, 0).value
    decreases |ts|
  {
    if ts != [] {
      var rest := ts[1..];
      match ts[0]
      case LParen =>
        LoopCloses(rest, [], []);
        ClosingNested(rest, 0, 0);
        var sub := ExpandTokens(ts);
        if sub.Some? { LoopCloses(sub.value.1, TimesPoly(multiply, sub.value.0), e); }
      case RParen =>
      case Plus => LoopCloses(rest, [], AddTerms(e, multiply));
      case Minus => LoopCloses(rest, [Mono(-1, [])], AddTerms(e, multiply));
      case Star => LoopCloses(rest, multiply, e);
      case Blank => LoopCloses(rest, multiply, e);
      case NumTok(n) => LoopCloses(rest, TimesToken(multiply, Mono(n, [])), e);
      case NameTok(v) => LoopCloses(rest, TimesToken(multiply, Mono(1, [v])), e);
    }
  }

  /** On any tokens: expansion succeeds exactly when they start with a parenthesis that is closed, and it stops
      right after its closing one. */
  lemma ExpansionEnds(ts: seq<Token>)
    ensures ExpandTokens(ts).Some? <==> ts != [] && ts[0] == LParen && Closing(ts[1..], 0).Some?
    ensures ExpandTokens(ts).Some? ==> ExpandTokens(ts).value.1 == Closing(ts[1..], 0).value
  {
    if ts != [] { LoopCloses(ts[1..], [], []); }
  }
}
