/** Where `compute_poly` stops and when its temporary stack is too small, on any tokens. */
module StackDepth {
  import opened Poly
  import opened Rational
  import opened Worksheet
  import opened Expand

  /** What follows the parenthesis that closes one more than are opened, or nothing where the tokens run out. There
      is no such place when more than `MAX_DEPTH` are open on the way. */
  function Stop(ts: seq<Token>, open: nat, depth: nat): Option<seq<Token>> {
    if ts == [] then Some([])
    else if ts[0] == LParen then (if depth + open >= MAX_DEPTH then None else Stop(ts[1..], open + 1, depth))
    else if ts[0] == RParen then (if open == 0 then Some(ts[1..]) else Stop(ts[1..], open - 1, depth))
    else Stop(ts[1..], open, depth)
  }

  lemma {:induction false} StopNested(ts: seq<Token>, open: nat, depth: nat)
    ensures var inner := Stop(ts, open, depth + 1);
            Stop(ts, open + 1, depth) == if inner.None? then None else Stop(inner.value, 0, depth)
    decreases |ts|
  {
    if ts != [] {
      if ts[0] == LParen {
        StopNested(ts[1..], open + 1, depth);
      } else if ts[0] == RParen {
        if open > 0 { StopNested(ts[1..], open - 1, depth); }
      } else {
        StopNested(ts[1..], open, depth);
      }
    }
  }

  /** Evaluation of any tokens fails exactly when they nest too deep, and otherwise stops after the closing
      parenthesis. */
  lemma {:induction false} ComputeStops(ts: seq<Token>, a: Acc, depth: nat, s: Store)
    ensures ComputeLoop(ts, a, depth, s).Some? <==> Stop(ts, 0, depth).Some?
    ensures ComputeLoop(ts, a, depth, s).Some? ==> ComputeLoop(ts, a, depth, s).value.1 == Stop(ts, 0, depth).value
    decreases |ts|
  {
    if ts != [] {
      var rest := ts[1..];
      match ts[0]
      case LParen =>
        if depth < MAX_DEPTH {
          StopNested(rest, 0, depth);
          ComputeStops(rest, INIT, depth + 1, s);
          var sub := ComputeLoop(rest, INIT, depth + 1, s);
          if sub.Some? { ComputeStops(sub.value.1, TakeFactor(a, sub.value.0), depth, s); }
        }
      case RParen =>
      case Plus => ComputeStops(rest, Emit(a), depth, s);
      case Minus => ComputeStops(rest, Emit(a).(negate := !Emit(a).negate), depth, s);
      case Star => ComputeStops(rest, a, depth, s);
      case Blank => ComputeStops(rest, a, depth, s);
      case NumTok(n) => ComputeStops(rest, TakeFactor(a, Q(n, 1)), depth, s);
      case NameTok(v) => ComputeStops(rest, TakeFactor(a, Get(s, v)), depth, s);
    }
  }

  // ----- printed expressions -----

  lemma {:induction false} StopFactor(f: Factor, tail: seq<Token>, open: nat)
    requires open <= MAX_DEPTH
    ensures Stop(PrintFactor(f) + tail, open, 0) == if FitsFactor(f, MAX_DEPTH - open) then Stop(tail, open, 0) else None
    decreases f, 2
  {
    match f
    case Const(c) => assert ([NumTok(c)] + tail)[1..] == tail;
    case Var(v) => assert ([NameTok(v)] + tail)[1..] == tail;
    case Paren(p) =>
      var after := [RParen] + tail;
      assert PrintFactor(f) + tail == [LParen] + (PrintTerms(p.terms) + after);
      assert (PrintFactor(f) + tail)[1..] == PrintTerms(p.terms) + after && after[1..] == tail;
      if open < MAX_DEPTH { StopTerms(p.terms, after, open + 1); }
  }

  lemma {:induction false} StopFactors(fs: seq<Factor>, tail: seq<Token>, open: nat)
    requires open <= MAX_DEPTH
    ensures Stop(PrintFactors(fs) + tail, open, 0) == if FitsFactors(fs, MAX_DEPTH - open) then Stop(tail, open, 0) else None
    decreases fs, 0
  {
    if fs == [] {
      assert PrintFactors(fs) + tail == tail;
    } else {
      var star, rest := if |fs| > 1 then [Star] else [], PrintFactors(fs[1..]) + tail;
      assert PrintFactors(fs) + tail == PrintFactor(fs[0]) + (star + rest);
      StopFactor(fs[0], star + rest, open);
      StopSkips(Star, rest, open);
      assert |fs| <= 1 ==> star + rest == rest;
      StopFactors(fs[1..], tail, open);
    }
  }

  lemma {:induction false} StopTerms(ts: seq<Term>, tail: seq<Token>, open: nat)
    requires open <= MAX_DEPTH
    ensures Stop(PrintTerms(ts) + tail, open, 0) == if Fits(ts, MAX_DEPTH - open) then Stop(tail, open, 0) else None
    decreases ts, 0
  {
    if ts == [] {
      assert PrintTerms(ts) + tail == tail;
    } else {
      var rest := PrintTerms(ts[1..]) + tail;
      StopSign(ts, tail, open);
      StopFactors(ts[0].factors, rest, open);
      StopTerms(ts[1..], tail, open);
    }
  }

  lemma {:induction false} StopSign(ts: seq<Term>, tail: seq<Token>, open: nat)
    requires ts != []
    ensures Stop(PrintTerms(ts) + tail, open, 0) == Stop(PrintFactors(ts[0].factors) + (PrintTerms(ts[1..]) + tail), open, 0)
  {
    var sign, rest := if ts[0].neg then Minus else Plus, PrintFactors(ts[0].factors) + (PrintTerms(ts[1..]) + tail);
    assert PrintTerms(ts) + tail == [sign] + rest;
    StopSkips(sign, rest, open);
  }

  lemma {:induction false} StopSkips(tok: Token, rest: seq<Token>, open: nat)
    requires tok != LParen && tok != RParen
    ensures Stop([tok] + rest, open, 0) == Stop(rest, open, 0)
  {
    assert ([tok] + rest)[1..] == rest;
  }

  /** A printed expression is evaluated, to its value, exactly when it nests no deeper than the stack allows. */
  lemma PrintedExact(p: Poly, tail: seq<Token>, s: Store)
    requires Nonempty(p.terms)
    ensures ComputeLoop(PrintTerms(p.terms) + [RParen] + tail, INIT, 0, s)
         == if Fits(p.terms, MAX_DEPTH) then Some((PolyQ(p, s), tail)) else None
  {
    if Fits(p.terms, MAX_DEPTH) {
      ComputePrinted(p, tail, s);
    } else {
      var ts := PrintTerms(p.terms) + [RParen] + tail;
      assert ts == PrintTerms(p.terms) + ([RParen] + tail);
      StopTerms(p.terms, [RParen] + tail, 0);
      ComputeStops(ts, INIT, 0, s);
    }
  }
}
