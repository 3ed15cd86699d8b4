/**
 * `simplify` of intermediate.rs: one pass over an instruction list that
 * merges every run of neighbouring literals into a single literal and
 * simplifies the bodies of `If`, `For` and `While` first.
 *
 * `Simplify` is the pass as the source runs it, a fold that pushes onto an
 * accumulator while holding a pending literal. `Simplified` is the same pass
 * as a function; the lemmas below state what it guarantees.
 *
 * `Span::join` is partial (it fails for spans from different files); it is a
 * parameter `join` here, and a failed join keeps the first span.
 */
module Simplifier {
  import opened Wrappers
  import opened Syntax
  import opened Emission
  import opened Ir

  /** The partial span join as the simplifier uses it: `span1.join(span2).unwrap_or(span1)`. */
  function JoinOr(join: (Span, Span) -> Option<Span>, span1: Span, span2: Span): Span {
    join(span1, span2).UnwrapOr(span1)
  }

  /** The pending literal, if any, as an instruction list. */
  function Flush(current: Option<(string, Span)>): (r: seq<Intermediate>)
    ensures |r| <= 1 && AllLiterals(r)
    ensures r == [] <==> current.None?
  {
    match current
    case None => []
    case Some((lit, span)) => [Intermediate.Literal(lit, span)]
  }

  /** The pending literal after the literal `lit2` with span `span2` is absorbed. */
  function Absorb(join: (Span, Span) -> Option<Span>, current: Option<(string, Span)>, lit2: string, span2: Span): (string, Span) {
    match current
    case None => (lit2, span2)
    case Some((lit1, span1)) => (lit1 + lit2, JoinOr(join, span1, span2))
  }

  /**
   * The fold of `simplify` over `s`, starting with the pending literal
   * `current`: what it pushes onto the accumulator from here on, including
   * the final flush. It never produces more instructions than it is given.
   */
  function Fold(join: (Span, Span) -> Option<Span>, current: Option<(string, Span)>, s: seq<Intermediate>): (r: seq<Intermediate>)
    decreases s, 0
    ensures |r| <= |Flush(current)| + |s|
    ensures r == [] <==> current.None? && s == []
  {
    if s == [] then Flush(current)
    else if s[0].Literal? then Fold(join, Some(Absorb(join, current, s[0].text, s[0].span)), s[1..])
    else Flush(current) + [SimplifiedNested(join, s[0])] + Fold(join, None, s[1..])
  }

  /** The result of `simplify(s)`. */
  function Simplified(join: (Span, Span) -> Option<Span>, s: seq<Intermediate>): (r: seq<Intermediate>)
    decreases s, 1
    ensures |r| <= |s|
    ensures r == [] <==> s == []
  {
    Fold(join, None, s)
  }

  /**
   * One instruction with the bodies of `If` (both branches), `For` and
   * `While` simplified; every other field, and every other kind of
   * instruction, unchanged.
   */
  function SimplifiedNested(join: (Span, Span) -> Option<Span>, x: Intermediate): (r: Intermediate)
    decreases x
    ensures r.Literal? == x.Literal? && r.Computation? == x.Computation? && r.ComputedValue? == x.ComputedValue?
    ensures r.If? == x.If? && r.For? == x.For? && r.While? == x.While?
  {
    match x
    case If(h) =>
      Intermediate.If(HtmlIf(h.ifToken, h.cond, h.thenBranch.With(Simplified(join, h.thenBranch.body)),
        match h.elseBranch
        case None => None
        case Some(e) => Some(e.With(Simplified(join, e.body)))))
    case For(f) =>
      Intermediate.For(HtmlForLoop(f.forToken, f.pat, f.inToken, f.expr, f.body.With(Simplified(join, f.body.body))))
    case While(w) =>
      Intermediate.While(HtmlWhile(w.whileToken, w.cond, w.body.With(Simplified(join, w.body.body))))
    case _ => x
  }

  /** One step of the fold on a literal: it is absorbed into the pending literal. */
  lemma FoldLiteralStep(join: (Span, Span) -> Option<Span>, current: Option<(string, Span)>, s: seq<Intermediate>)
    requires s != [] && s[0].Literal?
    ensures Fold(join, current, s) == Fold(join, Some(Absorb(join, current, s[0].text, s[0].span)), s[1..])
  {
  }

  /** One step of the fold on a non-literal: flush, then the instruction with its bodies simplified. */
  lemma FoldOtherStep(join: (Span, Span) -> Option<Span>, current: Option<(string, Span)>, s: seq<Intermediate>)
    requires s != [] && !s[0].Literal?
    ensures Fold(join, current, s) == Flush(current) + [SimplifiedNested(join, s[0])] + Fold(join, None, s[1..])
  {
  }

  /** The same step, seen after what the fold has already pushed. */
  lemma AccumulateOtherStep(join: (Span, Span) -> Option<Span>, acc: seq<Intermediate>, current: Option<(string, Span)>, s: seq<Intermediate>)
    requires s != [] && !s[0].Literal?
    ensures acc + Fold(join, current, s) == acc + Flush(current) + [SimplifiedNested(join, s[0])] + Fold(join, None, s[1..])
  {
    FoldOtherStep(join, current, s);
  }

  // ---------------------------------------------------------------------
  // The pass as the source runs it
  // ---------------------------------------------------------------------

  /**
   * `simplify`: a left-to-right fold with an accumulator `acc` and a pending
   * literal `current`. A literal is only pushed when the pending literal is
   * flushed before a non-literal or at the end.
   */
  method Simplify(join: (Span, Span) -> Option<Span>, input: seq<Intermediate>) returns (output: seq<Intermediate>)
    decreases input, 1
    ensures output == Simplified(join, input)
  {
    var acc: seq<Intermediate> := [];
    var current: Option<(string, Span)> := None;
    ghost var target := Simplified(join, input);
    var i := 0;
    while i < |input|
      invariant 0 <= i <= |input|
      invariant acc + Fold(join, current, input[i..]) == target
    {
      ghost var old_acc, old_current, suffix := acc, current, input[i..];
      var next := input[i];
      assert suffix[0] == next && suffix[1..] == input[i + 1..];
      if next.Literal? {
        var lit2, span2 := next.text, next.span;
        match current {
          case None =>
            current := Some((lit2, span2));
          case Some((lit1, span1)) =>
            current := Some((lit1 + lit2, JoinOr(join, span1, span2)));
        }
        assert current == Some(Absorb(join, old_current, lit2, span2));
        FoldLiteralStep(join, old_current, suffix);
      } else {
        if current.Some? {
          acc := acc + [Intermediate.Literal(current.value.0, current.value.1)];
        }
        assert acc == old_acc + Flush(old_current);
        var simplified := SimplifyNested(join, next);
        acc := acc + [simplified];
        current := None;
        AccumulateOtherStep(join, old_acc, old_current, suffix);
      }
      i := i + 1;
    }
    if current.Some? {
      acc := acc + [Intermediate.Literal(current.value.0, current.value.1)];
    }
    output := acc;
  }

  /** The in-place updates `html_if.then_branch.1 = simplify(...)` and friends, for one instruction. */
  method SimplifyNested(join: (Span, Span) -> Option<Span>, x: Intermediate) returns (y: Intermediate)
    decreases x
    ensures y == SimplifiedNested(join, x)
  {
    match x {
      case For(htmlFor) =>
        var body := Simplify(join, htmlFor.body.body);
        y := Intermediate.For(htmlFor.(body := htmlFor.body.(body := body)));
      case While(htmlWhile) =>
        var body := Simplify(join, htmlWhile.body.body);
        y := Intermediate.While(htmlWhile.(body := htmlWhile.body.(body := body)));
      case If(htmlIf) =>
        var thenBody := Simplify(join, htmlIf.thenBranch.body);
        var h := htmlIf.(thenBranch := htmlIf.thenBranch.(body := thenBody));
        if htmlIf.elseBranch.Some? {
          var else_ := htmlIf.elseBranch.value;
          var elseBody := Simplify(join, else_.body);
          h := h.(elseBranch := Some(else_.(body := elseBody)));
        }
        y := Intermediate.If(h);
      case _ =>
        y := x;
    }
  }
}
