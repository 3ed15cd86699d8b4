/**
 * What `simplify` guarantees, proved about its functional form `Simplified`
 * (which the method `Simplify` computes):
 *
 *  - no two neighbouring literals remain, at any depth;
 *  - the emissions (literal text character by character, and every other
 *    instruction with all its fields) are unchanged, at every depth;
 *  - the top-level literal text and the top-level non-literals are kept,
 *    in order;
 *  - a run of literals becomes one literal whose text is their
 *    concatenation and whose span is the left fold of the partial join,
 *    and a non-literal splits the list into independent halves;
 *  - the result is already simplified, so a second pass changes nothing.
 */
module SimplifierProperties {
  import opened Wrappers
  import opened Syntax
  import opened Emission
  import opened Ir
  import opened Simplifier

  // ---------------------------------------------------------------------
  // No neighbouring literals, at any depth
  // ---------------------------------------------------------------------

  /** A literal, then a non-literal whose bodies are well merged, then a well-merged list. */
  lemma WellMergedAround(a: seq<Intermediate>, n: Intermediate, b: seq<Intermediate>)
    requires |a| <= 1 && AllLiterals(a)
    requires !n.Literal? && BodiesWellMerged(n)
    requires WellMerged(b)
    ensures WellMerged(a + [n] + b)
  {
    var s := a + [n] + b;
    forall i | 0 <= i < |s| ensures BodiesWellMerged(s[i]) {
      if i < |a| {
        assert s[i] == a[i];
      } else if i > |a| {
        assert s[i] == b[i - |a| - 1];
      }
    }
    forall i | 0 < i < |s| ensures !(s[i - 1].Literal? && s[i].Literal?) {
      if i > |a| + 1 {
        assert s[i - 1] == b[i - |a| - 2] && s[i] == b[i - |a| - 1];
      }
    }
  }

  lemma {:induction false} FoldWellMerged(join: (Span, Span) -> Option<Span>, current: Option<(string, Span)>, s: seq<Intermediate>)
    decreases s, 0
    ensures WellMerged(Fold(join, current, s))
  {
    if s == [] {
    } else if s[0].Literal? {
      FoldWellMerged(join, Some(Absorb(join, current, s[0].text, s[0].span)), s[1..]);
    } else {
      SimplifiedNestedWellMerged(join, s[0]);
      FoldWellMerged(join, None, s[1..]);
      WellMergedAround(Flush(current), SimplifiedNested(join, s[0]), Fold(join, None, s[1..]));
    }
  }

  lemma {:induction false} SimplifiedNestedWellMerged(join: (Span, Span) -> Option<Span>, x: Intermediate)
    decreases x
    ensures BodiesWellMerged(SimplifiedNested(join, x))
  {
    match x
    case If(h) =>
      FoldWellMerged(join, None, h.thenBranch.body);
      if h.elseBranch.Some? {
        FoldWellMerged(join, None, h.elseBranch.value.body);
      }
    case For(f) => FoldWellMerged(join, None, f.body.body);
    case While(w) => FoldWellMerged(join, None, w.body.body);
    case _ =>
  }

  /** After simplification no two neighbouring instructions are literals, in any body at any depth. */
  lemma SimplifiedWellMerged(join: (Span, Span) -> Option<Span>, s: seq<Intermediate>)
    ensures WellMerged(Simplified(join, s))
  {
    FoldWellMerged(join, None, s);
  }

  // ---------------------------------------------------------------------
  // Emissions are preserved, at every depth
  // ---------------------------------------------------------------------

  /** Absorbing a literal appends its characters to what the pending literal emits. */
  lemma AbsorbEmissions(join: (Span, Span) -> Option<Span>, current: Option<(string, Span)>, lit2: string, span2: Span)
    ensures Emissions(Flush(Some(Absorb(join, current, lit2, span2)))) == Emissions(Flush(current)) + Chars(lit2)
  {
    var a := Absorb(join, current, lit2, span2);
    EmissionsOne(Intermediate.Literal(a.0, a.1));
    match current {
      case None =>
      case Some((lit1, span1)) =>
        EmissionsOne(Intermediate.Literal(lit1, span1));
        CharsAppend(lit1, lit2);
    }
  }

  lemma {:induction false} FoldEmissions(join: (Span, Span) -> Option<Span>, current: Option<(string, Span)>, s: seq<Intermediate>)
    decreases s, 0
    ensures Emissions(Fold(join, current, s)) == Emissions(Flush(current)) + Emissions(s)
  {
    if s == [] {
    } else if s[0].Literal? {
      var next := Some(Absorb(join, current, s[0].text, s[0].span));
      FoldLiteralStep(join, current, s);
      FoldEmissions(join, next, s[1..]);
      AbsorbEmissions(join, current, s[0].text, s[0].span);
      EmissionsCons(s);
      EmissionsShift(Emissions(Fold(join, next, s[1..])), Emissions(Flush(current)), Emissions(Flush(next)),
        Chars(s[0].text), Emissions(s[1..]), Emissions(s));
    } else {
      var n := SimplifiedNested(join, s[0]);
      FoldOtherStep(join, current, s);
      SimplifiedNestedEmissions(join, s[0]);
      FoldEmissions(join, None, s[1..]);
      assert Emissions(Flush(None)) == [];
      EmissionsAround(Flush(current), n, Fold(join, None, s[1..]));
      EmissionsCons(s);
      EmissionsRegroup(Emissions(Fold(join, current, s)), Emissions(Flush(current)), EmissionsOf(s[0]),
        Emissions(Fold(join, None, s[1..])), Emissions(s[1..]), Emissions(s));
    }
  }

  /** Regrouping the emissions around a non-literal instruction. */
  lemma EmissionsRegroup(folded: seq<Emission>, flushed: seq<Emission>, one: seq<Emission>, rest: seq<Emission>, tail: seq<Emission>, all: seq<Emission>)
    requires folded == flushed + one + rest && rest == [] + tail && all == one + tail
    ensures folded == flushed + all
  {
  }

  /** Moving the first instruction's emissions from the pending literal to the list. */
  lemma EmissionsShift(folded: seq<Emission>, flushed: seq<Emission>, absorbed: seq<Emission>, chars: seq<Emission>, rest: seq<Emission>, all: seq<Emission>)
    requires folded == absorbed + rest && absorbed == flushed + chars && all == chars + rest
    ensures folded == flushed + all
  {
  }

  lemma EmissionsCons(s: seq<Intermediate>)
    requires s != []
    ensures Emissions(s) == EmissionsOf(s[0]) + Emissions(s[1..])
    ensures s[0].Literal? ==> EmissionsOf(s[0]) == Chars(s[0].text)
  {
  }

  lemma EmissionsAround(a: seq<Intermediate>, n: Intermediate, b: seq<Intermediate>)
    ensures Emissions(a + [n] + b) == Emissions(a) + EmissionsOf(n) + Emissions(b)
  {
    EmissionsAppend(a + [n], b);
    EmissionsAppend(a, [n]);
    EmissionsOne(n);
  }

  lemma {:induction false} SimplifiedNestedEmissions(join: (Span, Span) -> Option<Span>, x: Intermediate)
    decreases x
    ensures EmissionsOf(SimplifiedNested(join, x)) == EmissionsOf(x)
  {
    match x
    case If(h) =>
      FoldEmissions(join, None, h.thenBranch.body);
      assert Emissions(Simplified(join, h.thenBranch.body)) == Emissions(h.thenBranch.body);
      match h.elseBranch {
        case None =>
        case Some(e) =>
          FoldEmissions(join, None, e.body);
          assert Emissions(Simplified(join, e.body)) == Emissions(e.body);
      }
    case For(f) =>
      FoldEmissions(join, None, f.body.body);
      assert Emissions(Simplified(join, f.body.body)) == Emissions(f.body.body);
    case While(w) =>
      FoldEmissions(join, None, w.body.body);
      assert Emissions(Simplified(join, w.body.body)) == Emissions(w.body.body);
    case _ =>
  }

  /**
   * Simplification changes nothing that the generated code emits: the same
   * characters of literal text and the same non-literal instructions (every
   * token, condition, pattern and payload), in the same order, at every
   * depth. Only the chunking of literal text and the literal spans change.
   */
  lemma SimplifiedEmissions(join: (Span, Span) -> Option<Span>, s: seq<Intermediate>)
    ensures Emissions(Simplified(join, s)) == Emissions(s)
  {
    FoldEmissions(join, None, s);
  }

  // ---------------------------------------------------------------------
  // Top-level text and top-level non-literals are kept, in order
  // ---------------------------------------------------------------------

  /** Absorbing a literal appends its text to the pending literal's. */
  lemma AbsorbText(join: (Span, Span) -> Option<Span>, current: Option<(string, Span)>, lit2: string, span2: Span)
    ensures Text(Flush(Some(Absorb(join, current, lit2, span2)))) == Text(Flush(current)) + lit2
  {
    var a := Absorb(join, current, lit2, span2);
    assert [Intermediate.Literal(a.0, a.1)][1..] == [];
    match current {
      case None =>
      case Some((lit1, span1)) =>
        assert [Intermediate.Literal(lit1, span1)][1..] == [];
    }
  }

  /** Moving the first literal's text from the pending literal to the list. */
  lemma TextShift(folded: string, flushed: string, absorbed: string, text: string, rest: string, all: string)
    requires folded == absorbed + rest && absorbed == flushed + text && all == text + rest
    ensures folded == flushed + all
  {
  }

  lemma {:induction false} FoldText(join: (Span, Span) -> Option<Span>, current: Option<(string, Span)>, s: seq<Intermediate>)
    decreases s
    ensures Text(Fold(join, current, s)) == Text(Flush(current)) + Text(s)
  {
    if s == [] {
    } else if s[0].Literal? {
      var next := Some(Absorb(join, current, s[0].text, s[0].span));
      FoldLiteralStep(join, current, s);
      FoldText(join, next, s[1..]);
      AbsorbText(join, current, s[0].text, s[0].span);
      assert Text(s) == s[0].text + Text(s[1..]);
      TextShift(Text(Fold(join, next, s[1..])), Text(Flush(current)), Text(Flush(next)), s[0].text, Text(s[1..]), Text(s));
    } else {
      var n := SimplifiedNested(join, s[0]);
      FoldOtherStep(join, current, s);
      FoldText(join, None, s[1..]);
      TextAppend(Flush(current) + [n], Fold(join, None, s[1..]));
      TextAppend(Flush(current), [n]);
      assert [n][1..] == [];
      assert Text(s) == Text(s[1..]);
    }
  }

  /** The top-level literal text, concatenated, is the same before and after. */
  lemma SimplifiedText(join: (Span, Span) -> Option<Span>, s: seq<Intermediate>)
    ensures Text(Simplified(join, s)) == Text(s)
  {
    FoldText(join, None, s);
  }

  /** Each instruction of a list, with its bodies simplified. */
  function SimplifiedEach(join: (Span, Span) -> Option<Span>, s: seq<Intermediate>): (r: seq<Intermediate>)
    ensures |r| == |s|
    ensures forall i | 0 <= i < |s| :: r[i] == SimplifiedNested(join, s[i])
  {
    if s == [] then [] else [SimplifiedNested(join, s[0])] + SimplifiedEach(join, s[1..])
  }

  lemma {:induction false} FoldNonLiterals(join: (Span, Span) -> Option<Span>, current: Option<(string, Span)>, s: seq<Intermediate>)
    decreases s
    ensures NonLiterals(Fold(join, current, s)) == SimplifiedEach(join, NonLiterals(s))
  {
    if s == [] {
      assert NonLiterals(Flush(current)) == [] by {
        if current.Some? {
          assert Flush(current)[1..] == [];
        }
      }
    } else if s[0].Literal? {
      FoldNonLiterals(join, Some(Absorb(join, current, s[0].text, s[0].span)), s[1..]);
    } else {
      var n := SimplifiedNested(join, s[0]);
      FoldNonLiterals(join, None, s[1..]);
      NonLiteralsAppend(Flush(current) + [n], Fold(join, None, s[1..]));
      NonLiteralsAppend(Flush(current), [n]);
      assert [n][1..] == [];
      assert NonLiterals(Flush(current)) == [] by {
        if current.Some? {
          assert Flush(current)[1..] == [];
        }
      }
    }
  }

  /**
   * Every non-literal instruction of the input appears exactly once in the
   * output, in the same order; only its bodies are simplified.
   */
  lemma SimplifiedNonLiterals(join: (Span, Span) -> Option<Span>, s: seq<Intermediate>)
    ensures |NonLiterals(Simplified(join, s))| == |NonLiterals(s)|
    ensures forall i | 0 <= i < |NonLiterals(s)| ::
      NonLiterals(Simplified(join, s))[i] == SimplifiedNested(join, NonLiterals(s)[i])
  {
    FoldNonLiterals(join, None, s);
  }

  // ---------------------------------------------------------------------
  // Runs of literals and the lists between them
  // ---------------------------------------------------------------------

  /** The span of a merged run: the partial join folded from the left, keeping the left span on failure. */
  function JoinSpans(join: (Span, Span) -> Option<Span>, span: Span, s: seq<Intermediate>): Span
    requires AllLiterals(s)
  {
    if s == [] then span else JoinSpans(join, JoinOr(join, span, s[0].span), s[1..])
  }

  lemma {:induction false} FoldRun(join: (Span, Span) -> Option<Span>, lit: string, span: Span, s: seq<Intermediate>)
    requires AllLiterals(s)
    decreases s
    ensures Fold(join, Some((lit, span)), s) == [Intermediate.Literal(lit + Text(s), JoinSpans(join, span, s))]
  {
    if s != [] {
      assert AllLiterals(s[1..]) by {
        forall i | 0 <= i < |s[1..]| ensures s[1..][i].Literal? {
          assert s[1..][i] == s[i + 1];
        }
      }
      FoldRun(join, lit + s[0].text, JoinOr(join, span, s[0].span), s[1..]);
      assert Fold(join, Some((lit, span)), s) == Fold(join, Some((lit + s[0].text, JoinOr(join, span, s[0].span))), s[1..]);
      assert Text(s) == s[0].text + Text(s[1..]);
      assert lit + Text(s) == (lit + s[0].text) + Text(s[1..]);
      assert JoinSpans(join, span, s) == JoinSpans(join, JoinOr(join, span, s[0].span), s[1..]);
    } else {
      assert lit + Text(s) == lit;
    }
  }

  /**
   * A non-empty run of literals becomes exactly one literal: its text is the
   * in-order concatenation of theirs, its span the first span joined with
   * each following one.
   */
  lemma SimplifiedRun(join: (Span, Span) -> Option<Span>, s: seq<Intermediate>)
    requires s != [] && AllLiterals(s)
    ensures Simplified(join, s) == [Intermediate.Literal(Text(s), JoinSpans(join, s[0].span, s[1..]))]
  {
    FoldRun(join, s[0].text, s[0].span, s[1..]);
  }

  lemma {:induction false} FoldSplit(join: (Span, Span) -> Option<Span>, current: Option<(string, Span)>, a: seq<Intermediate>, n: Intermediate, b: seq<Intermediate>)
    requires !n.Literal?
    decreases a
    ensures Fold(join, current, a + [n] + b) == Fold(join, current, a) + [SimplifiedNested(join, n)] + Fold(join, None, b)
  {
    if a == [] {
      assert a + [n] + b == [n] + b;
      assert ([n] + b)[1..] == b;
    } else {
      var ab := a + [n] + b;
      assert ab[0] == a[0];
      assert ab[1..] == a[1..] + [n] + b;
      if a[0].Literal? {
        FoldLiteralStep(join, current, a);
        FoldLiteralStep(join, current, ab);
        FoldSplit(join, Some(Absorb(join, current, a[0].text, a[0].span)), a[1..], n, b);
      } else {
        FoldOtherStep(join, current, a);
        FoldOtherStep(join, current, ab);
        FoldSplit(join, None, a[1..], n, b);
      }
    }
  }

  /**
   * A non-literal instruction is a boundary no merge crosses: simplifying a
   * list around it is simplifying each side on its own.
   */
  lemma SimplifiedSplit(join: (Span, Span) -> Option<Span>, a: seq<Intermediate>, n: Intermediate, b: seq<Intermediate>)
    requires !n.Literal?
    ensures Simplified(join, a + [n] + b) == Simplified(join, a) + [SimplifiedNested(join, n)] + Simplified(join, b)
  {
    FoldSplit(join, None, a, n, b);
  }

  // ---------------------------------------------------------------------
  // Idempotence
  // ---------------------------------------------------------------------

  lemma {:induction false} FoldIdentity(join: (Span, Span) -> Option<Span>, current: Option<(string, Span)>, s: seq<Intermediate>)
    requires WellMerged(s)
    requires current.Some? && s != [] ==> !s[0].Literal?
    decreases s, 0
    ensures Fold(join, current, s) == Flush(current) + s
  {
    if s != [] {
      WellMergedTail(s);
      if s[0].Literal? {
        assert |s| > 1 ==> !s[1].Literal?;
        assert current.None?;
        FoldLiteralStep(join, current, s);
        FoldIdentity(join, Some((s[0].text, s[0].span)), s[1..]);
      } else {
        assert BodiesWellMerged(s[0]);
        FoldOtherStep(join, current, s);
        SimplifiedNestedIdentity(join, s[0]);
        FoldIdentity(join, None, s[1..]);
      }
    }
  }

  lemma WellMergedTail(s: seq<Intermediate>)
    requires s != [] && WellMerged(s)
    ensures WellMerged(s[1..]) && BodiesWellMerged(s[0])
    ensures s[0].Literal? && |s| > 1 ==> !s[1].Literal?
  {
    forall i | 0 <= i < |s[1..]| ensures BodiesWellMerged(s[1..][i]) {
      assert s[1..][i] == s[i + 1];
    }
    forall i | 0 < i < |s[1..]| ensures !(s[1..][i - 1].Literal? && s[1..][i].Literal?) {
      assert s[1..][i - 1] == s[i] && s[1..][i] == s[i + 1];
    }
  }

  lemma {:induction false} SimplifiedNestedIdentity(join: (Span, Span) -> Option<Span>, x: Intermediate)
    requires BodiesWellMerged(x)
    decreases x
    ensures SimplifiedNested(join, x) == x
  {
    match x
    case If(h) =>
      FoldIdentity(join, None, h.thenBranch.body);
      assert Simplified(join, h.thenBranch.body) == h.thenBranch.body;
      match h.elseBranch {
        case None =>
        case Some(e) =>
          FoldIdentity(join, None, e.body);
          assert Simplified(join, e.body) == e.body;
      }
    case For(f) => FoldIdentity(join, None, f.body.body);
    case While(w) => FoldIdentity(join, None, w.body.body);
    case _ =>
  }

  /** A list that is already well merged at every depth is left exactly as it is, spans included. */
  lemma SimplifiedIdentity(join: (Span, Span) -> Option<Span>, s: seq<Intermediate>)
    requires WellMerged(s)
    ensures Simplified(join, s) == s
  {
    FoldIdentity(join, None, s);
  }

  /** Simplifying twice is simplifying once. */
  lemma SimplifiedIdempotent(join: (Span, Span) -> Option<Span>, s: seq<Intermediate>)
    ensures Simplified(join, Simplified(join, s)) == Simplified(join, s)
  {
    SimplifiedWellMerged(join, s);
    SimplifiedIdentity(join, Simplified(join, s));
  }
}
