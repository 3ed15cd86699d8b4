/**
 * The intermediate representation (`enum Intermediate` of intermediate.rs):
 * a list of instructions in emission order, and the views of it that the
 * properties of lowering and simplification are stated in.
 */
module Ir {
  import opened Wrappers
  import opened Syntax
  import opened Emission

  datatype Intermediate =
    | Literal(text: string, span: Span)
    | Computation(computation: BracedTokens)
    | ComputedValue(value: ParenTokens)
    | If(htmlIf: HtmlIf<Intermediate>)
    | While(htmlWhile: HtmlWhile<Intermediate>)
    | For(htmlFor: HtmlForLoop<Intermediate>)

  /** The emissions of an instruction list: literal text character by character, at every depth. */
  function Emissions(s: seq<Intermediate>): seq<Emission>
    decreases s
  {
    if s == [] then [] else EmissionsOf(s[0]) + Emissions(s[1..])
  }

  function EmissionsOf(x: Intermediate): seq<Emission>
    decreases x
  {
    match x
    case Literal(text, _) => Chars(text)
    case Computation(c) => [RunComputation(c)]
    case ComputedValue(v) => [EmitValue(v)]
    case If(h) =>
      [Branch(HtmlIf(h.ifToken, h.cond, h.thenBranch.With(Emissions(h.thenBranch.body)),
        match h.elseBranch
        case None => None
        case Some(e) => Some(e.With(Emissions(e.body)))))]
    case While(w) => [Repeat(HtmlWhile(w.whileToken, w.cond, w.body.With(Emissions(w.body.body))))]
    case For(f) => [Loop(HtmlForLoop(f.forToken, f.pat, f.inToken, f.expr, f.body.With(Emissions(f.body.body))))]
  }

  /** A one-instruction list emits what that instruction emits. */
  lemma EmissionsOne(x: Intermediate)
    ensures Emissions([x]) == EmissionsOf(x)
  {
    assert [x][1..] == [];
  }

  lemma {:induction false} EmissionsAppend(a: seq<Intermediate>, b: seq<Intermediate>)
    ensures Emissions(a + b) == Emissions(a) + Emissions(b)
  {
    if a != [] {
      assert (a + b)[1..] == a[1..] + b;
      EmissionsAppend(a[1..], b);
    } else {
      assert a + b == b;
    }
  }

  /** The text of the top-level literals, concatenated in order. */
  function Text(s: seq<Intermediate>): string {
    if s == [] then ""
    else (if s[0].Literal? then s[0].text else "") + Text(s[1..])
  }

  lemma {:induction false} TextAppend(a: seq<Intermediate>, b: seq<Intermediate>)
    ensures Text(a + b) == Text(a) + Text(b)
  {
    if a != [] {
      assert (a + b)[1..] == a[1..] + b;
      TextAppend(a[1..], b);
    } else {
      assert a + b == b;
    }
  }

  /** The top-level instructions that are not literals, in order. */
  function NonLiterals(s: seq<Intermediate>): seq<Intermediate> {
    if s == [] then []
    else (if s[0].Literal? then [] else [s[0]]) + NonLiterals(s[1..])
  }

  lemma {:induction false} NonLiteralsAppend(a: seq<Intermediate>, b: seq<Intermediate>)
    ensures NonLiterals(a + b) == NonLiterals(a) + NonLiterals(b)
  {
    if a != [] {
      assert (a + b)[1..] == a[1..] + b;
      NonLiteralsAppend(a[1..], b);
    } else {
      assert a + b == b;
    }
  }

  predicate AllLiterals(s: seq<Intermediate>) {
    forall i | 0 <= i < |s| :: s[i].Literal?
  }

  /** No two neighbouring instructions of this list are both literals. */
  predicate NoAdjacentLiterals(s: seq<Intermediate>) {
    forall i | 0 < i < |s| :: !(s[i - 1].Literal? && s[i].Literal?)
  }

  /** No two neighbouring literals in this list, nor in any body nested in it. */
  predicate WellMerged(s: seq<Intermediate>)
    decreases s
  {
    NoAdjacentLiterals(s) && forall i | 0 <= i < |s| :: BodiesWellMerged(s[i])
  }

  predicate BodiesWellMerged(x: Intermediate)
    decreases x
  {
    match x
    case If(h) =>
      WellMerged(h.thenBranch.body) && (match h.elseBranch case None => true case Some(e) => WellMerged(e.body))
    case While(w) => WellMerged(w.body.body)
    case For(f) => WellMerged(f.body.body)
    case _ => true
  }
}
