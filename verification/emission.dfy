/**
 * What generated code does when it runs, one character of literal text at a
 * time. Two instruction lists that differ only in how their literal text is
 * cut into chunks (and in the spans of those chunks) have the same emissions:
 * this is the meaning that simplification must preserve.
 */
module Emission {
  import opened Syntax

  datatype Emission =
    | Char(c: char)                         // emit one character of literal text
    | EmitValue(value: ParenTokens)         // emit the value of a host expression
    | RunComputation(computation: BracedTokens)  // run host statements, emit nothing
    | Branch(htmlIf: HtmlIf<Emission>)
    | Loop(htmlFor: HtmlForLoop<Emission>)
    | Repeat(htmlWhile: HtmlWhile<Emission>)

  /** The emissions of a piece of literal text. */
  function Chars(t: string): (r: seq<Emission>)
    ensures |r| == |t|
  {
    if t == [] then [] else [Char(t[0])] + Chars(t[1..])
  }

  lemma {:induction false} CharsAppend(a: string, b: string)
    ensures Chars(a + b) == Chars(a) + Chars(b)
  {
    if a != [] {
      assert (a + b)[1..] == a[1..] + b;
      CharsAppend(a[1..], b);
    } else {
      assert a + b == b;
    }
  }
}
