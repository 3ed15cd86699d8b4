/**
 * The two templates whose rendered output the repository's tests check,
 * taken through lowering and simplification. Spans are arbitrary, and so is
 * the partial join.
 */
module Examples {
  import opened Wrappers
  import opened Syntax
  import opened Emission
  import opened Ir
  import opened Lowering
  import opened Simplifier
  import opened SimplifierProperties

  /** `<a aria-current="true"></a>` as a syntax tree; `s` supplies the spans of its tokens. */
  function AriaCurrentLink(s: seq<Span>): HtmlInElementContext
    requires |s| == 12
  {
    HtmlInElementContext.Element(HtmlElement(
      s[0], Ident("a", s[1]),
      [HtmlInAttributeContext.Literal(
        AttributeKey(KeyPair(Ident("aria", s[2]), Some(Dash(s[3]))), [KeyPair(Ident("current", s[4]), None)]),
        Some(AttributeValue(s[5], [HtmlInAttributeValueContext.Literal(LitStr("true", s[6]))])))],
      s[7],
      Some(ElementChildren([], s[8], s[9], Ident("a", s[10]), s[11]))))
  }

  /** The instructions the link lowers to: eleven literals. */
  function AriaCurrentLinkLowered(s: seq<Span>): seq<Intermediate>
    requires |s| == 12
  {
    [Intermediate.Literal("<", s[0]), Intermediate.Literal("a", s[1]),
     Intermediate.Literal(" aria-current", s[2]), Intermediate.Literal("=\"", s[5]),
     Intermediate.Literal("true", s[6]), Intermediate.Literal("\"", s[5]),
     Intermediate.Literal(">", s[7]),
     Intermediate.Literal("<", s[8]), Intermediate.Literal("/", s[9]),
     Intermediate.Literal("a", s[10]), Intermediate.Literal(">", s[11])]
  }

  lemma AriaCurrentKeyText(s: seq<Span>)
    requires |s| == 12
    ensures KeyText(AriaCurrentLink(s).element.attributes[0].key) == "aria-current"
  {
    var p0, p1 := KeyPair(Ident("aria", s[2]), Some(Dash(s[3]))), KeyPair(Ident("current", s[4]), None);
    var key := AttributeKey(p0, [p1]);
    assert AriaCurrentLink(s).element.attributes[0].key == key;
    assert key.Pairs() == [p0, p1];
    assert [p0, p1][1..] == [p1];
    assert [p1][1..] == [];
    assert PairsText([p1]) == "current";
  }

  lemma LowerAriaCurrentAttribute(s: seq<Span>)
    requires |s| == 12
    ensures LowerAttributes(AriaCurrentLink(s).element.attributes) == AriaCurrentLinkLowered(s)[2..6]
  {
    var attribute := AriaCurrentLink(s).element.attributes[0];
    var valueParts := [HtmlInAttributeValueContext.Literal(LitStr("true", s[6]))];
    assert LowerAttributeValues(valueParts) == [Intermediate.Literal("true", s[6])] by {
      assert valueParts[1..] == [];
    }
    assert attribute == HtmlInAttributeContext.Literal(attribute.key, Some(AttributeValue(s[5], valueParts)));
    AriaCurrentKeyText(s);
    assert " " + KeyText(attribute.key) == " aria-current";
    assert LowerAttribute(attribute) == AriaCurrentLinkLowered(s)[2..6];
    assert [attribute][1..] == [];
    assert AriaCurrentLink(s).element.attributes == [attribute];
  }

  lemma LowerAriaCurrentLink(s: seq<Span>)
    requires |s| == 12
    ensures LowerElementContexts([AriaCurrentLink(s)]) == AriaCurrentLinkLowered(s)
  {
    var link := AriaCurrentLink(s);
    var l := AriaCurrentLinkLowered(s);
    LowerAriaCurrentAttribute(s);
    assert LowerElementContexts([]) == [];
    assert LowerElementContext(link) == l[..2] + l[2..6] + [l[6]] + ([] + l[7..]);
    assert l[..2] + l[2..6] + [l[6]] + ([] + l[7..]) == l;
    assert [link][1..] == [];
  }

  /** `Text` of four literals is their texts in order. */
  lemma TextFour(l: seq<Intermediate>)
    requires |l| == 4 && AllLiterals(l)
    ensures Text(l) == l[0].text + l[1].text + l[2].text + l[3].text
  {
    assert l[3..][1..] == [];
    assert Text(l[3..]) == l[3].text + "";
    assert l[2..][1..] == l[3..];
    assert Text(l[2..]) == l[2].text + Text(l[3..]);
    assert l[1..][1..] == l[2..];
    assert Text(l[1..]) == l[1].text + Text(l[2..]);
  }

  /** The texts of the link's literals, concatenated, spell out the markup. */
  lemma AriaCurrentLinkPieces()
    ensures "<" + "a" + " aria-current" + "=\"" == "<a aria-current=\""
    ensures "true" + "\"" + ">" + "<" == "true\"><"
    ensures "/" + "a" + ">" + "" == "/a>"
    ensures "<a aria-current=\"" + "true\"><" + "/a>" == "<a aria-current=\"true\"></a>"
  {
  }

  lemma AriaCurrentLinkText(s: seq<Span>)
    requires |s| == 12
    ensures AllLiterals(AriaCurrentLinkLowered(s))
    ensures Text(AriaCurrentLinkLowered(s)) == "<a aria-current=\"true\"></a>"
  {
    var l := AriaCurrentLinkLowered(s);
    var empty := [Intermediate.Literal("", s[0])];
    var a, b, c := l[..4], l[4..8], l[8..] + empty;
    assert l == a + b + l[8..];
    TextFour(a);
    TextFour(b);
    TextFour(c);
    TextAppend(a, b);
    TextAppend(a + b, l[8..]);
    TextAppend(l[8..], empty);
    assert Text(empty) == "" by {
      assert empty[1..] == [];
    }
    AriaCurrentLinkPieces();
  }

  /**
   * The element lowers to literals only, and simplification turns them into
   * the single literal `<a aria-current="true"></a>`.
   */
  lemma AttributeWithDash(join: (Span, Span) -> Option<Span>, s: seq<Span>)
    requires |s| == 12
    ensures var r := Simplified(join, LowerElementContexts([AriaCurrentLink(s)]));
      |r| == 1 && r[0].Literal? && r[0].text == "<a aria-current=\"true\"></a>"
  {
    LowerAriaCurrentLink(s);
    AriaCurrentLinkText(s);
    SimplifiedRun(join, AriaCurrentLinkLowered(s));
  }

  /** `if condition { "true" (variable) }` as a syntax tree. */
  function IfTrueThenVariable(cond: Expr, variable: ParenTokens, ifToken: Span, brace: Span, litSpan: Span): HtmlInElementContext {
    HtmlInElementContext.If(HtmlIf(ifToken, cond,
      Braced(brace, [HtmlInElementContext.Literal(LitStr("true", litSpan)), HtmlInElementContext.ComputedValue(variable)]),
      None))
  }

  /** The body of the conditional emits the characters of `true`, then the variable's value. */
  lemma TrueThenValueEmissions(variable: ParenTokens, litSpan: Span)
    ensures Emissions([Intermediate.Literal("true", litSpan), Intermediate.ComputedValue(variable)])
      == [Char('t'), Char('r'), Char('u'), Char('e'), EmitValue(variable)]
  {
    var body := [Intermediate.Literal("true", litSpan), Intermediate.ComputedValue(variable)];
    assert Emissions(body) == Chars("true") + [EmitValue(variable)] by {
      assert body[1..][1..] == [];
      assert Emissions(body[1..]) == [EmitValue(variable)];
    }
    assert Chars("true") == [Char('t'), Char('r'), Char('u'), Char('e')] by {
      assert "true"[1..] == "rue" && "rue"[1..] == "ue" && "ue"[1..] == "e" && "e"[1..] == "";
    }
  }

  /**
   * The conditional stays one `If` without an else branch, whose body emits
   * the text `true` and then the variable's value.
   */
  lemma IfLiteralThenValue(join: (Span, Span) -> Option<Span>, cond: Expr, variable: ParenTokens, ifToken: Span, brace: Span, litSpan: Span)
    ensures var r := Simplified(join, LowerElementContexts([IfTrueThenVariable(cond, variable, ifToken, brace, litSpan)]));
      && r == [Intermediate.If(HtmlIf(ifToken, cond,
           Braced(brace, [Intermediate.Literal("true", litSpan), Intermediate.ComputedValue(variable)]), None))]
      && Emissions(r) == [Branch(HtmlIf(ifToken, cond,
           Braced(brace, [Char('t'), Char('r'), Char('u'), Char('e'), EmitValue(variable)]), None))]
  {
    var body := [Intermediate.Literal("true", litSpan), Intermediate.ComputedValue(variable)];
    var source := [HtmlInElementContext.Literal(LitStr("true", litSpan)), HtmlInElementContext.ComputedValue(variable)];
    assert LowerElementContexts(source) == body by {
      assert source[1..][1..] == [];
      assert LowerElementContexts(source[1..]) == [Intermediate.ComputedValue(variable)];
    }
    var node := IfTrueThenVariable(cond, variable, ifToken, brace, litSpan);
    var lowered := [Intermediate.If(HtmlIf(ifToken, cond, Braced(brace, body), None))];
    assert LowerElementContexts([node]) == lowered by {
      assert [node][1..] == [];
    }
    assert WellMerged(body) by {
      assert NoAdjacentLiterals(body);
      assert forall i | 0 <= i < |body| :: BodiesWellMerged(body[i]);
    }
    assert WellMerged(lowered) by {
      assert BodiesWellMerged(lowered[0]);
    }
    SimplifiedIdentity(join, lowered);
    TrueThenValueEmissions(variable, litSpan);
    assert Emissions(lowered) == EmissionsOf(lowered[0]) by {
      assert lowered[1..] == [];
    }
    assert EmissionsOf(lowered[0]) == [Branch(HtmlIf(ifToken, cond, Braced(brace, Emissions(body)), None))];
    assert Emissions(body) == [Char('t'), Char('r'), Char('u'), Char('e'), EmitValue(variable)];
    assert Emissions(lowered) == [Branch(HtmlIf(ifToken, cond,
           Braced(brace, [Char('t'), Char('r'), Char('u'), Char('e'), EmitValue(variable)]), None))];
    assert Simplified(join, lowered) == lowered;
  }
}
