/**
 * The three `From<...> for Vec<Intermediate>` conversions of intermediate.rs:
 * each syntax node becomes a list of instructions, a list of nodes the
 * in-order concatenation (`flat_map`) of theirs.
 */
module Lowering {
  import opened Wrappers
  import opened Syntax
  import opened Ir

  // ---------------------------------------------------------------------
  // Attribute values: `From<HtmlInAttributeValueContext>`
  // ---------------------------------------------------------------------

  /** Every node of an attribute value becomes exactly one instruction of the same kind. */
  function LowerAttributeValue(v: HtmlInAttributeValueContext): (r: seq<Intermediate>)
    decreases v
    ensures |r| == 1
    ensures r[0].Literal? <==> v.Literal?
    ensures r[0].ComputedValue? <==> v.ComputedValue?
    ensures r[0].Computation? <==> v.Computation?
    ensures r[0].If? <==> v.If?
    ensures r[0].For? <==> v.For?
    ensures r[0].While? <==> v.While?
    ensures v.If? ==> (r[0].htmlIf.elseBranch.Some? <==> v.htmlIf.elseBranch.Some?)
  {
    match v
    case Literal(lit) => [Intermediate.Literal(lit.value, lit.span)]
    case ComputedValue(value) => [Intermediate.ComputedValue(value)]
    case Computation(computation) => [Intermediate.Computation(computation)]
    case If(h) =>
      [Intermediate.If(HtmlIf(h.ifToken, h.cond, h.thenBranch.With(LowerAttributeValues(h.thenBranch.body)),
        match h.elseBranch
        case None => None
        case Some(e) => Some(e.With(LowerAttributeValues(e.body)))))]
    case For(f) =>
      [Intermediate.For(HtmlForLoop(f.forToken, f.pat, f.inToken, f.expr, f.body.With(LowerAttributeValues(f.body.body))))]
    case While(w) =>
      [Intermediate.While(HtmlWhile(w.whileToken, w.cond, w.body.With(LowerAttributeValues(w.body.body))))]
  }

  /** An attribute value lowers node for node: one instruction per node, in order. */
  function LowerAttributeValues(vs: seq<HtmlInAttributeValueContext>): (r: seq<Intermediate>)
    decreases vs
    ensures |r| == |vs|
    ensures forall i | 0 <= i < |vs| :: [r[i]] == LowerAttributeValue(vs[i])
  {
    if vs == [] then [] else LowerAttributeValue(vs[0]) + LowerAttributeValues(vs[1..])
  }

  // ---------------------------------------------------------------------
  // Attributes: `From<HtmlInAttributeContext>`
  // ---------------------------------------------------------------------

  /**
   * A key/value attribute becomes the literal ` key`, then, when it has a
   * value, `="`, the value's instructions and `"`. Control nodes become one
   * instruction of the same kind.
   */
  function LowerAttribute(a: HtmlInAttributeContext): (r: seq<Intermediate>)
    decreases a
    ensures a.Literal? && a.value.None? ==> |r| == 1
    ensures a.Literal? && a.value.Some? ==> |r| == |a.value.value.parts| + 3
    ensures a.Literal? ==> r[0].Literal? && |r[0].text| == 1 + |KeyText(a.key)| && r[0].text[0] == ' '
    ensures a.Literal? ==> r[0] == Intermediate.Literal(" " + KeyText(a.key), a.key.first.ident.span)
    ensures !a.Literal? ==> |r| == 1
    ensures r[0].Computation? <==> a.Computation?
    ensures r[0].If? <==> a.If?
    ensures r[0].For? <==> a.For?
    ensures r[0].While? <==> a.While?
    ensures a.If? ==> (r[0].htmlIf.elseBranch.Some? <==> a.htmlIf.elseBranch.Some?)
  {
    match a
    case Literal(key, value) =>
      [Intermediate.Literal(" " + KeyText(key), key.first.ident.span)]
      + (match value
         case None => []
         case Some(v) =>
           [Intermediate.Literal("=\"", v.token)] + LowerAttributeValues(v.parts) + [Intermediate.Literal("\"", v.token)])
    case Computation(computation) => [Intermediate.Computation(computation)]
    case If(h) =>
      [Intermediate.If(HtmlIf(h.ifToken, h.cond, h.thenBranch.With(LowerAttributes(h.thenBranch.body)),
        match h.elseBranch
        case None => None
        case Some(e) => Some(e.With(LowerAttributes(e.body)))))]
    case For(f) =>
      [Intermediate.For(HtmlForLoop(f.forToken, f.pat, f.inToken, f.expr, f.body.With(LowerAttributes(f.body.body))))]
    case While(w) =>
      [Intermediate.While(HtmlWhile(w.whileToken, w.cond, w.body.With(LowerAttributes(w.body.body))))]
  }

  /** Each attribute contributes at least one instruction. */
  function LowerAttributes(attributes: seq<HtmlInAttributeContext>): (r: seq<Intermediate>)
    decreases attributes
    ensures |r| >= |attributes|
  {
    if attributes == [] then [] else LowerAttribute(attributes[0]) + LowerAttributes(attributes[1..])
  }

  // ---------------------------------------------------------------------
  // Element children and templates: `From<HtmlInElementContext>`
  // ---------------------------------------------------------------------

  /** The instructions of an element's closing tag: `<`, `/`, the closing name, `>`. */
  function ClosingTag(c: ElementChildren): seq<Intermediate> {
    [Intermediate.Literal("<", c.closeStart), Intermediate.Literal("/", c.closeSlash),
     Intermediate.Literal(c.closeTagName.name, c.closeTagName.span), Intermediate.Literal(">", c.closeEnd)]
  }

  /**
   * A node in element context. An element becomes `<`, its name, its
   * attributes, `>` and, only when it has a children part, the children's
   * instructions and its closing tag; every other node becomes one
   * instruction of the same kind.
   */
  function LowerElementContext(n: HtmlInElementContext): (r: seq<Intermediate>)
    decreases n
    ensures !n.Element? ==> |r| == 1
    ensures n.Element? ==> |r| >= 3 && r[0] == Intermediate.Literal("<", n.element.openStart)
    ensures n.Element? ==> r[|r| - 1].Literal? && r[|r| - 1].text == ">"
    ensures r[0].Literal? <==> n.Literal? || n.Element?
    ensures r[0].ComputedValue? <==> n.ComputedValue?
    ensures r[0].Computation? <==> n.Computation?
    ensures r[0].If? <==> n.If?
    ensures r[0].For? <==> n.For?
    ensures r[0].While? <==> n.While?
    ensures n.If? ==> (r[0].htmlIf.elseBranch.Some? <==> n.htmlIf.elseBranch.Some?)
  {
    match n
    case Literal(lit) => [Intermediate.Literal(lit.value, lit.span)]
    case ComputedValue(value) => [Intermediate.ComputedValue(value)]
    case Computation(computation) => [Intermediate.Computation(computation)]
    case If(h) =>
      [Intermediate.If(HtmlIf(h.ifToken, h.cond, h.thenBranch.With(LowerElementContexts(h.thenBranch.body)),
        match h.elseBranch
        case None => None
        case Some(e) => Some(e.With(LowerElementContexts(e.body)))))]
    case For(f) =>
      [Intermediate.For(HtmlForLoop(f.forToken, f.pat, f.inToken, f.expr, f.body.With(LowerElementContexts(f.body.body))))]
    case While(w) =>
      [Intermediate.While(HtmlWhile(w.whileToken, w.cond, w.body.With(LowerElementContexts(w.body.body))))]
    case Element(e) =>
      [Intermediate.Literal("<", e.openStart), Intermediate.Literal(e.openTagName.name, e.openTagName.span)]
      + LowerAttributes(e.attributes)
      + [Intermediate.Literal(">", e.openEnd)]
      + (match e.children
         case None => []
         case Some(c) => LowerElementContexts(c.nodes) + ClosingTag(c))
  }

  /** Each node contributes at least one instruction. */
  function LowerElementContexts(ns: seq<HtmlInElementContext>): (r: seq<Intermediate>)
    decreases ns
    ensures |r| >= |ns|
  {
    if ns == [] then [] else LowerElementContext(ns[0]) + LowerElementContexts(ns[1..])
  }

  // ---------------------------------------------------------------------
  // Layout of elements and attributes
  // ---------------------------------------------------------------------

  /**
   * An element lowers to `<`, its name, its attributes' instructions and
   * `>`; when it has a children part, these are followed by the children's
   * instructions and the four literals `<`, `/`, the closing tag's own name
   * and `>`, and otherwise by nothing.
   */
  lemma ElementLayout(e: HtmlElement)
    ensures var r := LowerElementContext(HtmlInElementContext.Element(e));
      var k := 2 + |LowerAttributes(e.attributes)|;
      && k < |r|
      && r[0] == Intermediate.Literal("<", e.openStart)
      && r[1] == Intermediate.Literal(e.openTagName.name, e.openTagName.span)
      && r[2..k] == LowerAttributes(e.attributes)
      && r[k] == Intermediate.Literal(">", e.openEnd)
      && (e.children.None? ==> |r| == k + 1)
      && (e.children.Some? ==>
            var c := e.children.value;
            r[k + 1..] == LowerElementContexts(c.nodes) + ClosingTag(c))
  {
    var r := LowerElementContext(HtmlInElementContext.Element(e));
    var attrs := LowerAttributes(e.attributes);
    var head := [Intermediate.Literal("<", e.openStart), Intermediate.Literal(e.openTagName.name, e.openTagName.span)];
    var gt := [Intermediate.Literal(">", e.openEnd)];
    match e.children {
      case None =>
        assert r == head + attrs + gt + [];
        OpeningTagSlices(head, attrs, gt, []);
      case Some(c) =>
        var children := LowerElementContexts(c.nodes);
        assert r == head + attrs + gt + (children + ClosingTag(c));
        OpeningTagSlices(head, attrs, gt, children + ClosingTag(c));
    }
  }

  /** Where the pieces of an opening tag sit in the instructions of an element. */
  lemma OpeningTagSlices(head: seq<Intermediate>, attrs: seq<Intermediate>, gt: seq<Intermediate>, tail: seq<Intermediate>)
    requires |head| == 2 && |gt| == 1
    ensures var r := head + attrs + gt + tail;
      && r[0] == head[0] && r[1] == head[1]
      && r[2..2 + |attrs|] == attrs
      && r[2 + |attrs|] == gt[0]
      && r[2 + |attrs| + 1..] == tail
  {
  }


  /**
   * An attribute with a key lowers to one literal, a space and the key
   * (each segment followed by `:`, `-` or, after the last, nothing) at the
   * span of the key's first segment; when it has a value, then `="`, the
   * value's instructions in order and `"`, both at the value token's span.
   */
  lemma AttributeLayout(key: AttributeKey, value: Option<AttributeValue>)
    ensures var r := LowerAttribute(HtmlInAttributeContext.Literal(key, value));
      && r[0] == Intermediate.Literal(" " + KeyText(key), key.first.ident.span)
      && (value.None? ==> |r| == 1)
      && (value.Some? ==>
            var v := value.value;
            && |r| == 3 + |v.parts|
            && r[1] == Intermediate.Literal("=\"", v.token)
            && r[2..|r| - 1] == LowerAttributeValues(v.parts)
            && r[|r| - 1] == Intermediate.Literal("\"", v.token))
  {
    var r := LowerAttribute(HtmlInAttributeContext.Literal(key, value));
    if value.Some? {
      var v := value.value;
      assert r == [r[0]] + [Intermediate.Literal("=\"", v.token)] + LowerAttributeValues(v.parts) + [Intermediate.Literal("\"", v.token)];
      assert r[2..|r| - 1] == LowerAttributeValues(v.parts);
    }
  }

  // ---------------------------------------------------------------------
  // Attribute values lower like the same nodes among element children
  // ---------------------------------------------------------------------

  /** An attribute-value node seen as the same node in element context. */
  function AsElementContext(v: HtmlInAttributeValueContext): (n: HtmlInElementContext)
    decreases v
    ensures !n.Element?
  {
    match v
    case Literal(lit) => HtmlInElementContext.Literal(lit)
    case ComputedValue(value) => HtmlInElementContext.ComputedValue(value)
    case Computation(computation) => HtmlInElementContext.Computation(computation)
    case If(h) =>
      HtmlInElementContext.If(HtmlIf(h.ifToken, h.cond, h.thenBranch.With(AsElementContexts(h.thenBranch.body)),
        match h.elseBranch
        case None => None
        case Some(e) => Some(e.With(AsElementContexts(e.body)))))
    case For(f) =>
      HtmlInElementContext.For(HtmlForLoop(f.forToken, f.pat, f.inToken, f.expr, f.body.With(AsElementContexts(f.body.body))))
    case While(w) =>
      HtmlInElementContext.While(HtmlWhile(w.whileToken, w.cond, w.body.With(AsElementContexts(w.body.body))))
  }

  function AsElementContexts(vs: seq<HtmlInAttributeValueContext>): (ns: seq<HtmlInElementContext>)
    decreases vs
    ensures |ns| == |vs|
  {
    if vs == [] then [] else [AsElementContext(vs[0])] + AsElementContexts(vs[1..])
  }

  lemma {:induction false} AttributeValueLowersAsElement(v: HtmlInAttributeValueContext)
    decreases v
    ensures LowerAttributeValue(v) == LowerElementContext(AsElementContext(v))
  {
    match v
    case If(h) =>
      AttributeValuesLowerAsElements(h.thenBranch.body);
      match h.elseBranch {
        case None =>
        case Some(e) => AttributeValuesLowerAsElements(e.body);
      }
    case For(f) => AttributeValuesLowerAsElements(f.body.body);
    case While(w) => AttributeValuesLowerAsElements(w.body.body);
    case _ =>
  }

  /**
   * The attribute-value conversion and the element-context conversion agree
   * on every node kind they share, at every depth.
   */
  lemma {:induction false} AttributeValuesLowerAsElements(vs: seq<HtmlInAttributeValueContext>)
    decreases vs
    ensures LowerAttributeValues(vs) == LowerElementContexts(AsElementContexts(vs))
  {
    if vs != [] {
      AttributeValueLowersAsElement(vs[0]);
      AttributeValuesLowerAsElements(vs[1..]);
      assert AsElementContexts(vs)[0] == AsElementContext(vs[0]);
      assert AsElementContexts(vs)[1..] == AsElementContexts(vs[1..]);
    }
  }
}
