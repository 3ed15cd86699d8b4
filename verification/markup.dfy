/**
 * What a template means, written directly on the syntax trees: the markup
 * text it stands for, character by character, with the host-code parts
 * (computed values, computations, conditionals and loops) in their places.
 * The lemmas show that lowering produces instructions with exactly these
 * emissions, and fix the instruction layout of elements and attributes.
 */
module Markup {
  import opened Wrappers
  import opened Syntax
  import opened Emission
  import opened Ir
  import opened Lowering

  // ---------------------------------------------------------------------
  // The reference meaning of each syntax context
  // ---------------------------------------------------------------------

  function RenderAttributeValue(v: HtmlInAttributeValueContext): seq<Emission>
    decreases v
  {
    match v
    case Literal(lit) => Chars(lit.value)
    case ComputedValue(value) => [EmitValue(value)]
    case Computation(computation) => [RunComputation(computation)]
    case If(h) =>
      [Branch(HtmlIf(h.ifToken, h.cond, h.thenBranch.With(RenderAttributeValues(h.thenBranch.body)),
        match h.elseBranch
        case None => None
        case Some(e) => Some(e.With(RenderAttributeValues(e.body)))))]
    case For(f) => [Loop(HtmlForLoop(f.forToken, f.pat, f.inToken, f.expr, f.body.With(RenderAttributeValues(f.body.body))))]
    case While(w) => [Repeat(HtmlWhile(w.whileToken, w.cond, w.body.With(RenderAttributeValues(w.body.body))))]
  }

  function RenderAttributeValues(vs: seq<HtmlInAttributeValueContext>): seq<Emission>
    decreases vs
  {
    if vs == [] then [] else RenderAttributeValue(vs[0]) + RenderAttributeValues(vs[1..])
  }

  /** ` key="value"`, or ` key` alone when the attribute has no value. */
  function RenderAttribute(a: HtmlInAttributeContext): seq<Emission>
    decreases a
  {
    match a
    case Literal(key, value) =>
      Chars(" " + KeyText(key))
      + (match value
         case None => []
         case Some(v) => Chars("=\"") + RenderAttributeValues(v.parts) + Chars("\""))
    case Computation(computation) => [RunComputation(computation)]
    case If(h) =>
      [Branch(HtmlIf(h.ifToken, h.cond, h.thenBranch.With(RenderAttributes(h.thenBranch.body)),
        match h.elseBranch
        case None => None
        case Some(e) => Some(e.With(RenderAttributes(e.body)))))]
    case For(f) => [Loop(HtmlForLoop(f.forToken, f.pat, f.inToken, f.expr, f.body.With(RenderAttributes(f.body.body))))]
    case While(w) => [Repeat(HtmlWhile(w.whileToken, w.cond, w.body.With(RenderAttributes(w.body.body))))]
  }

  function RenderAttributes(attributes: seq<HtmlInAttributeContext>): seq<Emission>
    decreases attributes
  {
    if attributes == [] then [] else RenderAttribute(attributes[0]) + RenderAttributes(attributes[1..])
  }

  /** `<name attributes>`, then, for an element with a children part, the children and `</closeName>`. */
  function RenderElementContext(n: HtmlInElementContext): seq<Emission>
    decreases n
  {
    match n
    case Literal(lit) => Chars(lit.value)
    case ComputedValue(value) => [EmitValue(value)]
    case Computation(computation) => [RunComputation(computation)]
    case If(h) =>
      [Branch(HtmlIf(h.ifToken, h.cond, h.thenBranch.With(RenderElementContexts(h.thenBranch.body)),
        match h.elseBranch
        case None => None
        case Some(e) => Some(e.With(RenderElementContexts(e.body)))))]
    case For(f) => [Loop(HtmlForLoop(f.forToken, f.pat, f.inToken, f.expr, f.body.With(RenderElementContexts(f.body.body))))]
    case While(w) => [Repeat(HtmlWhile(w.whileToken, w.cond, w.body.With(RenderElementContexts(w.body.body))))]
    case Element(e) =>
      Chars("<" + e.openTagName.name) + RenderAttributes(e.attributes) + Chars(">")
      + (match e.children
         case None => []
         case Some(c) => RenderElementContexts(c.nodes) + Chars("</" + c.closeTagName.name + ">"))
  }

  function RenderElementContexts(ns: seq<HtmlInElementContext>): seq<Emission>
    decreases ns
  {
    if ns == [] then [] else RenderElementContext(ns[0]) + RenderElementContexts(ns[1..])
  }

  // ---------------------------------------------------------------------
  // Lowering emits exactly the markup
  // ---------------------------------------------------------------------

  lemma EmissionsLiteral(text: string, span: Span)
    ensures Emissions([Intermediate.Literal(text, span)]) == Chars(text)
  {
    assert [Intermediate.Literal(text, span)][1..] == [];
  }

  lemma {:induction false} LowerAttributeValueEmits(v: HtmlInAttributeValueContext)
    decreases v
    ensures Emissions(LowerAttributeValue(v)) == RenderAttributeValue(v)
  {
    EmissionsOne(LowerAttributeValue(v)[0]);
    match v
    case If(h) =>
      LowerAttributeValuesEmit(h.thenBranch.body);
      match h.elseBranch {
        case None =>
        case Some(e) => LowerAttributeValuesEmit(e.body);
      }
    case For(f) => LowerAttributeValuesEmit(f.body.body);
    case While(w) => LowerAttributeValuesEmit(w.body.body);
    case _ =>
  }

  /** The instructions of an attribute value emit exactly what the value denotes. */
  lemma {:induction false} LowerAttributeValuesEmit(vs: seq<HtmlInAttributeValueContext>)
    decreases vs
    ensures Emissions(LowerAttributeValues(vs)) == RenderAttributeValues(vs)
  {
    if vs != [] {
      LowerAttributeValueEmits(vs[0]);
      LowerAttributeValuesEmit(vs[1..]);
      EmissionsAppend(LowerAttributeValue(vs[0]), LowerAttributeValues(vs[1..]));
    }
  }

  lemma {:induction false} LowerAttributeEmits(a: HtmlInAttributeContext)
    decreases a
    ensures Emissions(LowerAttribute(a)) == RenderAttribute(a)
  {
    match a
    case Literal(key, value) =>
      var head := [Intermediate.Literal(" " + KeyText(key), key.first.ident.span)];
      EmissionsLiteral(" " + KeyText(key), key.first.ident.span);
      match value {
        case None =>
          assert LowerAttribute(a) == head;
        case Some(v) =>
          var open := [Intermediate.Literal("=\"", v.token)];
          var parts := LowerAttributeValues(v.parts);
          var close := [Intermediate.Literal("\"", v.token)];
          assert LowerAttribute(a) == head + (open + parts + close);
          EmissionsLiteral("=\"", v.token);
          EmissionsLiteral("\"", v.token);
          LowerAttributeValuesEmit(v.parts);
          EmissionsAppend(head, open + parts + close);
          EmissionsAppend(open + parts, close);
          EmissionsAppend(open, parts);
      }
    case If(h) =>
      EmissionsOne(LowerAttribute(a)[0]);
      LowerAttributesEmit(h.thenBranch.body);
      match h.elseBranch {
        case None =>
        case Some(e) => LowerAttributesEmit(e.body);
      }
    case For(f) =>
      EmissionsOne(LowerAttribute(a)[0]);
      LowerAttributesEmit(f.body.body);
    case While(w) =>
      EmissionsOne(LowerAttribute(a)[0]);
      LowerAttributesEmit(w.body.body);
    case Computation(_) =>
      EmissionsOne(LowerAttribute(a)[0]);
  }

  /** The instructions of an attribute list emit exactly the attributes' markup. */
  lemma {:induction false} LowerAttributesEmit(attributes: seq<HtmlInAttributeContext>)
    decreases attributes
    ensures Emissions(LowerAttributes(attributes)) == RenderAttributes(attributes)
  {
    if attributes != [] {
      LowerAttributeEmits(attributes[0]);
      LowerAttributesEmit(attributes[1..]);
      EmissionsAppend(LowerAttribute(attributes[0]), LowerAttributes(attributes[1..]));
    }
  }

  lemma ClosingTagEmits(c: ElementChildren)
    ensures Emissions(ClosingTag(c)) == Chars("</" + c.closeTagName.name + ">")
  {
    var name := c.closeTagName.name;
    var lt := [Intermediate.Literal("<", c.closeStart)];
    var slash := [Intermediate.Literal("/", c.closeSlash)];
    var id := [Intermediate.Literal(name, c.closeTagName.span)];
    var gt := [Intermediate.Literal(">", c.closeEnd)];
    assert ClosingTag(c) == lt + slash + id + gt;
    EmissionsLiteral("<", c.closeStart);
    EmissionsLiteral("/", c.closeSlash);
    EmissionsLiteral(name, c.closeTagName.span);
    EmissionsLiteral(">", c.closeEnd);
    EmissionsAppend(lt + slash + id, gt);
    EmissionsAppend(lt + slash, id);
    EmissionsAppend(lt, slash);
    CharsAppend("<", "/");
    CharsAppend("</", name);
    CharsAppend("</" + name, ">");
    assert "</" + name + ">" == ("<" + "/") + name + ">";
  }

  lemma {:induction false} LowerElementContextEmits(n: HtmlInElementContext)
    decreases n
    ensures Emissions(LowerElementContext(n)) == RenderElementContext(n)
  {
    match n
    case Element(e) =>
      var lt := [Intermediate.Literal("<", e.openStart)];
      var name := [Intermediate.Literal(e.openTagName.name, e.openTagName.span)];
      var attrs := LowerAttributes(e.attributes);
      var gt := [Intermediate.Literal(">", e.openEnd)];
      var tail := match e.children
        case None => []
        case Some(c) => LowerElementContexts(c.nodes) + ClosingTag(c);
      assert LowerElementContext(n) == lt + name + attrs + gt + tail;
      EmissionsLiteral("<", e.openStart);
      EmissionsLiteral(e.openTagName.name, e.openTagName.span);
      EmissionsLiteral(">", e.openEnd);
      LowerAttributesEmit(e.attributes);
      EmissionsAppend(lt + name + attrs + gt, tail);
      EmissionsAppend(lt + name + attrs, gt);
      EmissionsAppend(lt + name, attrs);
      EmissionsAppend(lt, name);
      CharsAppend("<", e.openTagName.name);
      match e.children {
        case None =>
        case Some(c) =>
          LowerElementContextsEmit(c.nodes);
          ClosingTagEmits(c);
          EmissionsAppend(LowerElementContexts(c.nodes), ClosingTag(c));
      }
    case If(h) =>
      EmissionsOne(LowerElementContext(n)[0]);
      LowerElementContextsEmit(h.thenBranch.body);
      match h.elseBranch {
        case None =>
        case Some(e) => LowerElementContextsEmit(e.body);
      }
    case For(f) =>
      EmissionsOne(LowerElementContext(n)[0]);
      LowerElementContextsEmit(f.body.body);
    case While(w) =>
      EmissionsOne(LowerElementContext(n)[0]);
      LowerElementContextsEmit(w.body.body);
    case _ =>
      EmissionsOne(LowerElementContext(n)[0]);
  }

  /**
   * Lowering is faithful: the instructions of a template emit exactly the
   * markup text and host-code parts it denotes, in source order.
   */
  lemma {:induction false} LowerElementContextsEmit(ns: seq<HtmlInElementContext>)
    decreases ns
    ensures Emissions(LowerElementContexts(ns)) == RenderElementContexts(ns)
  {
    if ns != [] {
      LowerElementContextEmits(ns[0]);
      LowerElementContextsEmit(ns[1..]);
      EmissionsAppend(LowerElementContext(ns[0]), LowerElementContexts(ns[1..]));
    }
  }
}
