/**
 * The template syntax trees that the lowering consumes (the `crate::parse`
 * types imported by intermediate.rs), reconstructed from how the lowering
 * destructures them.
 *
 * Tokens are represented by their source span. Host-language payloads
 * (expressions, patterns, token streams) are opaque: the compiler only
 * carries them from the syntax tree into the intermediate representation.
 */
module Syntax {
  import opened Wrappers

  /** A source location (`proc_macro2::Span`), never inspected. */
  type Span

  /** A host-language expression (`syn::Expr`). */
  type Expr

  /** A host-language pattern (`syn::Pat`). */
  type Pat

  /** Host-language tokens (`proc_macro2::TokenStream`). */
  type TokenStream

  /** A braced block of host code, `(Brace, TokenStream)`: a computation. */
  datatype BracedTokens = BracedTokens(brace: Span, tokens: TokenStream)

  /** A parenthesised host expression, `(Paren, TokenStream)`: a computed value. */
  datatype ParenTokens = ParenTokens(paren: Span, tokens: TokenStream)

  /** A string literal token (`syn::LitStr`): its unescaped value and its span. */
  datatype LitStr = LitStr(value: string, span: Span)

  /** An identifier (tag names, attribute key segments). */
  datatype Ident = Ident(name: string, span: Span)

  /** The punctuation between two segments of an attribute key. */
  datatype DashOrColon = Dash(span: Span) | Colon(span: Span)

  /** One pair of a punctuated key: a segment and the punctuation after it, if any. */
  datatype KeyPair = KeyPair(ident: Ident, punct: Option<DashOrColon>)

  /**
   * An attribute key such as `aria-current` or `xlink:href`, as a punctuated
   * list of segments. The lowering takes the span of the first segment, so a
   * key always has one.
   */
  datatype AttributeKey = AttributeKey(first: KeyPair, rest: seq<KeyPair>) {
    function Pairs(): (ps: seq<KeyPair>)
      ensures |ps| == 1 + |rest| && ps[0] == first
    {
      [first] + rest
    }
  }

  /** A brace-delimited body `{ ... }` of a control node. */
  datatype Braced<N> = Braced(brace: Span, body: seq<N>) {
    /** The same braces around another body. */
    function With<M>(newBody: seq<M>): Braced<M> {
      Braced(brace, newBody)
    }
  }

  /** The `else { ... }` part of a conditional. */
  datatype ElseBranch<N> = ElseBranch(elseToken: Span, brace: Span, body: seq<N>) {
    function With<M>(newBody: seq<M>): ElseBranch<M> {
      ElseBranch(elseToken, brace, newBody)
    }
  }

  /** `if cond { ... } else { ... }`, generic in the kind of node in its bodies. */
  datatype HtmlIf<N> = HtmlIf(ifToken: Span, cond: Expr, thenBranch: Braced<N>, elseBranch: Option<ElseBranch<N>>)

  /** `for pat in expr { ... }`. */
  datatype HtmlForLoop<N> = HtmlForLoop(forToken: Span, pat: Pat, inToken: Span, expr: Expr, body: Braced<N>)

  /** `while cond { ... }`. */
  datatype HtmlWhile<N> = HtmlWhile(whileToken: Span, cond: Expr, body: Braced<N>)

  /** A node inside an attribute value: everything but an element. */
  datatype HtmlInAttributeValueContext =
    | Literal(lit: LitStr)
    | ComputedValue(value: ParenTokens)
    | Computation(computation: BracedTokens)
    | If(htmlIf: HtmlIf<HtmlInAttributeValueContext>)
    | For(htmlFor: HtmlForLoop<HtmlInAttributeValueContext>)
    | While(htmlWhile: HtmlWhile<HtmlInAttributeValueContext>)

  /** The value part of an attribute: the token before it and its parts. */
  datatype AttributeValue = AttributeValue(token: Span, parts: seq<HtmlInAttributeValueContext>)

  /** A node in the attribute list of an opening tag. */
  datatype HtmlInAttributeContext =
    | Literal(key: AttributeKey, value: Option<AttributeValue>)
    | Computation(computation: BracedTokens)
    | If(htmlIf: HtmlIf<HtmlInAttributeContext>)
    | For(htmlFor: HtmlForLoop<HtmlInAttributeContext>)
    | While(htmlWhile: HtmlWhile<HtmlInAttributeContext>)

  /** A node among the children of an element or at the top of a template. */
  datatype HtmlInElementContext =
    | Literal(lit: LitStr)
    | ComputedValue(value: ParenTokens)
    | Computation(computation: BracedTokens)
    | If(htmlIf: HtmlIf<HtmlInElementContext>)
    | For(htmlFor: HtmlForLoop<HtmlInElementContext>)
    | While(htmlWhile: HtmlWhile<HtmlInElementContext>)
    | Element(element: HtmlElement)

  /**
   * `<name attributes>` followed, unless the element has no children part,
   * by its children and `</closeName>`.
   */
  datatype HtmlElement = HtmlElement(
    openStart: Span,
    openTagName: Ident,
    attributes: seq<HtmlInAttributeContext>,
    openEnd: Span,
    children: Option<ElementChildren>)

  /** The children of an element and the tokens of its closing tag `<`, `/`, name, `>`. */
  datatype ElementChildren = ElementChildren(
    nodes: seq<HtmlInElementContext>,
    closeStart: Span,
    closeSlash: Span,
    closeTagName: Ident,
    closeEnd: Span)

  /** The text of a punctuation mark between key segments (none after the last). */
  function PunctText(p: Option<DashOrColon>): string {
    match p
    case Some(Colon(_)) => ":"
    case Some(Dash(_)) => "-"
    case None => ""
  }

  /** The segments of a key, each followed by its punctuation, joined without separator. */
  function PairsText(ps: seq<KeyPair>): string {
    if ps == [] then "" else ps[0].ident.name + PunctText(ps[0].punct) + PairsText(ps[1..])
  }

  function KeyText(key: AttributeKey): string {
    PairsText(key.Pairs())
  }
}
