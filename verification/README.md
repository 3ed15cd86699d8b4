# Template lowering and literal merging

A Dafny model of the middle of the `html!` template compiler in
`async-zero-cost-templating-proc-macro2/src/intermediate.rs`. It covers two parts.

- **Lowering.** Three conversions turn template syntax trees into a flat list of
  `Intermediate` instructions: a node among an element's children, an attribute of an
  opening tag, and a node inside an attribute value.
  - An element becomes the literals `<` and its name, then its attributes' instructions,
    then `>`. When it has a children part, the children's instructions and the four
    literals `<`, `/`, the closing tag's own name and `>` follow.
  - An attribute becomes a space followed by its key. Each key segment is followed by `:`,
    `-` or, after the last segment, nothing. When the attribute has a value, `="`, the
    value's instructions and `"` follow.
  - Every other node becomes one instruction of the same kind, with its bodies lowered in
    order.
- **Simplification (`simplify`).** A single fold over an instruction list that merges
  every run of neighbouring literals into one literal. It also simplifies the bodies of
  `If` (both branches), `For` and `While`. A merged literal's text is the concatenation
  of the run's texts. Its span is the first span joined with each following one, and a
  failed join keeps the left span.

## Files

- `wrappers.dfy` defines `Option`.
- `syntax.dfy` defines the syntax trees the lowering consumes.
  - Tokens are spans, and host-language payloads are opaque types.
  - The key text of an attribute is defined here.
- `emission.dfy` defines `Emission`, one step of what generated code does: emit one
  character, emit a computed value, run a computation, or branch or loop over further
  emissions.
- `ir.dfy` defines `Intermediate`, together with the following.
  - Its meaning is `Emissions`: literal text character by character, and every other
    instruction with its payloads. Literal chunking and literal spans are forgotten.
  - `Text` is the top-level literal text, and `NonLiterals` the top-level non-literals.
  - `WellMerged` says no two neighbouring literals appear, at any depth.
- `lowering.dfy` holds the three conversions as functions, plus layout lemmas.
- `markup.dfy` holds a reference meaning for each syntax context (`Render...`), written
  directly on the syntax trees, and proves that lowering emits exactly that.
- `simplify.dfy` holds `simplify` twice.
  - As the source runs it: the method `Simplify`, a loop that pushes onto an accumulator
    while holding a pending literal. Beside it is `SimplifyNested`, which updates the
    bodies of one instruction.
  - As the function `Simplified`, which that method is proved to compute.
- `simplify_properties.dfy` proves the properties of `Simplified`.
- `examples.dfy` takes the two templates whose rendered output the repository's tests
  check through lowering and simplification.

## Model

| member | source | states |
|---|---|---|
| Lowering.LowerAttributeValue | async-zero-cost-templating-proc-macro2/src/intermediate.rs:120-196 | every node of an attribute value becomes exactly one instruction of the same kind; an `If` keeps an else branch exactly when the source node has one |
| Lowering.LowerAttributeValues | async-zero-cost-templating-proc-macro2/src/intermediate.rs:44 | a list of value nodes lowers node for node: as many instructions as nodes, the i-th being the lowering of the i-th node |
| Lowering.LowerAttribute | async-zero-cost-templating-proc-macro2/src/intermediate.rs:21-118 | a key/value attribute gives one instruction without a value and `parts + 3` with one; its first is the literal of one space plus the key text (each segment followed by `:`, `-` or nothing) at the span of the key's first segment; control nodes give one instruction of the same kind, an `If` keeping its else branch exactly when present |
| Lowering.LowerAttributes | async-zero-cost-templating-proc-macro2/src/intermediate.rs:284 | every attribute contributes at least one instruction |
| Lowering.LowerElementContext | async-zero-cost-templating-proc-macro2/src/intermediate.rs:198-309 | non-elements become one instruction of the same kind, an `If` keeping its else branch exactly when present; an element starts with the literal `<` at its opening span and ends with a `>` literal |
| Lowering.LowerElementContexts | async-zero-cost-templating-proc-macro2/src/intermediate.rs:292 | every child contributes at least one instruction |
| Lowering.ElementLayout | async-zero-cost-templating-proc-macro2/src/intermediate.rs:272-306 | an element lowers to `<`, its name, exactly its attributes' instructions, `>`; then nothing when it has no children part, otherwise exactly its children's instructions and `<`, `/`, the closing name, `>` |
| Lowering.AttributeLayout | async-zero-cost-templating-proc-macro2/src/intermediate.rs:24-50 | a key/value attribute's first literal is a space and the key at the first segment's span; with a value it is followed by `="`, exactly the value's instructions and `"`, both at the value token's span; without one, by nothing |
| Lowering.AttributeValuesLowerAsElements | async-zero-cost-templating-proc-macro2/src/intermediate.rs:123-193 | the attribute-value conversion gives the same instructions as the element-context conversion (lines 201-271) on the same nodes, at every depth |
| Markup.LowerAttributeValuesEmit | async-zero-cost-templating-proc-macro2/src/intermediate.rs:120-196 | the instructions of an attribute value emit exactly the value's text and host-code parts, in source order |
| Markup.LowerAttributesEmit | async-zero-cost-templating-proc-macro2/src/intermediate.rs:21-118 | the instructions of an attribute list emit exactly ` key="value"` (or ` key`) for each attribute, with control parts in place |
| Markup.ClosingTagEmits | async-zero-cost-templating-proc-macro2/src/intermediate.rs:293-301 | the closing-tag literals emit `</name>` with the closing tag's own name |
| Markup.LowerElementContextsEmit | async-zero-cost-templating-proc-macro2/src/intermediate.rs:198-309 | lowering is faithful: the instructions of a template emit exactly the markup and host-code parts it denotes, in order, at every depth |
| Simplifier.Flush | async-zero-cost-templating-proc-macro2/src/intermediate.rs:413-415 | flushing pushes nothing without a pending literal and exactly one literal with one |
| Simplifier.Fold | async-zero-cost-templating-proc-macro2/src/intermediate.rs:312-412 | the fold never pushes more instructions than it holds and is given, and pushes nothing only when it holds nothing and is given nothing |
| Simplifier.Simplified | async-zero-cost-templating-proc-macro2/src/intermediate.rs:311-417 | the output is never longer than the input, and is empty exactly when the input is |
| Simplifier.SimplifiedNested | async-zero-cost-templating-proc-macro2/src/intermediate.rs:322-396 | simplifying one instruction's bodies keeps the instruction's kind |
| Simplifier.Simplify | async-zero-cost-templating-proc-macro2/src/intermediate.rs:311-417 | the accumulator loop, with its pending literal and final flush, returns exactly `Simplified(input)` |
| Simplifier.SimplifyNested | async-zero-cost-templating-proc-macro2/src/intermediate.rs:369-396 | the in-place updates of the `For` body, the `While` body and both `If` branches give exactly `SimplifiedNested(x)` |
| SimplifierProperties.SimplifiedWellMerged | async-zero-cost-templating-proc-macro2/src/intermediate.rs:311-417 | after simplification no two neighbouring instructions are literals, in the list and in every body at any depth |
| SimplifierProperties.SimplifiedNestedWellMerged | async-zero-cost-templating-proc-macro2/src/intermediate.rs:340-352 | the `For`/`While` bodies and both `If` branches, else included, are themselves well merged after simplification |
| SimplifierProperties.SimplifiedEmissions | async-zero-cost-templating-proc-macro2/src/intermediate.rs:311-417 | simplification leaves the emitted characters and every non-literal instruction unchanged, in order, at every depth |
| SimplifierProperties.SimplifiedText | async-zero-cost-templating-proc-macro2/src/intermediate.rs:317-321 | the top-level literal text, concatenated in order, is unchanged |
| SimplifierProperties.SimplifiedNonLiterals | async-zero-cost-templating-proc-macro2/src/intermediate.rs:322-410 | every top-level non-literal appears exactly once in the output, in the same order, with only its bodies simplified |
| SimplifierProperties.SimplifiedRun | async-zero-cost-templating-proc-macro2/src/intermediate.rs:317-321 | a non-empty run of literals becomes one literal: the concatenation of their texts, at the first span left-joined with each next span, a failed join keeping the left span |
| SimplifierProperties.SimplifiedSplit | async-zero-cost-templating-proc-macro2/src/intermediate.rs:322-410 | no merge crosses a non-literal: simplifying `a + [n] + b` is simplifying `a`, `n`'s bodies and `b` separately |
| SimplifierProperties.SimplifiedIdentity | async-zero-cost-templating-proc-macro2/src/intermediate.rs:311-417 | a list already well merged at every depth is returned unchanged, spans included |
| SimplifierProperties.SimplifiedIdempotent | async-zero-cost-templating-proc-macro2/src/intermediate.rs:311-417 | simplifying twice gives the same as simplifying once |
| Examples.AttributeWithDash | async-zero-cost-templating/tests/attribute_with_dash.rs:10-15 | `<a aria-current="true"></a>` lowers and simplifies to one literal with exactly that text, for any spans and any join |
| Examples.IfLiteralThenValue | async-zero-cost-templating/tests/if.rs:14-23 | `if condition { "true" (variable) }` stays one `If` without an else branch, whose body emits `t`, `r`, `u`, `e` and then the variable |

## Left out

- The parser (`parse.rs`) is not part of this model. The syntax trees in `syntax.dfy` are
  reconstructed from how the lowering takes them apart. The value part of an attribute is
  `AttributeValue(token, parts)`, whose token span both quote literals use.
- Code generation (`codegen.rs`), the proc-macro entry point and the runtime stream
  bridges (`future_to_stream.rs`, `TemplateToStream`) are not part of this model. They are
  poll and executor plumbing, or stubs.
- `Span` is opaque. `Span::join` is a parameter `join` returning `Option`, because the real
  join depends on compiler internals. Nothing else about spans is modelled.
- Host-language payloads (expressions, patterns, token streams, brace and paren tokens)
  are opaque values carried through unchanged.
- `Syntax.AttributeKey`: the key is non-empty by construction, a first pair plus the rest.
  So the `key.first().unwrap()` panic on an empty key cannot be expressed.
- Void elements and tag-name mismatches are not checked by the lowering code. An element
  without children is simply one whose children part is absent.
- `Simplifier.Simplify`: the source moves `Vec`s and pushes onto them in place. The model
  uses sequence values for the accumulator and for the updated bodies, so ownership and
  reuse of the buffers are not captured.
- The rendered-output tests run through code generation and the runtime. The two lemmas
  in `examples.dfy` state only what lowering and simplification contribute to them.
