# html: a verified model of the tagged-template renderer

The repository's logic is a single function, the default export of
`src/index.ts`. It is the `html` tagged-template renderer. A template has
N + 1 literal fragments and N substitutions. The renderer walks the slots
from left to right and pushes pieces onto a buffer:

- Each slot is **raw** when the fragment before it ends in `$`. Exactly one
  `$` is dropped from that fragment, and the slot's items are pushed as they
  are.
- Otherwise the slot is **escaped**. The fragment is pushed unchanged, and
  every item is pushed after `he.encode`.
- A scalar substitution counts as a list of one. List items are pushed in
  order with no separator.
- After the last slot the last fragment is pushed verbatim, and the buffer
  is joined with the empty separator.

The model has three modules:

- `Entities` (`entities.dfy`) is a concrete stand-in for `he.encode`. Each
  of `" & ' < > `` `, the characters `he` treats as unsafe, becomes an
  upper-case hexadecimal numeric reference (`<` becomes `&#x3C;`), and every
  other character is kept (`he` replaces more; see "Left out"). It also has a
  `Decode` that undoes it. The module proves:
  - encoding distributes over concatenation;
  - encoding is injective;
  - the encoder never recognises its own output, so encoding twice differs
    from encoding once unless the text had nothing to replace.
- `Template` (`template.dfy`) has the specification and the renderer:
  - `Render` is the pure specification. It works slot by slot and is
    recursive.
  - `Html` is the renderer as written. It has the buffer, the index loop,
    the per-slot `encode` flag and the item loop (`PushItems`).
  - `Html` is proved equal to `Render`, and the properties of the renderer
    are proved about `Render`.
- `Scenarios` (`scenarios.dfy`) states the repository's documented examples
  on concrete templates and proves their outputs.

A call `html` with fragments `f0 … fN` and values `v1 … vN` is written
`Render([f0, …, fN], [v1, …, vN])`. A scalar value is `Scalar(v)` and an
array is `Many([…])`.

Two places where the code and its tests part ways; the model follows the
code:

- The test at `src/index.test.ts:91-98` expects characters that are invalid
  in XML, such as a backspace, to be removed. `src/index.ts` has no
  sanitiser, and neither does the model. `Scenarios.InvalidCharacterKept`
  shows a backspace coming out unchanged from a literal fragment and from a
  raw slot.
- The code hands substitutions to `he.encode` and `join` without converting
  them to strings first, so the `null` test at `src/index.test.ts:35-37`
  depends on library behaviour. The model's substitutions are strings.

## Model

| member | source | states |
|---|---|---|
| Template.Html | src/index.ts:3-28 | For any template with one more fragment than substitutions, the joined buffer equals the specification `Render`: each slot's fragment and items, then the last fragment. |
| Template.PushItems | src/index.ts:20-23 | The inner loop only appends, one piece per item. The joined buffer grows by the slot's items in order, each encoded exactly when the flag is set. |
| Template.ItemPushed | src/index.ts:21-22 | Pushing the next item, encoded according to the slot's mode, extends the slot's output by exactly that item. |
| Template.SlotPushed | src/index.ts:9-24 | Once slot `index` has been pushed, the rest of the output is the rendering from slot `index + 1` on. |
| Template.Items | src/index.ts:18-19 | A scalar substitution becomes the list holding just that value; a list is taken as it is. |
| Template.EndsWithDollar | src/index.ts:12 | A fragment opens a raw slot when it is non-empty and its last character is `$`. |
| Template.ModeOf | src/index.ts:11-14 | The slot's mode is raw exactly when its fragment ends in `$`, escaped otherwise; it depends on the fragment alone. |
| Template.EmitItem | src/index.ts:21 | An item is encoded in escaped mode and kept as it is in raw mode. |
| Template.EmitItems | src/index.ts:20-23 | A slot's items, each emitted in the slot's mode, concatenated in order. |
| Template.Slot | src/index.ts:10-23 | One slot's contribution: the emitted fragment followed by its emitted items. |
| Template.Join | src/index.ts:27 | The buffer joined with the empty separator: its pieces concatenated in order. |
| Template.Render | src/index.ts:9-25 | With no substitutions the output is exactly the single fragment, unchanged. |
| Template.RenderEndsWithLastFragment | src/index.ts:25 | The output always ends with the last fragment, verbatim and unencoded. |
| Template.EmittedFragment | src/index.ts:12-16 | In raw mode the emitted fragment followed by one `$` is the original fragment. In escaped mode the fragment is emitted unchanged. |
| Template.RawSlot | src/index.ts:12-22 | A fragment `p + "$"` contributes `p` followed by the slot's items concatenated, with no encoding. |
| Template.EscapedSlot | src/index.ts:15-22 | A fragment not ending in `$` contributes itself followed by the encoding of the slot's items concatenated. |
| Template.RawItemsVerbatim | src/index.ts:20-22 | In raw mode the items are emitted as their plain concatenation, with no separator. |
| Template.EscapedItemsEncoded | src/index.ts:20-22 | In escaped mode, encoding item by item equals encoding the concatenation of the items. |
| Template.EmitItemsAppend | src/index.ts:20-23 | Items are emitted in order: the output for `a + b` is the output for `a` followed by the output for `b`. |
| Template.EmitItemsPush | src/index.ts:20-23 | One more item appends exactly its own emitted form. |
| Template.RenderStep | src/index.ts:9-24 | Rendering from slot i on is slot i's contribution followed by rendering from slot i + 1 on. |
| Template.JoinAppend | src/index.ts:27 | Joining the buffer distributes over concatenation of the buffer. |
| Template.JoinPush | src/index.ts:22 | Pushing a piece appends it to the joined text. |
| Template.RenderSplit | src/index.ts:9-27 | At any slot boundary, the output is the rendering of the earlier slots followed by the rendering of the later ones. Nothing is reordered or dropped. |
| Template.SlotInContext | src/index.ts:9-27 | Slot k's contribution sits exactly between the output of the slots before it and the output of the rest. |
| Template.ReplaceSubstitution | src/index.ts:11-12 | Changing substitution k changes only slot k's contribution. No value, including one containing `$`, changes the mode of any slot, since the mode depends on the literal fragment alone and is reset each iteration. |
| Template.ScalarIsSingleton | src/index.ts:18-19 | A scalar substitution renders exactly like a one-element list. |
| Template.EscapedSlotsAddNoDelimiters | src/index.ts:15-21 | When no slot is raw, the tag and attribute delimiters in the output are exactly those of the literal fragments, in order. Substitutions inject none. |
| Template.DoubleRender | src/index.ts:12-21 | There is no double-escape prevention. Rendered text placed in a raw slot passes through once, after any fragment; placed in an escaped slot it is encoded a second time. |
| Entities.Encode | src/index.ts:21 | The encoded text holds no delimiter, is never shorter than its input, and keeps text without unsafe characters unchanged. Its length is unchanged exactly when there was nothing to replace. |
| Entities.Reference | src/index.ts:21 | Each unsafe character's reference is six characters, starting with `&` and ending with `;`, and contains no delimiter. |
| Entities.Dereference | src/index.ts:21 | It recognises exactly the six references and returns the character each stands for. |
| Entities.Delimiters | src/index.ts:21 | The list of delimiters of a text is empty exactly when the text has none. |
| Entities.DelimitersAppend | src/index.ts:21 | The delimiters of a concatenation are the delimiters of each part, in order. |
| Entities.EncodeAppend | src/index.ts:21 | Encoding distributes over concatenation. |
| Entities.DecodeEncode | src/index.ts:21 | Decoding undoes encoding. |
| Entities.EncodeInjective | src/index.ts:21 | Two texts with the same encoding are equal. |
| Entities.DoubleEncode | src/index.ts:21 | Encoding an encoded text changes it again unless the original had nothing to replace. Decoding that second encoding gives back the first. |
| Scenarios.EscapedScalar | src/index.ts:12-21 | One escaped scalar slot renders as the fragment, the encoded value, and the closing fragment. |
| Scenarios.RawScalar | src/index.ts:12-22 | One raw scalar slot renders as the fragment without its `$`, the value verbatim, and the closing fragment. |
| Scenarios.EscapedList | src/index.ts:15-23 | One escaped list slot renders as the fragment, the encoded concatenation of the items, and the closing fragment. |
| Scenarios.RawList | src/index.ts:12-22 | One raw list slot renders as the fragment without its `$`, the items concatenated verbatim, and the closing fragment. |
| Scenarios.TwoEscapedScalars | src/index.ts:9-25 | Two escaped scalar slots render as each fragment followed by its encoded value, then the last fragment. |
| Scenarios.ScriptEncoding | src/index.test.ts:16-33 | `<script>alert(1);</script>` encodes to the references the tests show, and encoding that again turns each leading `&` into `&#x26;`. |
| Scenarios.NoInterpolation | src/index.test.ts:4-8 | A template without substitutions renders as its text. |
| Scenarios.SimpleInterpolation | src/index.test.ts:10-14 | An ordinary name in an escaped slot appears unchanged. |
| Scenarios.UnsafeInterpolation | src/index.test.ts:16-20 | A script element in an escaped slot appears encoded. |
| Scenarios.DoubleEncoding | src/index.test.ts:22-27 | A rendered script placed in an escaped slot comes out encoded twice. |
| Scenarios.RawAfterEncoding | src/index.test.ts:28-32 | A rendered script placed in a raw slot comes out encoded once. |
| Scenarios.SafeInterpolation | src/index.test.ts:39-43 | Markup in a raw slot appears verbatim and the `$` is dropped. |
| Scenarios.DollarFromSubstitution | src/index.test.ts:45-51 | A `$` given as a value does not make the next slot raw: the script after it is still encoded. |
| Scenarios.EscapedDollarFromSubstitution | src/index.test.ts:45-51 | Placing that rendering in an escaped slot gives `$` followed by the twice-encoded script. |
| Scenarios.ArrayInterpolation | src/index.test.ts:53-57 | List items are concatenated with no separator. |
| Scenarios.ArrayUnsafeInterpolation | src/index.test.ts:59-73 | In an escaped list slot, each item is encoded in place and the items keep their order. |
| Scenarios.ArraySafeInterpolation | src/index.test.ts:75-89 | In a raw list slot, markup items are concatenated verbatim. |
| Scenarios.InvalidCharacterKept | src/index.test.ts:91-98 | With no sanitiser, a backspace in a literal fragment and a backspace in a raw slot both come out unchanged. |

## Left out

- The internals of `he.encode` (`src/index.ts:1`) are not part of this
  model: its options and its named references are left out.
- Entities.Encode: the stand-in replaces only the six characters `he` treats
  as unsafe. It keeps control characters (a backspace, for instance, which
  `he` turns into `&#x8;`) and non-ASCII characters, which `he` also
  replaces by references. So `Ordinary(s) ==> Encode(s) == s` and the
  length facts in its contract are facts about the stand-in; they hold for
  `he` only on printable ASCII text.
- Character sanitisation is left out because `src/index.ts` does not do it.
  The expectation of `src/index.test.ts:91-98` is therefore not modelled.
  `Scenarios.InvalidCharacterKept` states what the code does with a
  backspace in a fragment and in a raw slot; the escaped slots of that test
  go through `he.encode`'s treatment of control characters, which the
  stand-in does not model.
- Values that are not strings are left out: `any`-typed substitutions,
  their conversion by `he.encode` and `Array.prototype.join`, and `join`
  turning `null` or `undefined` into the empty text. The test at
  `src/index.test.ts:35-37` depends on that library behaviour. Substitutions
  are strings or lists of strings.
- `TemplateStringsArray` (cooked versus raw strings) and the JavaScript
  tagged-template calling convention are left out. Fragments are a plain
  sequence of strings, and the renderer requires exactly one more fragment
  than substitutions, as the calling convention guarantees.
- Template.Html: an empty fragment list is excluded by its precondition.
  JavaScript would push `template[-1]`, which is `undefined`, and join it as
  the empty text; tagged templates never produce that input.
- The test harness and its inline snapshots are used only as the source of
  the concrete scenarios.
