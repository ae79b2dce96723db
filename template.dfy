/** The `html` tagged-template renderer.

    A template is N + 1 literal fragments with N substitution slots between
    them. Slot i is raw when fragment i ends with `$`: that one `$` is dropped
    and the slot's items are emitted as they are. Otherwise the fragment is
    emitted unchanged and every item is entity-encoded. A scalar substitution
    is a one-item list, list items are emitted in order with no separator, and
    the last fragment is always emitted verbatim.

    `Render` is the specification, slot by slot from the left; `Html` is the
    renderer as it runs, pushing pieces onto a buffer that is joined at the end.
 */
module Template {
  import opened Entities

  /** What a slot receives: one value, or a list of values. */
  datatype Substitution = Scalar(value: string) | Many(items: seq<string>)

  /** How a slot's items are emitted. */
  datatype Mode = Escaped | Raw

  /** A scalar is treated as a list of one. */
  function Items(s: Substitution): seq<string> {
    match s
    case Scalar(v) => [v]
    case Many(vs) => vs
  }

  predicate EndsWithDollar(fragment: string) {
    |fragment| > 0 && fragment[|fragment| - 1] == '$'
  }

  /** The mode of the slot after `fragment` depends on the literal text only. */
  function ModeOf(fragment: string): Mode {
    if EndsWithDollar(fragment) then Raw else Escaped
  }

  /** The fragment as emitted before its slot: exactly one trailing `$` is
      removed in raw mode, nothing in escaped mode. */
  function EmittedFragment(fragment: string): (e: string)
    ensures ModeOf(fragment) == Raw ==> e + "$" == fragment
    ensures ModeOf(fragment) == Escaped ==> e == fragment
  {
    if EndsWithDollar(fragment) then fragment[..|fragment| - 1] else fragment
  }

  function EmitItem(m: Mode, item: string): string {
    if m == Escaped then Encode(item) else item
  }

  /** Concatenation with the empty separator, the buffer's final join. */
  function Join(parts: seq<string>): string {
    if parts == [] then "" else parts[0] + Join(parts[1..])
  }

  /** The items of one slot, each emitted in the slot's mode, in order. */
  function EmitItems(m: Mode, items: seq<string>): string {
    if items == [] then "" else EmitItem(m, items[0]) + EmitItems(m, items[1..])
  }

  /** Everything one slot contributes: its fragment, then its items. */
  function Slot(fragment: string, s: Substitution): string {
    EmittedFragment(fragment) + EmitItems(ModeOf(fragment), Items(s))
  }

  predicate EndsWith(s: string, suffix: string) {
    |suffix| <= |s| && s[|s| - |suffix|..] == suffix
  }

  /** The rendered template: each slot in order, then the last fragment; with
      no slot, the single fragment unchanged. */
  function Render(fragments: seq<string>, substitutions: seq<Substitution>): (r: string)
    requires |fragments| == |substitutions| + 1
    ensures |substitutions| == 0 ==> r == fragments[0]
    decreases |substitutions|
  {
    if substitutions == [] then fragments[0]
    else Slot(fragments[0], substitutions[0]) + Render(fragments[1..], substitutions[1..])
  }

  /** The last fragment always ends the output, verbatim. */
  lemma {:induction false} RenderEndsWithLastFragment(fragments: seq<string>, substitutions: seq<Substitution>)
    requires |fragments| == |substitutions| + 1
    ensures EndsWith(Render(fragments, substitutions), fragments[|fragments| - 1])
    decreases |substitutions|
  {
    if substitutions != [] {
      var head := Slot(fragments[0], substitutions[0]);
      var tail := Render(fragments[1..], substitutions[1..]);
      var last := fragments[|fragments| - 1];
      RenderEndsWithLastFragment(fragments[1..], substitutions[1..]);
      assert (head + tail)[|head + tail| - |last|..] == tail[|tail| - |last|..];
    }
  }

  /** The renderer as written: a buffer of pieces, an index loop over the
      slots with a per-slot `encode` flag, the inner loop over the slot's
      items (`PushItems`), the last fragment, and one join. */
  method Html(template: seq<string>, substitutions: seq<Substitution>) returns (result: string)
    requires |template| == |substitutions| + 1
    ensures result == Render(template, substitutions)
  {
    var buffer: seq<string> := [];
    var index := 0;
    assert template[0..] == template && substitutions[0..] == substitutions;
    while index < |template| - 1
      invariant 0 <= index <= |substitutions|
      invariant Join(buffer) + Render(template[index..], substitutions[index..])
             == Render(template, substitutions)
    {
      ghost var before := Join(buffer);
      var templatePart := template[index];
      var encode := true;
      if EndsWithDollar(templatePart) {
        JoinPush(buffer, templatePart[..|templatePart| - 1]);
        buffer := buffer + [templatePart[..|templatePart| - 1]];
        encode := false;
      } else {
        JoinPush(buffer, templatePart);
        buffer := buffer + [templatePart];
      }
      var substitution := Items(substitutions[index]);
      ghost var mode := ModeOf(templatePart);
      assert encode <==> mode == Escaped;
      buffer := PushItems(buffer, substitution, encode);
      SlotPushed(template, substitutions, index, before, Join(buffer));
      index := index + 1;
    }
    assert substitutions[index..] == [];
    JoinPush(buffer, template[|template| - 1]);
    buffer := buffer + [template[|template| - 1]];
    result := Join(buffer);
  }

  /** The renderer's inner loop: every item of one slot is pushed, encoded
      or not, in order. */
  method PushItems(buffer: seq<string>, substitution: seq<string>, encode: bool) returns (pushed: seq<string>)
    ensures |pushed| == |buffer| + |substitution| && pushed[..|buffer|] == buffer
    ensures Join(pushed) == Join(buffer) + EmitItems(if encode then Escaped else Raw, substitution)
  {
    ghost var mode := if encode then Escaped else Raw;
    pushed := buffer;
    assert Join(pushed) == Join(buffer) + EmitItems(mode, substitution[..0]);
    for j := 0 to |substitution|
      invariant |pushed| == |buffer| + j && pushed[..|buffer|] == buffer
      invariant Join(pushed) == Join(buffer) + EmitItems(mode, substitution[..j])
    {
      var substitutionPart := substitution[j];
      if encode {
        substitutionPart := Encode(substitutionPart);
      }
      ItemPushed(pushed, Join(buffer), mode, substitution, j, substitutionPart);
      pushed := pushed + [substitutionPart];
    }
    assert substitution[..|substitution|] == substitution;
  }

  /** Associativity of concatenation, stated once so that the proofs that
      regroup long concatenations name the step instead of searching for it. */
  lemma AppendAssociative(a: string, b: string, c: string)
    ensures (a + b) + c == a + (b + c)
  {
  }

  /** One step of the renderer's inner loop: pushing the next emitted item
      extends the slot's output by that item. */
  lemma ItemPushed(buffer: seq<string>, start: string, m: Mode, items: seq<string>, j: nat, part: string)
    requires j < |items|
    requires Join(buffer) == start + EmitItems(m, items[..j])
    requires part == EmitItem(m, items[j])
    ensures Join(buffer + [part]) == start + EmitItems(m, items[..j + 1])
  {
    JoinPush(buffer, part);
    EmitItemsPush(m, items, j);
    AppendAssociative(start, EmitItems(m, items[..j]), part);
  }

  /** One step of the renderer's outer loop: once slot `index` is in the
      buffer, what remains to render starts at the next slot. */
  lemma SlotPushed(fragments: seq<string>, substitutions: seq<Substitution>, index: nat,
                   before: string, joined: string)
    requires |fragments| == |substitutions| + 1
    requires index < |substitutions|
    requires before + Render(fragments[index..], substitutions[index..]) == Render(fragments, substitutions)
    requires joined == before + EmittedFragment(fragments[index])
                    + EmitItems(ModeOf(fragments[index]), Items(substitutions[index]))
    ensures joined + Render(fragments[index + 1..], substitutions[index + 1..]) == Render(fragments, substitutions)
  {
    var f, s := fragments[index], substitutions[index];
    AppendAssociative(before, EmittedFragment(f), EmitItems(ModeOf(f), Items(s)));
    RenderStep(fragments, substitutions, index);
    AppendAssociative(before, Slot(f, s), Render(fragments[index + 1..], substitutions[index + 1..]));
  }

  /** Emitting one more item of a slot appends it, in the slot's mode. */
  lemma EmitItemsPush(m: Mode, items: seq<string>, j: nat)
    requires j < |items|
    ensures EmitItems(m, items[..j + 1]) == EmitItems(m, items[..j]) + EmitItem(m, items[j])
  {
    assert items[..j + 1] == items[..j] + [items[j]];
    EmitItemsAppend(m, items[..j], [items[j]]);
    assert EmitItems(m, [items[j]]) == EmitItem(m, items[j]) + EmitItems(m, []);
  }

  /** Rendering from slot i on is slot i followed by rendering from slot i + 1 on. */
  lemma RenderStep(fragments: seq<string>, substitutions: seq<Substitution>, i: nat)
    requires |fragments| == |substitutions| + 1
    requires i < |substitutions|
    ensures Render(fragments[i..], substitutions[i..])
         == Slot(fragments[i], substitutions[i]) + Render(fragments[i + 1..], substitutions[i + 1..])
  {
    assert fragments[i..][1..] == fragments[i + 1..];
    assert substitutions[i..][1..] == substitutions[i + 1..];
  }

  /** Joining distributes over concatenation of the pieces. */
  lemma {:induction false} JoinAppend(a: seq<string>, b: seq<string>)
    ensures Join(a + b) == Join(a) + Join(b)
    decreases |a|
  {
    if a == [] {
      assert a + b == b;
    } else {
      assert (a + b)[1..] == a[1..] + b;
      JoinAppend(a[1..], b);
    }
  }

  /** Pushing a piece onto the buffer appends it to the joined text. */
  lemma JoinPush(parts: seq<string>, piece: string)
    ensures Join(parts + [piece]) == Join(parts) + piece
  {
    JoinAppend(parts, [piece]);
    assert Join([piece]) == piece + Join([]);
  }

  /** A slot's items are emitted in order with nothing between them. */
  lemma {:induction false} EmitItemsAppend(m: Mode, a: seq<string>, b: seq<string>)
    ensures EmitItems(m, a + b) == EmitItems(m, a) + EmitItems(m, b)
    decreases |a|
  {
    if a == [] {
      assert a + b == b;
    } else {
      assert (a + b)[1..] == a[1..] + b;
      EmitItemsAppend(m, a[1..], b);
    }
  }

  /** In raw mode the items are emitted verbatim. */
  lemma {:induction false} RawItemsVerbatim(items: seq<string>)
    ensures EmitItems(Raw, items) == Join(items)
    decreases |items|
  {
    if items != [] {
      RawItemsVerbatim(items[1..]);
    }
  }

  /** In escaped mode every item is encoded; since encoding works character by
      character, that is the encoding of the items' concatenation. */
  lemma {:induction false} EscapedItemsEncoded(items: seq<string>)
    ensures EmitItems(Escaped, items) == Encode(Join(items))
    decreases |items|
  {
    if items != [] {
      EscapedItemsEncoded(items[1..]);
      EncodeAppend(items[0], Join(items[1..]));
    }
  }

  /** A fragment ending in `$` loses exactly that one `$`, and the slot's items
      follow it unencoded. */
  lemma RawSlot(prefix: string, s: Substitution)
    ensures Slot(prefix + "$", s) == prefix + Join(Items(s))
  {
    var f := prefix + "$";
    assert EndsWithDollar(f) && f[..|f| - 1] == prefix;
    RawItemsVerbatim(Items(s));
  }

  /** A fragment not ending in `$` is emitted unchanged, and the slot's items
      follow it encoded. */
  lemma EscapedSlot(fragment: string, s: Substitution)
    requires !EndsWithDollar(fragment)
    ensures Slot(fragment, s) == fragment + Encode(Join(Items(s)))
  {
    EscapedItemsEncoded(Items(s));
  }

  /** Rendering splits at any slot boundary into the rendering of the slots
      before it, closed by an empty fragment, followed by the rendering of the
      rest: nothing is reordered or dropped. */
  lemma {:induction false} RenderSplit(fragments: seq<string>, substitutions: seq<Substitution>, k: nat)
    requires |fragments| == |substitutions| + 1
    requires k <= |substitutions|
    ensures Render(fragments, substitutions)
         == Render(fragments[..k] + [""], substitutions[..k])
          + Render(fragments[k..], substitutions[k..])
    decreases k
  {
    if k == 0 {
      assert fragments[..0] + [""] == [""];
      assert fragments[0..] == fragments && substitutions[0..] == substitutions;
    } else {
      var fs, ss := fragments[..k] + [""], substitutions[..k];
      assert fs[0] == fragments[0] && ss[0] == substitutions[0];
      assert fs[1..] == fragments[1..][..k - 1] + [""];
      assert ss[1..] == substitutions[1..][..k - 1];
      assert fragments[1..][k - 1..] == fragments[k..];
      assert substitutions[1..][k - 1..] == substitutions[k..];
      AppendAssociative(Slot(fs[0], ss[0]), Render(fs[1..], ss[1..]), Render(fragments[k..], substitutions[k..]));
      RenderSplit(fragments[1..], substitutions[1..], k - 1);
    }
  }

  /** Slot k's contribution sits between everything before it and everything
      after it. */
  lemma SlotInContext(fragments: seq<string>, substitutions: seq<Substitution>, k: nat)
    requires |fragments| == |substitutions| + 1
    requires k < |substitutions|
    ensures Render(fragments, substitutions)
         == Render(fragments[..k] + [""], substitutions[..k])
          + Slot(fragments[k], substitutions[k])
          + Render(fragments[k + 1..], substitutions[k + 1..])
  {
    RenderSplit(fragments, substitutions, k);
    assert fragments[k..][1..] == fragments[k + 1..];
    assert substitutions[k..][1..] == substitutions[k + 1..];
  }

  /** Replacing one substitution changes that slot's contribution and nothing
      else: no value, even one holding `$`, switches the mode of any slot. */
  lemma ReplaceSubstitution(fragments: seq<string>, substitutions: seq<Substitution>, k: nat, t: Substitution)
    requires |fragments| == |substitutions| + 1
    requires k < |substitutions|
    ensures Render(fragments, substitutions[k := t])
         == Render(fragments[..k] + [""], substitutions[..k])
          + Slot(fragments[k], t)
          + Render(fragments[k + 1..], substitutions[k + 1..])
  {
    var ss := substitutions[k := t];
    SlotInContext(fragments, ss, k);
    assert ss[..k] == substitutions[..k];
    assert ss[k + 1..] == substitutions[k + 1..];
  }

  /** A scalar renders exactly like a one-element list. */
  lemma ScalarIsSingleton(fragments: seq<string>, substitutions: seq<Substitution>, k: nat, v: string)
    requires |fragments| == |substitutions| + 1
    requires k < |substitutions|
    ensures Render(fragments, substitutions[k := Scalar(v)])
         == Render(fragments, substitutions[k := Many([v])])
  {
    ReplaceSubstitution(fragments, substitutions, k, Scalar(v));
    ReplaceSubstitution(fragments, substitutions, k, Many([v]));
  }

  /** When no slot is raw, every tag or attribute delimiter in the output comes
      from the literal fragments, in their order: substitutions inject none. */
  lemma {:induction false} EscapedSlotsAddNoDelimiters(fragments: seq<string>, substitutions: seq<Substitution>)
    requires |fragments| == |substitutions| + 1
    requires forall i :: 0 <= i < |substitutions| ==> !EndsWithDollar(fragments[i])
    ensures Delimiters(Render(fragments, substitutions)) == Delimiters(Join(fragments))
    decreases |substitutions|
  {
    var f := fragments[0];
    assert Join(fragments) == f + Join(fragments[1..]);
    if substitutions == [] {
      assert fragments[1..] == [];
      assert f + "" == f;
      assert Join(fragments) == f;
      assert Render(fragments, substitutions) == f;
    } else {
      var encoded := Encode(Join(Items(substitutions[0])));
      var tail := Render(fragments[1..], substitutions[1..]);
      EscapedSlot(f, substitutions[0]);
      AppendAssociative(f, encoded, tail);
      DelimitersAppend(f, encoded + tail);
      DelimitersAppend(encoded, tail);
      EscapedSlotsAddNoDelimiters(fragments[1..], substitutions[1..]);
      DelimitersAppend(f, Join(fragments[1..]));
    }
  }

  /** Rendering an already rendered text again: a raw outer slot passes it
      through once, and an escaped outer slot encodes it a second time. */
  lemma DoubleRender(open: string, close: string, v: string)
    ensures Render([open + "$", close], [Scalar(Render(["", ""], [Scalar(v)]))])
         == open + Encode(v) + close
    ensures !EndsWithDollar(open) ==>
              (Render([open, close], [Scalar(Render(["", ""], [Scalar(v)]))])
               == open + Encode(Encode(v)) + close)
  {
    EscapedSlot("", Scalar(v));
    assert Join([v]) == v by { JoinPush([], v); assert [] + [v] == [v]; }
    var inner := Render(["", ""], [Scalar(v)]);
    assert inner == Encode(v);
    assert Join([inner]) == inner by { JoinPush([], inner); assert [] + [inner] == [inner]; }
    RawSlot(open, Scalar(inner));
    if !EndsWithDollar(open) {
      EscapedSlot(open, Scalar(inner));
    }
  }
}
