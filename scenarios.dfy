/** The renderer's documented scenarios, each one stated on concrete
    templates. A tagged template `html` with fragments f0, ..., fN and values
    v1, ..., vN is written here as `Render([f0, ..., fN], [v1, ..., vN])`.
    The general lemmas first, then the concrete texts.
 */
module Scenarios {
  import opened Entities
  import opened Template

  const Name := "Leandro Facchinetti"
  /** `<script>alert(1);</script>`, its encoding, and the encoding of that. */
  const Script := "<" + "script" + ">" + "alert(1);" + "<" + "/script" + ">"
  const EncodedScript := "&#x3C;" + "script" + "&#x3E;" + "alert(1);" + "&#x3C;" + "/script" + "&#x3E;"
  const TwiceEncodedScript :=
    ("&#x26;" + "#x3C;script") + ("&#x26;" + "#x3E;alert(1);") + ("&#x26;" + "#x3C;/script") + ("&#x26;" + "#x3E;")

  /** A template with one slot. */
  lemma OneSlot(open: string, close: string, s: Substitution)
    ensures Render([open, close], [s]) == Slot(open, s) + close
  {
    assert [open, close][1..] == [close];
    assert [s][1..] == [];
  }

  lemma JoinSingle(v: string)
    ensures Join([v]) == v
  {
    assert [v][1..] == [];
    assert Join([v]) == v + "";
  }

  /** One list in an escaped slot: its items, concatenated and encoded. */
  lemma EscapedList(open: string, close: string, items: seq<string>)
    requires !EndsWithDollar(open)
    ensures Render([open, close], [Many(items)]) == open + Encode(Join(items)) + close
  {
    OneSlot(open, close, Many(items));
    EscapedSlot(open, Many(items));
  }

  /** One list in a raw slot: its items, concatenated, after the fragment
      without its `$`. */
  lemma RawList(open: string, close: string, items: seq<string>)
    ensures Render([open + "$", close], [Many(items)]) == open + Join(items) + close
  {
    OneSlot(open + "$", close, Many(items));
    RawSlot(open, Many(items));
  }

  lemma EscapedScalar(open: string, close: string, v: string)
    requires !EndsWithDollar(open)
    ensures Render([open, close], [Scalar(v)]) == open + Encode(v) + close
  {
    ScalarIsSingleton([open, close], [Many([])], 0, v);
    assert [Many([])][0 := Scalar(v)] == [Scalar(v)];
    assert [Many([])][0 := Many([v])] == [Many([v])];
    EscapedList(open, close, [v]);
    JoinSingle(v);
  }

  lemma RawScalar(open: string, close: string, v: string)
    ensures Render([open + "$", close], [Scalar(v)]) == open + v + close
  {
    OneSlot(open + "$", close, Scalar(v));
    RawSlot(open, Scalar(v));
    JoinSingle(v);
  }

  lemma EncodeAngles()
    ensures Encode("<") == "&#x3C;" && Encode(">") == "&#x3E;" && Encode("&") == "&#x26;"
  {
    assert "<"[1..] == [] && ">"[1..] == [] && "&"[1..] == [];
  }

  /** An element with ordinary tag names and ordinary content. */
  lemma EncodeElement(name: string, body: string, end: string)
    requires Ordinary(name) && Ordinary(body) && Ordinary(end)
    ensures Encode("<" + name + ">" + body + "<" + end + ">")
         == "&#x3C;" + name + "&#x3E;" + body + "&#x3C;" + end + "&#x3E;"
  {
    EncodeAngles();
    var lt, gt := "<", ">";
    var a := lt + name + gt;
    var b := a + body;
    var c := b + lt + end;
    assert Encode(lt + name) == "&#x3C;" + name by { EncodeAppend(lt, name); }
    assert Encode(a) == "&#x3C;" + name + "&#x3E;" by { EncodeAppend(lt + name, gt); }
    assert Encode(b) == Encode(a) + body by { EncodeAppend(a, body); }
    assert Encode(b + lt) == Encode(b) + "&#x3C;" by { EncodeAppend(b, lt); }
    assert Encode(c) == Encode(b + lt) + end by { EncodeAppend(b + lt, end); }
    assert Encode(c + gt) == Encode(c) + "&#x3E;" by { EncodeAppend(c, gt); }
  }

  /** A reference's text after its ampersand is ordinary, so encoding it
      replaces the ampersand only. */
  lemma EncodeReference(p: string)
    requires Ordinary(p)
    ensures Encode("&" + p) == "&#x26;" + p
  {
    EncodeAngles();
    EncodeAppend("&", p);
  }

  lemma EncodeReferences(p: string, q: string, r: string, s: string)
    requires Ordinary(p) && Ordinary(q) && Ordinary(r) && Ordinary(s)
    ensures Encode(("&" + p) + ("&" + q) + ("&" + r) + ("&" + s))
         == ("&#x26;" + p) + ("&#x26;" + q) + ("&#x26;" + r) + ("&#x26;" + s)
  {
    EncodeReference(p);
    EncodeReference(q);
    EncodeReference(r);
    EncodeReference(s);
    EncodeAppend("&" + p, "&" + q);
    EncodeAppend(("&" + p) + ("&" + q), "&" + r);
    EncodeAppend(("&" + p) + ("&" + q) + ("&" + r), "&" + s);
  }

  /** Facts about literal texts are kept in small lemmas of their own, such as
      this one, so that the scenarios that use them stay cheap to verify. */
  lemma EncodedScriptReferences()
    ensures EncodedScript == ("&" + "#x3C;script") + ("&" + "#x3E;alert(1);") + ("&" + "#x3C;/script") + ("&" + "#x3E;")
  {
    assert "&" + "#x3C;script" == "&#x3C;" + "script";
    assert "&" + "#x3E;alert(1);" == "&#x3E;" + "alert(1);";
    assert "&" + "#x3C;/script" == "&#x3C;" + "/script";
  }

  /** The literal texts of the scenarios that the encoder leaves alone. */
  lemma OrdinaryTexts()
    ensures Ordinary("script") && Ordinary("alert(1);") && Ordinary("/script")
    ensures Ordinary("#x3C;script") && Ordinary("#x3E;alert(1);") && Ordinary("#x3C;/script") && Ordinary("#x3E;")
    ensures Ordinary(Name) && Ordinary("$") && Ordinary("Leandro") && Ordinary(" ") && Ordinary("Facchinetti")
  {
  }

  /** The encodings the renderer's documentation shows for a script element. */
  lemma ScriptEncoding()
    ensures Encode(Script) == EncodedScript
    ensures Encode(EncodedScript) == TwiceEncodedScript
  {
    OrdinaryTexts();
    EncodeElement("script", "alert(1);", "/script");
    EncodedScriptReferences();
    EncodeReferences("#x3C;script", "#x3E;alert(1);", "#x3C;/script", "#x3E;");
  }

  /** Without substitutions the template text comes out unchanged. */
  lemma NoInterpolation()
    ensures Render(["<p>" + Name + "</p>"], []) == "<p>" + Name + "</p>"
  {
  }

  lemma SimpleInterpolation()
    ensures Render(["<p>", "</p>"], [Scalar(Name)]) == "<p>" + Name + "</p>"
  {
    EscapedScalar("<p>", "</p>", Name);
    OrdinaryTexts();
  }

  lemma UnsafeInterpolation()
    ensures Render(["<p>", "</p>"], [Scalar(Script)]) == "<p>" + EncodedScript + "</p>"
  {
    EscapedScalar("<p>", "</p>", Script);
    ScriptEncoding();
  }

  /** Rendering inside an escaped slot encodes twice ... */
  lemma DoubleEncoding()
    ensures Render(["<p>", "</p>"], [Scalar(Render(["", ""], [Scalar(Script)]))])
         == "<p>" + TwiceEncodedScript + "</p>"
  {
    DoubleRender("<p>", "</p>", Script);
    ScriptEncoding();
  }

  /** ... and inside a raw slot, once. */
  lemma RawAfterEncoding()
    ensures Render(["<p>$", "</p>"], [Scalar(Render(["", ""], [Scalar(Script)]))])
         == "<p>" + EncodedScript + "</p>"
  {
    DoubleRender("<p>", "</p>", Script);
    RawFragments();
    ScriptEncoding();
  }

  /** The fragments before the raw slots of the scenarios, as a text
      followed by the `$` that makes the slot raw (a literal fact kept apart
      to keep the scenarios cheap to verify). */
  lemma RawFragments()
    ensures "<p>" + "$" == "<p>$"
    ensures "\n      <ul>\n        " + "$" == "\n      <ul>\n        $"
    ensures "<p>|\U{8}| " + "$" == "<p>|\U{8}| $"
  {
  }

  lemma SafeInterpolation()
    ensures Render(["<p>$", "</p>"], [Scalar("<span>" + Name + "</span>")])
         == "<p>" + ("<span>" + Name + "</span>") + "</p>"
  {
    RawScalar("<p>", "</p>", "<span>" + Name + "</span>");
    RawFragments();
  }

  /** Two escaped scalar slots. */
  lemma TwoEscapedScalars(f0: string, f1: string, f2: string, a: string, b: string)
    requires !EndsWithDollar(f0) && !EndsWithDollar(f1)
    ensures Render([f0, f1, f2], [Scalar(a), Scalar(b)]) == f0 + Encode(a) + (f1 + Encode(b) + f2)
  {
    var fs, ss := [f0, f1, f2], [Scalar(a), Scalar(b)];
    assert fs[1..] == [f1, f2] && ss[1..] == [Scalar(b)];
    assert Render(fs, ss) == Slot(f0, Scalar(a)) + Render([f1, f2], [Scalar(b)]);
    EscapedScalar(f1, f2, b);
    EscapedSlot(f0, Scalar(a));
    JoinSingle(a);
  }

  lemma EncodeDollarScript()
    ensures Encode("$") == "$"
    ensures Encode("$" + EncodedScript) == "$" + TwiceEncodedScript
  {
    OrdinaryTexts();
    ScriptEncoding();
    EncodeAppend("$", EncodedScript);
  }

  /** A `$` that comes from a substitution does not make the next slot raw:
      the inner template is ["", "", ""] with "$" and the script as values. */
  lemma DollarFromSubstitution()
    ensures Render(["", "", ""], [Scalar("$"), Scalar(Script)]) == "$" + EncodedScript
  {
    TwoEscapedScalars("", "", "", "$", Script);
    EncodeDollarScript();
    ScriptEncoding();
  }

  lemma EscapedDollarFromSubstitution()
    ensures Render(["<p>", "</p>"], [Scalar(Render(["", "", ""], [Scalar("$"), Scalar(Script)]))])
         == "<p>" + ("$" + TwiceEncodedScript) + "</p>"
  {
    DollarFromSubstitution();
    EscapedScalar("<p>", "</p>", "$" + EncodedScript);
    EncodeDollarScript();
  }

  lemma Join2(a: string, b: string)
    ensures Join([a, b]) == a + b
  {
    assert [a, b][1..] == [b];
    JoinSingle(b);
  }

  lemma Join3(a: string, b: string, c: string)
    ensures Join([a, b, c]) == a + b + c
  {
    assert [a, b, c][1..] == [b, c];
    Join2(b, c);
  }

  lemma Join5(a: string, b: string, c: string, d: string, e: string)
    ensures Join([a, b, c, d, e]) == a + b + c + d + e
  {
    assert [a, b, c, d, e] == [a, b] + [c, d, e];
    JoinAppend([a, b], [c, d, e]);
    Join2(a, b);
    Join3(c, d, e);
  }

  /** The name as the list items spell it (a literal fact kept apart). */
  lemma NameText()
    ensures "Leandro" + " " + "Facchinetti" == Name
  {
  }

  lemma ArrayInterpolation()
    ensures Render(["<p>", "</p>"], [Many(["Leandro", " ", "Facchinetti"])]) == "<p>" + Name + "</p>"
  {
    EscapedList("<p>", "</p>", ["Leandro", " ", "Facchinetti"]);
    Join3("Leandro", " ", "Facchinetti");
    NameText();
    OrdinaryTexts();
  }

  lemma EncodeAppend5(a: string, b: string, c: string, d: string, e: string)
    ensures Encode(a + b + c + d + e) == Encode(a) + Encode(b) + Encode(c) + Encode(d) + Encode(e)
  {
    EncodeAppend(a, b);
    EncodeAppend(a + b, c);
    EncodeAppend(a + b + c, d);
    EncodeAppend(a + b + c + d, e);
  }

  lemma ArrayUnsafeInterpolation()
    ensures Render(["\n      <p>\n        ", "\n      </p>\n    "],
                   [Many(["Leandro", " ", Script, " ", "Facchinetti"])])
         == "\n      <p>\n        " + ("Leandro" + " " + EncodedScript + " " + "Facchinetti") + "\n      </p>\n    "
  {
    EscapedList("\n      <p>\n        ", "\n      </p>\n    ", ["Leandro", " ", Script, " ", "Facchinetti"]);
    Join5("Leandro", " ", Script, " ", "Facchinetti");
    EncodeAppend5("Leandro", " ", Script, " ", "Facchinetti");
    OrdinaryTexts();
    ScriptEncoding();
  }

  lemma ArraySafeInterpolation()
    ensures Render(["\n      <ul>\n        $", "\n      </ul>\n    "],
                   [Many(["<li>Leandro</li>", "<li>Facchinetti</li>"])])
         == "\n      <ul>\n        " + ("<li>Leandro</li>" + "<li>Facchinetti</li>") + "\n      </ul>\n    "
  {
    RawList("\n      <ul>\n        ", "\n      </ul>\n    ", ["<li>Leandro</li>", "<li>Facchinetti</li>"]);
    RawFragments();
    Join2("<li>Leandro</li>", "<li>Facchinetti</li>");
  }

  /** The renderer removes no character: a backspace, which is not allowed in
      XML, comes out unchanged both from a literal fragment and from a raw
      slot. */
  lemma InvalidCharacterKept()
    ensures Render(["<p>|\U{8}| $", "</p>"], [Scalar("|\U{8}|")]) == "<p>|\U{8}| " + "|\U{8}|" + "</p>"
  {
    RawScalar("<p>|\U{8}| ", "</p>", "|\U{8}|");
    RawFragments();
  }
}
