/** Character references for markup-significant characters.

    The renderer delegates escaping to the `he` library's `encode`. This module
    is a concrete stand-in for the part of it that the renderer relies on: each
    of the six characters that `he` treats as unsafe in markup (the double
    quote, the ampersand, the apostrophe, the two angle brackets and the
    backtick) becomes a hexadecimal numeric character reference with
    upper-case digits (`<` becomes `&#x3C;`). Every other character is kept
    here, although `he` also replaces control characters and non-ASCII
    characters by references. `Decode` is the inverse used to show that no
    information is lost.
 */
module Entities {

  datatype Option<T> = None | Some(value: T)

  /** The characters the encoder replaces. */
  predicate IsUnsafe(c: char) {
    c == '"' || c == '&' || c == '\'' || c == '<' || c == '>' || c == '`'
  }

  /** Characters that delimit tags and attribute values; the ampersand is
      unsafe but is not one of them, since every reference begins with it. */
  predicate IsDelimiter(c: char) {
    IsUnsafe(c) && c != '&'
  }

  /** Text with nothing for the encoder to replace. */
  predicate Ordinary(s: string) {
    forall i :: 0 <= i < |s| ==> !IsUnsafe(s[i])
  }

  /** Text with no tag or attribute delimiter in it. */
  predicate DelimiterFree(s: string) {
    forall i :: 0 <= i < |s| ==> !IsDelimiter(s[i])
  }

  /** The delimiters of a text, in order; everything else dropped. */
  function Delimiters(s: string): (d: string)
    ensures DelimiterFree(s) <==> d == []
  {
    if s == [] then []
    else if IsDelimiter(s[0]) then [s[0]] + Delimiters(s[1..])
    else
      assert DelimiterFree(s) <==> DelimiterFree(s[1..]) by {
        if DelimiterFree(s[1..]) {
          forall i | 0 < i < |s| ensures !IsDelimiter(s[i]) {
            assert s[i] == s[1..][i - 1];
          }
        }
      }
      Delimiters(s[1..])
  }

  lemma {:induction false} DelimitersAppend(a: string, b: string)
    ensures Delimiters(a + b) == Delimiters(a) + Delimiters(b)
    decreases |a|
  {
    if a == [] {
      assert a + b == b;
    } else {
      assert (a + b)[1..] == a[1..] + b;
      DelimitersAppend(a[1..], b);
    }
  }

  /** The character reference that stands for an unsafe character. */
  function Reference(c: char): (r: string)
    requires IsUnsafe(c)
    ensures |r| == 6 && r[0] == '&' && r[5] == ';'
    ensures DelimiterFree(r) && !Ordinary(r)
  {
    match c
    case '"' => "&#x22;"
    case '&' => "&#x26;"
    case '\'' => "&#x27;"
    case '<' => "&#x3C;"
    case '>' => "&#x3E;"
    case '`' => "&#x60;"
  }

  /** The unsafe character a six-character reference stands for, if any. */
  function Dereference(r: string): (d: Option<char>)
    ensures d.Some? ==> IsUnsafe(d.value) && Reference(d.value) == r
    ensures forall c :: IsUnsafe(c) && Reference(c) == r ==> d == Some(c)
  {
    if r == "&#x22;" then Some('"')
    else if r == "&#x26;" then Some('&')
    else if r == "&#x27;" then Some('\'')
    else if r == "&#x3C;" then Some('<')
    else if r == "&#x3E;" then Some('>')
    else if r == "&#x60;" then Some('`')
    else None
  }

  function EncodeChar(c: char): string {
    if IsUnsafe(c) then Reference(c) else [c]
  }

  /** Replaces every unsafe character by its reference. The result holds no
      delimiter, is never shorter than the input, keeps ordinary text as it is,
      and is ordinary exactly when the input was. */
  function Encode(s: string): (r: string)
    ensures DelimiterFree(r)
    ensures Ordinary(s) ==> r == s
    ensures Ordinary(s) <==> |r| == |s|
    ensures Ordinary(s) <==> Ordinary(r)
    ensures |r| >= |s|
  {
    if s == [] then []
    else
      var rest := Encode(s[1..]);
      assert Ordinary(s) <==> !IsUnsafe(s[0]) && Ordinary(s[1..]) by {
        if !IsUnsafe(s[0]) && Ordinary(s[1..]) {
          forall i | 0 < i < |s| ensures !IsUnsafe(s[i]) {
            assert s[i] == s[1..][i - 1];
          }
        }
      }
      var r := EncodeChar(s[0]) + rest;
      assert DelimiterFree(r) by {
        forall i | 0 <= i < |r| ensures !IsDelimiter(r[i]) {
          if i >= |EncodeChar(s[0])| {
            assert r[i] == rest[i - |EncodeChar(s[0])|];
          }
        }
      }
      assert Ordinary(r) <==> !IsUnsafe(s[0]) && Ordinary(rest) by {
        if !IsUnsafe(s[0]) && Ordinary(rest) {
          forall i | 0 < i < |r| ensures !IsUnsafe(r[i]) {
            assert r[i] == rest[i - 1];
          }
        }
        if IsUnsafe(s[0]) {
          assert r[0] == '&';
        }
        if Ordinary(r) && !IsUnsafe(s[0]) {
          forall i | 0 <= i < |rest| ensures !IsUnsafe(rest[i]) {
            assert rest[i] == r[i + 1];
          }
        }
      }
      r
  }

  /** Replaces every reference produced by `Encode` by the character it stands
      for; any other text is kept. */
  function Decode(s: string): (r: string)
    decreases |s|
  {
    if s == [] then []
    else if |s| >= 6 && Dereference(s[..6]).Some? then
      [Dereference(s[..6]).value] + Decode(s[6..])
    else
      [s[0]] + Decode(s[1..])
  }

  /** Encoding works character by character, so it distributes over
      concatenation. */
  lemma {:induction false} EncodeAppend(a: string, b: string)
    ensures Encode(a + b) == Encode(a) + Encode(b)
    decreases |a|
  {
    if a == [] {
      assert a + b == b;
    } else {
      assert (a + b)[1..] == a[1..] + b;
      EncodeAppend(a[1..], b);
    }
  }

  /** Decoding undoes encoding: no two texts encode alike. */
  lemma {:induction false} DecodeEncode(s: string)
    ensures Decode(Encode(s)) == s
    decreases |s|
  {
    if s != [] {
      var c, rest := s[0], Encode(s[1..]);
      var e := Encode(s);
      assert e == EncodeChar(c) + rest;
      if IsUnsafe(c) {
        assert e[..6] == Reference(c);
        assert e[6..] == rest;
      } else {
        assert e[0] == c && e[1..] == rest;
        assert |e| >= 6 ==> e[..6][0] != '&';
      }
      DecodeEncode(s[1..]);
    }
  }

  lemma EncodeInjective(a: string, b: string)
    requires Encode(a) == Encode(b)
    ensures a == b
  {
    DecodeEncode(a);
    DecodeEncode(b);
  }

  /** The encoder does not recognise its own output: encoding an encoded text
      again changes it, unless the original text had nothing to replace. */
  lemma DoubleEncode(s: string)
    ensures Encode(Encode(s)) == Encode(s) <==> Ordinary(s)
    ensures Decode(Encode(Encode(s))) == Encode(s)
  {
    DecodeEncode(Encode(s));
  }
}
