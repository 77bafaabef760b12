/** `escapeHTML`, the helper the page uses whenever it injects text into markup (the second
    declaration in script.js, which is the one in effect). */
module HtmlEscape {
  import opened JsValues

  /** The five global replacements, in the order the source applies them: `&` first, so that the
      ampersands the later replacements introduce are not escaped again. */
  function EscapeText(s: string): string {
    var s1 := ReplaceAll(s, '&', "&amp;");
    var s2 := ReplaceAll(s1, '<', "&lt;");
    var s3 := ReplaceAll(s2, '>', "&gt;");
    var s4 := ReplaceAll(s3, '"', "&quot;");
    ReplaceAll(s4, '\'', "&#39;")
  }

  /** `escapeHTML(v)`: every falsy value except the number 0 gives ""; anything else is converted
      with `String` and escaped. */
  function EscapeHTML(v: Value): (r: string)
    ensures !Truthy(v) && v != Num(Int(0)) ==> r == ""
    ensures forall i :: 0 <= i < |r| ==> !IsMarkupChar(r[i])
  {
    if !Truthy(v) && v != Num(Int(0)) then ""
    else
      EscapeTextHasNoMarkup(ToString(v));
      EscapeText(ToString(v))
  }

  /** The character reference one character is written as. */
  function Encode(c: char): string {
    if c == '&' then "&amp;"
    else if c == '<' then "&lt;"
    else if c == '>' then "&gt;"
    else if c == '"' then "&quot;"
    else if c == '\'' then "&#39;"
    else [c]
  }

  /** The escape as a single left-to-right pass, one character at a time. */
  function EncodeAll(s: string): string {
    if s == [] then [] else Encode(s[0]) + EncodeAll(s[1..])
  }

  /** The browser's decoding of the five character references `escapeHTML` produces, as it happens
      when an escaped attribute value is read back through `dataset`. */
  function Unescape(s: string): string
    decreases |s|
  {
    if s == [] then []
    else if "&amp;" <= s then "&" + Unescape(s[5..])
    else if "&lt;" <= s then "<" + Unescape(s[4..])
    else if "&gt;" <= s then ">" + Unescape(s[4..])
    else if "&quot;" <= s then "\"" + Unescape(s[6..])
    else if "&#39;" <= s then "'" + Unescape(s[5..])
    else [s[0]] + Unescape(s[1..])
  }

  predicate IsMarkupChar(c: char) {
    c == '<' || c == '>' || c == '"' || c == '\''
  }

  lemma ReplaceAllOfChar(c: char, x: char, rep: string)
    ensures ReplaceAll([c], x, rep) == if c == x then rep else [c]
  {
    assert [c][1..] == [];
  }

  /** Replacing characters that do not occur leaves the text as it is. */
  lemma ReplacementsAbsent(t: string, from: nat)
    requires from <= 4
    requires from <= 0 ==> '&' !in t
    requires from <= 1 ==> '<' !in t
    requires from <= 2 ==> '>' !in t
    requires from <= 3 ==> '"' !in t
    requires '\'' !in t
    ensures from <= 0 ==> ReplaceAll(t, '&', "&amp;") == t
    ensures from <= 1 ==> ReplaceAll(t, '<', "&lt;") == t
    ensures from <= 2 ==> ReplaceAll(t, '>', "&gt;") == t
    ensures from <= 3 ==> ReplaceAll(t, '"', "&quot;") == t
    ensures ReplaceAll(t, '\'', "&#39;") == t
  {
    if from <= 0 { ReplaceAllAbsent(t, '&', "&amp;"); }
    if from <= 1 { ReplaceAllAbsent(t, '<', "&lt;"); }
    if from <= 2 { ReplaceAllAbsent(t, '>', "&gt;"); }
    if from <= 3 { ReplaceAllAbsent(t, '"', "&quot;"); }
    ReplaceAllAbsent(t, '\'', "&#39;");
  }

  lemma EscapeTextOfAmpersand()
    ensures EscapeText("&") == "&amp;"
  {
    ReplaceAllOfChar('&', '&', "&amp;");
    ReplacementsAbsent("&amp;", 1);
  }

  lemma EscapeTextOfLess()
    ensures EscapeText("<") == "&lt;"
  {
    ReplaceAllOfChar('<', '&', "&amp;");
    ReplaceAllOfChar('<', '<', "&lt;");
    ReplacementsAbsent("&lt;", 2);
  }

  lemma EscapeTextOfGreater()
    ensures EscapeText(">") == "&gt;"
  {
    ReplaceAllAbsent(">", '&', "&amp;");
    ReplaceAllAbsent(">", '<', "&lt;");
    ReplaceAllOfChar('>', '>', "&gt;");
    ReplacementsAbsent("&gt;", 3);
  }

  lemma EscapeTextOfQuote()
    ensures EscapeText("\"") == "&quot;"
  {
    ReplaceAllAbsent("\"", '&', "&amp;");
    ReplaceAllAbsent("\"", '<', "&lt;");
    ReplaceAllAbsent("\"", '>', "&gt;");
    ReplaceAllOfChar('"', '"', "&quot;");
    ReplacementsAbsent("&quot;", 4);
  }

  lemma EscapeTextOfApostrophe()
    ensures EscapeText("'") == "&#39;"
  {
    ReplaceAllAbsent("'", '&', "&amp;");
    ReplaceAllAbsent("'", '<', "&lt;");
    ReplaceAllAbsent("'", '>', "&gt;");
    ReplaceAllAbsent("'", '"', "&quot;");
    ReplaceAllOfChar('\'', '\'', "&#39;");
  }

  lemma EscapeTextOfChar(c: char)
    ensures EscapeText([c]) == Encode(c)
  {
    if c == '&' {
      EscapeTextOfAmpersand();
    } else if c == '<' {
      EscapeTextOfLess();
    } else if c == '>' {
      EscapeTextOfGreater();
    } else if c == '"' {
      EscapeTextOfQuote();
    } else if c == '\'' {
      EscapeTextOfApostrophe();
    } else {
      ReplacementsAbsent([c], 0);
    }
  }

  lemma {:induction false} EscapeTextConcat(a: string, b: string)
    ensures EscapeText(a + b) == EscapeText(a) + EscapeText(b)
  {
    ReplaceAllConcat(a, b, '&', "&amp;");
    var a1, b1 := ReplaceAll(a, '&', "&amp;"), ReplaceAll(b, '&', "&amp;");
    ReplaceAllConcat(a1, b1, '<', "&lt;");
    var a2, b2 := ReplaceAll(a1, '<', "&lt;"), ReplaceAll(b1, '<', "&lt;");
    ReplaceAllConcat(a2, b2, '>', "&gt;");
    var a3, b3 := ReplaceAll(a2, '>', "&gt;"), ReplaceAll(b2, '>', "&gt;");
    ReplaceAllConcat(a3, b3, '"', "&quot;");
    var a4, b4 := ReplaceAll(a3, '"', "&quot;"), ReplaceAll(b3, '"', "&quot;");
    ReplaceAllConcat(a4, b4, '\'', "&#39;");
  }

  /** The five successive replacements amount to escaping each character on its own. */
  lemma {:induction false} EscapeTextIsCharwise(s: string)
    ensures EscapeText(s) == EncodeAll(s)
  {
    if s != [] {
      assert s == [s[0]] + s[1..];
      EscapeTextConcat([s[0]], s[1..]);
      EscapeTextOfChar(s[0]);
      EscapeTextIsCharwise(s[1..]);
    }
  }

  lemma {:induction false} EncodeAllHasNoMarkup(s: string)
    ensures forall i :: 0 <= i < |EncodeAll(s)| ==> !IsMarkupChar(EncodeAll(s)[i])
  {
    if s != [] {
      EncodeAllHasNoMarkup(s[1..]);
      var e, rest := Encode(s[0]), EncodeAll(s[1..]);
      assert forall i :: 0 <= i < |e| ==> !IsMarkupChar(e[i]);
      assert forall i :: 0 <= i < |e + rest| ==> (e + rest)[i] == if i < |e| then e[i] else rest[i - |e|];
    }
  }

  /** Escaped text contains no raw `<`, `>`, `"` or `'`. */
  lemma EscapeTextHasNoMarkup(s: string)
    ensures forall i :: 0 <= i < |EscapeText(s)| ==> !IsMarkupChar(EscapeText(s)[i])
  {
    EscapeTextIsCharwise(s);
    EncodeAllHasNoMarkup(s);
  }

  lemma {:induction false} UnescapeEncodeAll(s: string)
    ensures Unescape(EncodeAll(s)) == s
  {
    if s != [] {
      var c, rest := s[0], EncodeAll(s[1..]);
      var t := Encode(c) + rest;
      UnescapeEncodeAll(s[1..]);
      assert t[|Encode(c)|..] == rest;
      assert |Encode(c)| >= 2 ==> t[1] == Encode(c)[1];
      if c == '&' {
        assert "&amp;" <= t;
      } else if c == '<' {
        assert "&lt;" <= t && !("&amp;" <= t);
      } else if c == '>' {
        assert "&gt;" <= t && !("&amp;" <= t) && !("&lt;" <= t);
      } else if c == '"' {
        assert "&quot;" <= t && !("&amp;" <= t) && !("&lt;" <= t) && !("&gt;" <= t);
      } else if c == '\'' {
        assert "&#39;" <= t && !("&amp;" <= t) && !("&lt;" <= t) && !("&gt;" <= t) && !("&quot;" <= t);
      } else {
        assert t[0] == c;
      }
      assert s == [c] + s[1..];
    }
  }

  /** Escaping loses nothing: decoding the character references gives back the original text, so
      every `&` of the input is written as exactly one `&amp;` and is not escaped a second time. */
  lemma EscapeTextRoundTrip(s: string)
    ensures Unescape(EscapeText(s)) == s
  {
    EscapeTextIsCharwise(s);
    UnescapeEncodeAll(s);
  }

  /** Falsy values other than 0 escape to "", and 0 is rendered as "0". */
  lemma EscapeHTMLOfFalsy(v: Value)
    ensures !Truthy(v) && v != Num(Int(0)) ==> EscapeHTML(v) == ""
    ensures EscapeHTML(Num(Int(0))) == "0"
  {
    assert ToString(Num(Int(0))) == "0";
    EscapeTextIsCharwise("0");
  }

  /** Reading an escaped attribute back gives the text `String` would have produced, and "" for
      falsy values other than 0. */
  lemma AttributeRoundTrip(v: Value)
    ensures Unescape(EscapeHTML(v)) == if !Truthy(v) && v != Num(Int(0)) then "" else ToString(v)
  {
    EscapeTextRoundTrip(ToString(v));
  }
}
