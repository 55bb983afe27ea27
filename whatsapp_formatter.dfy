/** The state of the WhatsApp formatter component: the input text, the
    formatted text derived from it, and the whole-text format buttons. */
module WhatsAppFormatter {
  import opened RegexReplace
  import opened TextFormat

  /** U+200B ZERO WIDTH SPACE, the padding character of the spoiler button. */
  const ZeroWidthSpace: char := '\U{200B}'

  /** How many padding characters the spoiler button inserts. */
  const SpoilerPadding: nat := 4000

  /** The messages the preset buttons load. */
  const PresetMessages: seq<string> := [
    "The movie ending: ||The butler did it||",
    "Game spoiler: ||The princess is in another castle||",
    "News: ||Election results will be announced tomorrow||"
  ]

  // ---------------------------------------------------------------------
  // String.prototype.trim

  /** The characters `trim()` removes: ECMAScript's WhiteSpace (tab, vertical
      tab, form feed, U+FEFF and the Unicode space separators) and its
      LineTerminator characters. U+200B is a format character, not one of
      them. */
  predicate IsWhitespace(c: char) {
    c == '\t' || c == '\n' || c == '\U{B}' || c == '\U{C}' || c == '\r'
    || c == ' ' || c == '\U{A0}' || c == '\U{1680}'
    || ('\U{2000}' <= c <= '\U{200A}')
    || c == '\U{2028}' || c == '\U{2029}' || c == '\U{202F}' || c == '\U{205F}'
    || c == '\U{3000}' || c == '\U{FEFF}'
  }

  /** Every character of `s` is whitespace (the empty text included). */
  predicate IsBlank(s: string) {
    forall k :: 0 <= k < |s| ==> IsWhitespace(s[k])
  }

  function TrimStart(s: string): string {
    if s != [] && IsWhitespace(s[0]) then TrimStart(s[1..]) else s
  }

  function TrimEnd(s: string): string {
    if s != [] && IsWhitespace(s[|s| - 1]) then TrimEnd(s[..|s| - 1]) else s
  }

  /** `s.trim()`: leading and trailing whitespace removed. */
  function Trim(s: string): string {
    TrimEnd(TrimStart(s))
  }

  /** Trimming leaves nothing exactly when the text is blank, which is when
      `!inputText.trim()` holds. */
  lemma TrimEmptyIffBlank(s: string)
    ensures Trim(s) == [] <==> IsBlank(s)
  {
    TrimStartEmptyIffBlank(s);
    var u := TrimStart(s);
    if u != [] {
      TrimStartHead(s);
      TrimEndKeepsHead(u);
    }
  }

  lemma {:induction false} TrimStartEmptyIffBlank(s: string)
    ensures TrimStart(s) == [] <==> IsBlank(s)
  {
    if s != [] && IsWhitespace(s[0]) {
      TrimStartEmptyIffBlank(s[1..]);
      assert IsBlank(s[1..]) ==> IsBlank(s) by {
        if IsBlank(s[1..]) {
          forall k | 0 <= k < |s| ensures IsWhitespace(s[k]) {
            if k > 0 { assert s[k] == s[1..][k - 1]; }
          }
        }
      }
    }
  }

  lemma {:induction false} TrimStartHead(s: string)
    requires TrimStart(s) != []
    ensures !IsWhitespace(TrimStart(s)[0])
  {
    if s != [] && IsWhitespace(s[0]) {
      TrimStartHead(s[1..]);
    }
  }

  lemma {:induction false} TrimEndKeepsHead(s: string)
    requires s != [] && !IsWhitespace(s[0])
    ensures TrimEnd(s) != [] && TrimEnd(s)[0] == s[0]
  {
    if IsWhitespace(s[|s| - 1]) {
      TrimEndKeepsHead(s[..|s| - 1]);
    }
  }

  // ---------------------------------------------------------------------
  // applyFormat as a function of the input text

  /** `c.repeat(n)`. */
  function Repeat(c: char, n: nat): (r: string)
    ensures |r| == n
    ensures forall k :: 0 <= k < n ==> r[k] == c
  {
    if n == 0 then [] else [c] + Repeat(c, n - 1)
  }

  /** The `formatChars` the switch selects; any other name leaves it empty. */
  function Marker(format: string): string {
    if format == "bold" then "*"
    else if format == "italic" then "_"
    else if format == "strike" then "~"
    else if format == "mono" then "`"
    else if format == "spoiler" then "[SPOILER]"
    else ""
  }

  /** The new input text after a whole-text format button: unchanged when
      the text is blank, otherwise the marker on both sides, the spoiler
      marker with the zero-width padding in front of the text. */
  function WholeTextFormat(format: string, text: string): string {
    if Trim(text) == [] then text
    else
      var body := if format == "spoiler" then Repeat(ZeroWidthSpace, SpoilerPadding) + text else text;
      Marker(format) + body + Marker(format)
  }

  /** Blank input is left alone, whatever the format. */
  lemma ApplyFormatBlank(format: string, text: string)
    requires IsBlank(text)
    ensures WholeTextFormat(format, text) == text
  {
    TrimEmptyIffBlank(text);
  }

  /** Bold, italic, strikethrough and monospace put their single-character
      marker on both sides of the text. */
  lemma ApplyFormatWraps(format: string, text: string)
    requires !IsBlank(text)
    ensures format == "bold" ==> WholeTextFormat(format, text) == "*" + text + "*"
    ensures format == "italic" ==> WholeTextFormat(format, text) == "_" + text + "_"
    ensures format == "strike" ==> WholeTextFormat(format, text) == "~" + text + "~"
    ensures format == "mono" ==> WholeTextFormat(format, text) == "`" + text + "`"
  {
    TrimEmptyIffBlank(text);
  }

  /** An unrecognised format leaves the marker empty, so the text comes back
      as it was. */
  lemma ApplyFormatUnrecognised(format: string, text: string)
    requires format !in {"bold", "italic", "strike", "mono", "spoiler"}
    ensures WholeTextFormat(format, text) == text
  {
    assert Marker(format) == [];
    assert [] + text + [] == text;
  }

  /** The spoiler button puts `[SPOILER]` on both sides of 4000 zero-width
      spaces followed by the text: 4018 characters more than the text. */
  lemma ApplyFormatSpoiler(text: string)
    requires !IsBlank(text)
    ensures var r := WholeTextFormat("spoiler", text);
      && r == "[SPOILER]" + Repeat(ZeroWidthSpace, 4000) + text + "[SPOILER]"
      && |r| == |text| + 4018
      && r[..9] == "[SPOILER]" && r[|r| - 9..] == "[SPOILER]"
      && r[9..4009 + |text|] == Repeat(ZeroWidthSpace, 4000) + text
  {
    TrimEmptyIffBlank(text);
    var pad := Repeat(ZeroWidthSpace, 4000);
    var r := "[SPOILER]" + pad + text + "[SPOILER]";
    assert r == "[SPOILER]" + (pad + text) + "[SPOILER]";
    assert r[..9] == "[SPOILER]";
    assert r[9..4009 + |text|] == pad + text;
    assert r[|r| - 9..] == "[SPOILER]";
  }

  /** The whole-text formats lose nothing: stripping the marker (and the
      padding) again gives back the text, blank or not. */
  function Unwrap(format: string, r: string): string {
    var m := Marker(format);
    var pad := if format == "spoiler" then SpoilerPadding else 0;
    if |m| > 0 && |r| >= 2 * |m| + pad && r[..|m|] == m && r[|r| - |m|..] == m
    then r[|m| + pad..|r| - |m|]
    else r
  }

  lemma ApplyFormatRoundTrip(format: string, text: string)
    ensures Unwrap(format, WholeTextFormat(format, text)) == text
  {
    var m := Marker(format);
    var pad := if format == "spoiler" then SpoilerPadding else 0;
    TrimEmptyIffBlank(text);
    if Trim(text) == [] {
      // No marker starts with a whitespace character, so blank text is
      // never taken for a wrapped one.
      assert |m| > 0 && |text| >= |m| ==> text[..|m|][0] == text[0];
    } else {
      var body := if format == "spoiler" then Repeat(ZeroWidthSpace, SpoilerPadding) + text else text;
      var r := m + body + m;
      assert r[..|m|] == m;
      assert r[|r| - |m|..] == m;
      assert r[|m|..|r| - |m|] == body;
      if |m| > 0 {
        assert r[|m| + pad..|r| - |m|] == body[pad..];
        assert body[pad..] == text;
      }
    }
  }

  // ---------------------------------------------------------------------
  // Whole-text formats seen through formatText

  /** The monospace button's output is a monospace span, which formatText
      promotes to triple backticks. */
  lemma MonoButtonThenFormat(text: string)
    requires !IsBlank(text) && '`' !in text && '|' !in text
    ensures FormatText(WholeTextFormat("mono", text)) == "```" + text + "```"
  {
    ApplyFormatWraps("mono", text);
    FormatTextMonoSpan(text);
  }

  /** The other buttons' output passes through formatText unchanged; in
      particular the spoiler button's `[SPOILER]` wrapping is not the
      `||…||` form that formatText turns into a spoiler. */
  lemma OtherButtonsSurviveFormat(format: string, text: string)
    requires format != "mono" && '`' !in text && !Contains(text, "||")
    ensures FormatText(WholeTextFormat(format, text)) == WholeTextFormat(format, text)
  {
    var r := WholeTextFormat(format, text);
    if Trim(text) != [] {
      var m := Marker(format);
      assert '`' !in m && '|' !in m;
      var body := if format == "spoiler" then Repeat(ZeroWidthSpace, SpoilerPadding) + text else text;
      if format == "spoiler" {
        var pad := Repeat(ZeroWidthSpace, SpoilerPadding);
        var none: string := [];
        assert pad + text + none == body;
        DoublePipeInside(pad, text, none);
      }
      assert r == m + body + m;
      DoublePipeInside(m, body, m);
    }
    FormatTextPlain(r);
  }

  /** Text without pipes on either side cannot bring a `||` into the text
      between them. */
  lemma DoublePipeInside(a: string, s: string, b: string)
    requires '|' !in a && '|' !in b
    ensures Contains(a + s + b, "||") ==> Contains(s, "||")
  {
    var w := a + s + b;
    if Contains(w, "||") {
      var i :| 0 <= i <= |w| && OccursAt(w, i, "||");
      DoublePipeAt(a, s, b, i);
    }
  }

  lemma DoublePipeAt(a: string, s: string, b: string, i: nat)
    requires '|' !in a && '|' !in b && OccursAt(a + s + b, i, "||")
    ensures |a| <= i <= |a| + |s| && OccursAt(s, i - |a|, "||")
  {
    var w := a + s + b;
    var d := "||";
    assert d[0] == '|' && d[1] == '|';
    assert w[i + 0] == d[0] && w[i + 1] == d[1];
    assert |a| <= i;
    assert i + 1 < |a| + |s|;
    assert s[i - |a|] == w[i] && s[i - |a| + 1] == w[i + 1];
  }

  /** The first preset message loses its spoiler pipes and gains a space
      on each side of the hidden words, so two spaces follow the colon. */
  lemma PresetSpoiler()
    ensures FormatText(PresetMessages[0]) == "The movie ending:  The butler did it "
  {
    var x, c := "The movie ending: ", "The butler did it";
    PresetSpoilerParts(x, c);
    FormatTextSpoilerSpan(x, c);
  }

  lemma PresetSpoilerParts(x: string, c: string)
    requires x == "The movie ending: " && c == "The butler did it"
    ensures PresetMessages[0] == x + "||" + c + "||"
    ensures '`' !in x && '|' !in x && c != [] && '`' !in c && '|' !in c
    ensures x + " " + c + " " == "The movie ending:  The butler did it "
  {
    PresetSpoilerInput(x, c);
    PresetSpoilerOutput(x, c);
  }

  lemma PresetSpoilerInput(x: string, c: string)
    requires x == "The movie ending: " && c == "The butler did it"
    ensures PresetMessages[0] == x + "||" + c + "||"
  {
  }

  lemma PresetSpoilerOutput(x: string, c: string)
    requires x == "The movie ending: " && c == "The butler did it"
    ensures x + " " + c + " " == "The movie ending:  The butler did it "
  {
  }

  // ---------------------------------------------------------------------
  // The component's state

  /** The two text values of the component. Valid() is the derivation of
      the formatted text from the input text that every change restores. */
  class FormatterState {
    var inputText: string
    var formattedText: string

    ghost predicate Valid()
      reads this
    {
      formattedText == FormatText(inputText)
    }

    /** Both texts start empty, which already satisfies the derivation. */
    constructor ()
      ensures Valid()
      ensures inputText == [] && formattedText == []
    {
      inputText := [];
      formattedText := [];
      FormatTextEmpty();
    }

    /** The effect that re-derives the formatted text from the input. */
    method RecomputeFormatted()
      modifies this`formattedText
      ensures formattedText == FormatText(inputText)
    {
      formattedText := FormatText(inputText);
    }

    /** `setInputText`, as the text area, the preset buttons and applyFormat
      call it, followed by the effect it triggers. */
    method SetInputText(text: string)
      modifies this
      ensures inputText == text
      ensures Valid()
    {
      inputText := text;
      RecomputeFormatted();
    }

    /** A preset button loads its message. */
    method LoadPreset(index: nat)
      requires index < |PresetMessages|
      modifies this
      ensures inputText == PresetMessages[index]
      ensures Valid()
    {
      SetInputText(PresetMessages[index]);
    }

    /** A whole-text format button. Blank input is left as it is (nothing
      is written); otherwise the marker goes around the whole text, after
      4000 zero-width spaces are put in front of it for the spoiler. */
    method ApplyFormat(format: string)
      requires Valid()
      modifies this
      ensures inputText == WholeTextFormat(format, old(inputText))
      ensures Valid()
      ensures IsBlank(old(inputText)) ==>
                inputText == old(inputText) && formattedText == old(formattedText)
    {
      TrimEmptyIffBlank(inputText);
      if Trim(inputText) == [] {
        return;
      }
      var formatChars := "";
      var text := inputText;
      if format == "bold" {
        formatChars := "*";
      } else if format == "italic" {
        formatChars := "_";
      } else if format == "strike" {
        formatChars := "~";
      } else if format == "mono" {
        formatChars := "`";
      } else if format == "spoiler" {
        formatChars := "[SPOILER]";
        text := Repeat(ZeroWidthSpace, SpoilerPadding) + text;
      }
      var newText := formatChars + text + formatChars;
      SetInputText(newText);
    }
  }

  lemma FormatTextEmpty()
    ensures FormatText([]) == []
  {
    FormatTextPlainNoPipe([]);
  }
}
