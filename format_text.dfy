/** `formatText` of the WhatsApp formatter: five global substitutions applied
    in a fixed order (bold, italic, strikethrough, monospace, spoiler). */
module TextFormat {
  import opened RegexReplace

  /** Bold (src/App.jsx:13): asterisks around asterisk-free content, written back as matched. */
  const BoldPattern := Pattern("*", '*', "*", None, None)
  const BoldTemplate := Template("*", "*")

  /** Italic (src/App.jsx:16): underscores around underscore-free content, not preceded or
      followed by an asterisk, written back as matched. */
  const ItalicPattern := Pattern("_", '_', "_", Some('*'), Some('*'))
  const ItalicTemplate := Template("_", "_")

  /** Strikethrough (src/App.jsx:19): tildes around tilde-free content, written back as matched. */
  const StrikePattern := Pattern("~", '~', "~", None, None)
  const StrikeTemplate := Template("~", "~")

  /** Monospace (src/App.jsx:22): single backticks around backtick-free content become triple
      backticks. */
  const MonoPattern := Pattern("`", '`', "`", None, None)
  const MonoTemplate := Template("```", "```")

  /** Spoiler (src/App.jsx:25): two pipes on each side of pipe-free content become one space on
      each side. */
  const SpoilerPattern := Pattern("||", '|', "||", None, None)
  const SpoilerTemplate := Template(" ", " ")

  function BoldPass(s: string): string { Replace(BoldPattern, BoldTemplate, s) }
  function ItalicPass(s: string): string { Replace(ItalicPattern, ItalicTemplate, s) }
  function StrikePass(s: string): string { Replace(StrikePattern, StrikeTemplate, s) }
  function MonoPass(s: string): string { Replace(MonoPattern, MonoTemplate, s) }
  function SpoilerPass(s: string): string { Replace(SpoilerPattern, SpoilerTemplate, s) }

  /** The whole pipeline, each pass reading the output of the one before. */
  function FormatText(text: string): string {
    SpoilerPass(MonoPass(StrikePass(ItalicPass(BoldPass(text)))))
  }

  /** Number of monospace and spoiler spans the passes rewrite. */
  function MonoMatches(s: string): nat { MatchCount(MonoPattern, s) }
  function SpoilerMatches(s: string): nat { MatchCount(SpoilerPattern, s) }

  /** Every closing delimiter starts with the excluded character, so on all
      five passes MatchAt is exactly the regular expression (MatchAtExact). */
  lemma PatternsClose()
    ensures Closes(BoldPattern) && Closes(ItalicPattern) && Closes(StrikePattern)
    ensures Closes(MonoPattern) && Closes(SpoilerPattern)
  {
  }

  // ---------------------------------------------------------------------
  // The passes that write back what they match

  lemma BoldPassIdentity(s: string)
    ensures BoldPass(s) == s
  {
    ReplaceIdentity(BoldPattern, s);
  }

  /** The lookarounds decide which spans match, but a match is replaced by
      itself, so the text never changes. */
  lemma ItalicPassIdentity(s: string)
    ensures ItalicPass(s) == s
  {
    ReplaceIdentity(ItalicPattern, s);
  }

  lemma StrikePassIdentity(s: string)
    ensures StrikePass(s) == s
  {
    ReplaceIdentity(StrikePattern, s);
  }

  /** Only the monospace and spoiler passes change anything. */
  lemma FormatTextIsMonoThenSpoiler(s: string)
    ensures FormatText(s) == SpoilerPass(MonoPass(s))
  {
    BoldPassIdentity(s);
    ItalicPassIdentity(s);
    StrikePassIdentity(s);
  }

  // ---------------------------------------------------------------------
  // Monospace

  lemma MonoPassWithoutBacktick(s: string)
    requires '`' !in s
    ensures MonoPass(s) == s
  {
    ReplaceRun(MonoPattern, MonoTemplate, s);
  }

  /** Text before the first backtick is copied as it is. */
  lemma MonoAfterRun(x: string, s: string)
    requires '`' !in x
    ensures MonoPass(x + s) == x + MonoPass(s)
  {
    ReplaceAfterRun(MonoPattern, MonoTemplate, x, s);
  }

  /** A backtick, a non-empty backtick-free content and a backtick become
      the content between triple backticks. */
  lemma MonoSpan(c: string, r: string)
    requires c != [] && '`' !in c
    ensures MonoPass("`" + c + "`" + r) == "```" + c + "```" + MonoPass(r)
  {
    SpanAtStart(MonoPattern, MonoTemplate, c, r);
  }

  /** An empty pair is not a match: its first backtick stays literal and the
      second may still open a span. */
  lemma MonoEmptyPair(r: string)
    ensures MonoPass("``" + r) == "`" + MonoPass("`" + r)
  {
    var w := "``" + r;
    assert w == ['`'] + ("`" + r);
    assert w[1] == '`';
    NoMatchAtStart(MonoPattern, MonoTemplate, '`', "`" + r);
  }

  /** A backtick with no backtick after it stays literal. */
  lemma MonoLoneBacktick(y: string)
    requires '`' !in y
    ensures MonoPass("`" + y) == "`" + y
  {
    var w := "`" + y;
    assert w == ['`'] + y;
    forall k | 1 <= k < |w| ensures w[k] != '`' {
      assert w[k] == y[k - 1];
    }
    RunEndComplete(w, 1, |w|, '`');
    NoMatchAtStart(MonoPattern, MonoTemplate, '`', y);
    MonoPassWithoutBacktick(y);
  }

  /** Every monospace match adds exactly four characters. */
  lemma MonoLength(s: string)
    ensures |MonoPass(s)| == |s| + 4 * MonoMatches(s)
  {
    ReplaceLength(MonoPattern, MonoTemplate, s);
  }

  // ---------------------------------------------------------------------
  // Spoiler

  lemma SpoilerPassWithoutDoublePipe(s: string)
    requires !Contains(s, "||")
    ensures SpoilerPass(s) == s
  {
    ReplaceWithoutOpen(SpoilerPattern, SpoilerTemplate, s);
  }

  lemma SpoilerPassWithoutPipe(s: string)
    requires '|' !in s
    ensures SpoilerPass(s) == s
  {
    ReplaceRun(SpoilerPattern, SpoilerTemplate, s);
  }


  /** Text before the first pipe is copied as it is. */
  lemma SpoilerAfterRun(x: string, s: string)
    requires '|' !in x
    ensures SpoilerPass(x + s) == x + SpoilerPass(s)
  {
    ReplaceAfterRun(SpoilerPattern, SpoilerTemplate, x, s);
  }

  /** `||content||` with non-empty pipe-free content becomes the content
      between two spaces; the pipes are dropped. */
  lemma SpoilerSpan(c: string, r: string)
    requires c != [] && '|' !in c
    ensures SpoilerPass("||" + c + "||" + r) == " " + c + " " + SpoilerPass(r)
  {
    SpanAtStart(SpoilerPattern, SpoilerTemplate, c, r);
  }

  /** A pipe not followed by another pipe stays literal. */
  lemma SpoilerLonePipe(r: string)
    requires At(r, 0) != Some('|')
    ensures SpoilerPass("|" + r) == "|" + SpoilerPass(r)
  {
    var w := "|" + r;
    assert w == ['|'] + r;
    assert !OccursAt(w, 0, "||") by {
      if |w| >= 2 {
        assert w[0 + 1] == r[0] && r[0] != '|';
        assert "||"[1] == '|';
      }
    }
    NoMatchAtStart(SpoilerPattern, SpoilerTemplate, '|', r);
  }

  /** Three pipes in a row start no span (the content would be empty): the
      first pipe stays literal and the other two may still open one. */
  lemma SpoilerTriplePipe(r: string)
    ensures SpoilerPass("|||" + r) == "|" + SpoilerPass("||" + r)
  {
    var w := "|||" + r;
    assert w == ['|'] + ("||" + r);
    assert w[0] == '|' && w[1] == '|' && w[2] == '|';
    NoMatchAtStart(SpoilerPattern, SpoilerTemplate, '|', "||" + r);
  }

  /** An opening `||` that is never closed stays literal. */
  lemma SpoilerUnclosed(y: string)
    requires '|' !in y
    ensures SpoilerPass("||" + y) == "||" + y
  {
    var w := "||" + y;
    assert w == ['|'] + ("|" + y);
    forall k | 2 <= k < |w| ensures w[k] != '|' {
      assert w[k] == y[k - 2];
    }
    RunEndComplete(w, 2, |w|, '|');
    NoMatchAtStart(SpoilerPattern, SpoilerTemplate, '|', "|" + y);
    assert At(y, 0) != Some('|');
    SpoilerLonePipe(y);
    SpoilerPassWithoutPipe(y);
  }

  /** An opening `||` whose content is followed by a single pipe is no
      match: the group stops at that pipe, where `||` does not follow. The
      first pipe stays literal and the scan goes on from the second. */
  lemma SpoilerSingleClose(c: string, r: string)
    requires c != [] && '|' !in c && At(r, 0) != Some('|')
    ensures SpoilerPass("||" + c + "|" + r) == "|" + SpoilerPass("|" + c + "|" + r)
  {
    var w := "||" + c + "|" + r;
    var e := 2 + |c|;
    assert w == ['|'] + ("|" + c + "|" + r);
    forall k | 2 <= k < e ensures w[k] != '|' {
      assert w[k] == c[k - 2];
    }
    assert w[e] == '|';
    RunEndComplete(w, 2, e, '|');
    assert !OccursAt(w, e, "||") by {
      if e + 2 <= |w| {
        assert w[e + 1] == r[0] && r[0] != '|';
        assert "||"[1] == '|';
      }
    }
    NoMatchAtStart(SpoilerPattern, SpoilerTemplate, '|', "|" + c + "|" + r);
  }

  /** Every spoiler match removes exactly two characters. */
  lemma SpoilerLength(s: string)
    ensures |SpoilerPass(s)| == |s| - 2 * SpoilerMatches(s)
  {
    ReplaceLength(SpoilerPattern, SpoilerTemplate, s);
  }

  // ---------------------------------------------------------------------
  // The pipeline

  /** Text with no backtick and no `||` comes out exactly as it went in. */
  lemma FormatTextPlain(s: string)
    requires '`' !in s && !Contains(s, "||")
    ensures FormatText(s) == s
  {
    FormatTextIsMonoThenSpoiler(s);
    MonoPassWithoutBacktick(s);
    SpoilerPassWithoutDoublePipe(s);
  }

  /** The monospace pass does not reach a fixed point in one run: over its
      own output "```c```" it rewrites the inner "`c`" again. */
  lemma MonoNotIdempotent(c: string)
    requires c != [] && '`' !in c
    ensures MonoPass("`" + c + "`") == "```" + c + "```"
    ensures MonoPass("```" + c + "```") == "`````" + c + "`````"
  {
    MonoSingleSpan(c);
    MonoTripleSpan(c);
    MonoSpan(c, "``");
    MonoTwoBackticks();
    FiveBackticks(c);
  }

  /** In "```c```" the first two backticks stay literal and "`c`" starts
      at the third. */
  lemma MonoTripleSpan(c: string)
    ensures MonoPass("```" + c + "```") == "``" + MonoPass("`" + c + "`" + "``")
  {
    var r := c + "```";
    assert "```" + c + "```" == "```" + r;
    MonoTripleOpen(r);
    assert "`" + r == "`" + c + "`" + "``";
  }

  lemma FiveBackticks(c: string)
    ensures "``" + ("```" + c + "```" + "``") == "`````" + c + "`````"
  {
    var two, three, five := "``", "```", "`````";
    assert two + three == five && three + two == five;
    calc {
      two + (three + c + three + two);
      two + ((three + c) + (three + two));
      (two + (three + c)) + five;
      ((two + three) + c) + five;
    }
  }

  /** Three backticks: the first two stay literal, each an empty pair. */
  lemma MonoTripleOpen(r: string)
    ensures MonoPass("```" + r) == "``" + MonoPass("`" + r)
  {
    MonoEmptyPair("`" + r);
    MonoEmptyPair(r);
    assert "``" + "`" == "```" && "`" + "`" == "``";
    AssociateLeft("``", "`", r);
    AssociateLeft("`", "`", r);
    AssociateLeft("`", "`", MonoPass("`" + r));
  }

  lemma MonoSingleSpan(c: string)
    requires c != [] && '`' !in c
    ensures MonoPass("`" + c + "`") == "```" + c + "```"
  {
    var e: string := [];
    assert "`" + c + "`" == "`" + c + "`" + e;
    MonoSpan(c, e);
    MonoPass0();
  }

  lemma MonoTwoBackticks()
    ensures MonoPass("``") == "``"
  {
    var e: string := [];
    assert "``" == "``" + e && "`" == "`" + e;
    MonoEmptyPair(e);
    MonoLoneBacktick(e);
  }

  lemma MonoPass0()
    ensures MonoPass([]) == []
  {
  }

  lemma SpoilerPass0()
    ensures SpoilerPass([]) == []
  {
  }

  /** A monospace span with plain content is promoted to triple backticks
      by the whole pipeline ("`code`" becomes "```code```"). */
  lemma FormatTextMonoSpan(c: string)
    requires c != [] && '`' !in c && '|' !in c
    ensures FormatText("`" + c + "`") == "```" + c + "```"
  {
    var m := "```" + c + "```";
    calc {
      FormatText("`" + c + "`");
      { FormatTextIsMonoThenSpoiler("`" + c + "`"); }
      SpoilerPass(MonoPass("`" + c + "`"));
      { MonoSingleSpan(c); }
      SpoilerPass(m);
      { assert '|' !in m; SpoilerPassWithoutPipe(m); }
      m;
    }
  }

  /** After text free of markup, a spoiler with plain content loses its
      pipes and gains a space on each side. The first preset message is an
      instance: "The movie ending: ||The butler did it||" becomes
      "The movie ending:  The butler did it ", two spaces before the
      content; "||secret||" becomes " secret ". */
  lemma FormatTextSpoilerSpan(x: string, c: string)
    requires '`' !in x && '|' !in x
    requires c != [] && '`' !in c && '|' !in c
    ensures FormatText(x + "||" + c + "||") == x + " " + c + " "
  {
    var s := x + "||" + c + "||";
    var e: string := [];
    calc {
      FormatText(s);
      { FormatTextIsMonoThenSpoiler(s); }
      SpoilerPass(MonoPass(s));
      { assert '`' !in s; MonoPassWithoutBacktick(s); }
      SpoilerPass(s);
      { assert s == x + ("||" + c + "||" + e); SpoilerAfterRun(x, "||" + c + "||" + e); }
      x + SpoilerPass("||" + c + "||" + e);
      { SpoilerSpan(c, e); SpoilerPass0(); }
      x + (" " + c + " " + e);
      x + " " + c + " ";
    }
  }

  /** The monospace pass runs first, so a spoiler may contain the triple
      backticks it produced. */
  lemma MonoBeforeSpoiler(c: string)
    requires c != [] && '`' !in c && '|' !in c
    ensures FormatText("||`" + c + "`||") == " ```" + c + "``` "
  {
    var s := "||`" + c + "`||";
    var pipes := "||";
    var e: string := [];
    var code := "```" + c + "```";
    calc {
      FormatText(s);
      { FormatTextIsMonoThenSpoiler(s); }
      SpoilerPass(MonoPass(s));
      { assert s == pipes + ("`" + c + "`" + pipes); MonoAfterRun(pipes, "`" + c + "`" + pipes);
        MonoSpan(c, pipes); MonoPassWithoutBacktick(pipes); }
      SpoilerPass(pipes + ("```" + c + "```" + pipes));
      { assert pipes + ("```" + c + "```" + pipes) == "||" + code + "||" + e;
        SpoilerSpan(code, e); SpoilerPass0(); }
      " " + code + " " + e;
      " ```" + c + "``` ";
    }
  }

  lemma FormatTextPlainNoPipe(s: string)
    requires '`' !in s && '|' !in s
    ensures FormatText(s) == s
  {
    FormatTextIsMonoThenSpoiler(s);
    MonoPassWithoutBacktick(s);
    SpoilerPassWithoutPipe(s);
  }
}
