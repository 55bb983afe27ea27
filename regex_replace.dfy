/** A model of `String.prototype.replace` with a global regular expression of
    the one shape the formatter uses:

        (?<!b) open ([^stop]+) close (?!a)

    where both lookarounds are optional and the replacement is
    `prefix $1 suffix`. The scan walks the input by position, as the regular
    expression engine does with `lastIndex`: at each position the pattern is
    tried; on a match the replacement is emitted and the scan resumes after
    the match, otherwise the character is kept and the scan moves on by one.
    The lookarounds look at the input itself, never at replaced text. */
module RegexReplace {

  datatype Option<T> = None | Some(value: T)

  /** `open ([^stop]+) close` with an optional one-character negative
      lookbehind (`notBefore`) and negative lookahead (`notAfter`). */
  datatype Pattern = Pattern(open: string, stop: char, close: string,
                             notBefore: Option<char>, notAfter: Option<char>)

  /** The replacement string `prefix $1 suffix`. */
  datatype Template = Template(prefix: string, suffix: string)

  /** One step of a scan: a character that starts no match, or a match
      together with its captured group. */
  datatype Piece = Lit(c: char) | Span(content: string)

  /** The pieces of a scan, in order. */
  datatype Pieces = End | Next(head: Piece, tail: Pieces)

  /** The closing delimiter begins with the excluded character. Then the
      greedy group can only end where the closing delimiter starts, so the
      engine never needs to backtrack; all five patterns of the formatter
      have this form. */
  predicate Closes(p: Pattern) {
    |p.close| > 0 && p.close[0] == p.stop
  }

  /** The opening delimiter begins with the excluded character, so no match
      can start inside a run of other characters. */
  predicate Opens(p: Pattern) {
    |p.open| > 0 && p.open[0] == p.stop
  }

  /** The character before position `i`, None at the start of the text. */
  function Before(w: string, i: nat): Option<char>
    requires i <= |w|
  {
    if i == 0 then None else Some(w[i - 1])
  }

  /** The character at position `i`, None at the end of the text. */
  function At(w: string, i: nat): Option<char> {
    if i < |w| then Some(w[i]) else None
  }

  /** A negative lookaround for `guard` succeeds at a place whose
      neighbouring character is `neighbour`. */
  predicate Allowed(guard: Option<char>, neighbour: Option<char>) {
    guard.None? || neighbour != guard
  }

  /** The characters of `w` from position `a` up to `b`. */
  function Segment(w: string, a: nat, b: nat): (r: string)
    requires a <= b <= |w|
    ensures |r| == b - a
    decreases b - a
  {
    if a == b then [] else [w[a]] + Segment(w, a + 1, b)
  }

  /** The delimiter `d` occurs in `w` at position `i`. */
  predicate OccursAt(w: string, i: nat, d: string) {
    i + |d| <= |w| && forall k :: 0 <= k < |d| ==> w[i + k] == d[k]
  }

  /** Where the greedy `[^stop]+` that starts at `j` stops: the first
      position from `j` on that holds `stop`, or the end of the text. */
  function RunEnd(w: string, j: nat, stop: char): (e: nat)
    requires j <= |w|
    ensures j <= e <= |w|
    decreases |w| - j
  {
    if j == |w| || w[j] == stop then j else RunEnd(w, j + 1, stop)
  }

  /** Whether the pattern matches at position `i` of `w`; on a match, the
      position where the captured group ends. */
  function MatchAt(p: Pattern, w: string, i: nat): (m: Option<nat>)
    requires i <= |w|
    ensures m.Some? ==> i + |p.open| < m.value && m.value + |p.close| <= |w|
  {
    if !OccursAt(w, i, p.open) || !Allowed(p.notBefore, Before(w, i)) then None
    else
      var e := RunEnd(w, i + |p.open|, p.stop);
      if e == i + |p.open| || !OccursAt(w, e, p.close)
         || !Allowed(p.notAfter, At(w, e + |p.close|))
      then None
      else Some(e)
  }

  /** What the regular expression means at position `i`: the opening
      delimiter, a non-empty group free of `stop` ending at `e`, the closing
      delimiter, and both lookarounds succeeding. */
  predicate Delimits(p: Pattern, w: string, i: nat, e: nat) {
    i + |p.open| < e && e + |p.close| <= |w|
    && OccursAt(w, i, p.open)
    && (forall k :: i + |p.open| <= k < e ==> w[k] != p.stop)
    && OccursAt(w, e, p.close)
    && Allowed(p.notBefore, Before(w, i))
    && Allowed(p.notAfter, At(w, e + |p.close|))
  }

  /** The text a piece stands for in the input. */
  function Source(p: Pattern, x: Piece): string {
    match x
    case Lit(c) => [c]
    case Span(c) => p.open + c + p.close
  }

  /** The text a piece becomes in the output. */
  function Image(t: Template, x: Piece): string {
    match x
    case Lit(c) => [c]
    case Span(c) => t.prefix + c + t.suffix
  }

  function Flatten(p: Pattern, ps: Pieces): string {
    match ps
    case End => []
    case Next(x, rest) => Source(p, x) + Flatten(p, rest)
  }

  function Render(t: Template, ps: Pieces): string {
    match ps
    case End => []
    case Next(x, rest) => Image(t, x) + Render(t, rest)
  }

  /** Number of matches among the pieces. */
  function Matches(ps: Pieces): nat {
    match ps
    case End => 0
    case Next(x, rest) => (if x.Span? then 1 else 0) + Matches(rest)
  }

  /** A captured group of `[^stop]+`. */
  predicate Captured(p: Pattern, x: Piece) {
    x.Span? ==> x.content != [] && p.stop !in x.content
  }

  predicate AllCaptured(p: Pattern, ps: Pieces) {
    match ps
    case End => true
    case Next(x, rest) => Captured(p, x) && AllCaptured(p, rest)
  }

  /** The leftmost, non-overlapping matches from position `i` on, as pieces. */
  function Scan(p: Pattern, w: string, i: nat): Pieces
    requires i <= |w|
    decreases |w| - i
  {
    if i == |w| then End
    else match MatchAt(p, w, i)
      case Some(e) => Next(Span(Segment(w, i + |p.open|, e)), Scan(p, w, e + |p.close|))
      case None => Next(Lit(w[i]), Scan(p, w, i + 1))
  }

  /** Where the scan goes on after the piece it reads at `i`. */
  function Resume(p: Pattern, w: string, i: nat): (j: nat)
    requires i < |w|
    ensures i < j <= |w|
  {
    match MatchAt(p, w, i)
    case Some(e) => e + |p.close|
    case None => i + 1
  }

  /** `w.replace(/pattern/g, template)`: the scan's pieces, each written
      through the template. */
  function Replace(p: Pattern, t: Template, w: string): string {
    Render(t, Scan(p, w, 0))
  }

  // ---------------------------------------------------------------------
  // Segments

  lemma {:induction false} SegmentAt(w: string, a: nat, b: nat)
    requires a <= b <= |w|
    ensures forall k :: 0 <= k < b - a ==> Segment(w, a, b)[k] == w[a + k]
    decreases b - a
  {
    if a < b {
      SegmentAt(w, a + 1, b);
      var r := Segment(w, a, b);
      forall k | 0 < k < b - a ensures r[k] == w[a + k] {
        assert r[k] == Segment(w, a + 1, b)[k - 1];
      }
    }
  }

  lemma SegmentWhole(w: string)
    ensures Segment(w, 0, |w|) == w
  {
    SegmentAt(w, 0, |w|);
  }

  lemma {:induction false} SegmentSplit(w: string, a: nat, b: nat, c: nat)
    requires a <= b <= c <= |w|
    ensures Segment(w, a, c) == Segment(w, a, b) + Segment(w, b, c)
    decreases b - a
  {
    if a < b {
      SegmentSplit(w, a + 1, b, c);
      assert [w[a]] + (Segment(w, a + 1, b) + Segment(w, b, c))
          == ([w[a]] + Segment(w, a + 1, b)) + Segment(w, b, c);
    }
  }

  lemma OccursAtSegment(w: string, i: nat, d: string)
    requires i + |d| <= |w|
    ensures OccursAt(w, i, d) <==> Segment(w, i, i + |d|) == d
  {
    SegmentAt(w, i, i + |d|);
    if OccursAt(w, i, d) {
      assert Segment(w, i, i + |d|) == d;
    }
  }

  // ---------------------------------------------------------------------
  // Matching

  /** The greedy run stops exactly at the first `stop` or at the end. */
  lemma {:induction false} RunEndSound(w: string, j: nat, stop: char)
    requires j <= |w|
    ensures forall k :: j <= k < RunEnd(w, j, stop) ==> w[k] != stop
    ensures RunEnd(w, j, stop) < |w| ==> w[RunEnd(w, j, stop)] == stop
    decreases |w| - j
  {
    if j < |w| && w[j] != stop {
      RunEndSound(w, j + 1, stop);
    }
  }

  lemma {:induction false} RunEndComplete(w: string, j: nat, e: nat, stop: char)
    requires j <= e <= |w|
    requires forall k :: j <= k < e ==> w[k] != stop
    requires e == |w| || w[e] == stop
    ensures RunEnd(w, j, stop) == e
    decreases e - j
  {
    if j < e {
      RunEndComplete(w, j + 1, e, stop);
    }
  }

  /** Every match MatchAt reports is one the regular expression denotes. */
  lemma MatchAtSound(p: Pattern, w: string, i: nat, e: nat)
    requires i <= |w| && MatchAt(p, w, i) == Some(e)
    ensures Delimits(p, w, i, e)
  {
    RunEndSound(w, i + |p.open|, p.stop);
  }

  /** Every match the regular expression denotes is the one MatchAt
      reports: with the closing delimiter starting with `stop`, the group
      cannot end anywhere but at the first `stop`. */
  lemma MatchAtComplete(p: Pattern, w: string, i: nat, e: nat)
    requires Closes(p) && i <= |w|
    requires Delimits(p, w, i, e)
    ensures MatchAt(p, w, i) == Some(e)
  {
    assert w[e + 0] == p.close[0];
    RunEndComplete(w, i + |p.open|, e, p.stop);
  }

  /** MatchAt is exactly the regular expression at one position. */
  lemma MatchAtExact(p: Pattern, w: string, i: nat, e: nat)
    requires Closes(p) && i <= |w|
    ensures MatchAt(p, w, i) == Some(e) <==> Delimits(p, w, i, e)
  {
    if MatchAt(p, w, i) == Some(e) {
      MatchAtSound(p, w, i, e);
    }
    if Delimits(p, w, i, e) {
      MatchAtComplete(p, w, i, e);
    }
  }

  /** The scan loses nothing: its pieces spell out the rest of the input. */
  lemma {:induction false} ScanLossless(p: Pattern, w: string, i: nat)
    requires i <= |w|
    ensures Flatten(p, Scan(p, w, i)) == Segment(w, i, |w|)
    decreases |w| - i
  {
    if i < |w| {
      ScanLossless(p, w, Resume(p, w, i));
      LosslessStep(p, w, i);
    }
  }

  lemma LosslessStep(p: Pattern, w: string, i: nat)
    requires i < |w|
    requires Flatten(p, Scan(p, w, Resume(p, w, i))) == Segment(w, Resume(p, w, i), |w|)
    ensures Flatten(p, Scan(p, w, i)) == Segment(w, i, |w|)
  {
    match MatchAt(p, w, i)
    case Some(e) => LosslessMatchStep(p, w, i, e);
    case None => LosslessLitStep(p, w, i);
  }

  lemma LosslessMatchStep(p: Pattern, w: string, i: nat, e: nat)
    requires i < |w| && MatchAt(p, w, i) == Some(e)
    requires Flatten(p, Scan(p, w, e + |p.close|)) == Segment(w, e + |p.close|, |w|)
    ensures Flatten(p, Scan(p, w, i)) == Segment(w, i, |w|)
  {
    MatchAtSound(p, w, i, e);
    FlattenSpan(p, w, i, e, Scan(p, w, e + |p.close|));
  }

  /** The delimiters of a match and the group between them, followed by
      pieces that spell out the rest, spell out the text from the match on. */
  lemma FlattenSpan(p: Pattern, w: string, i: nat, e: nat, ps: Pieces)
    requires i + |p.open| <= e && e + |p.close| <= |w|
    requires OccursAt(w, i, p.open) && OccursAt(w, e, p.close)
    requires Flatten(p, ps) == Segment(w, e + |p.close|, |w|)
    ensures Flatten(p, Next(Span(Segment(w, i + |p.open|, e)), ps)) == Segment(w, i, |w|)
  {
    SpanSource(p, w, i, e);
  }

  lemma LosslessLitStep(p: Pattern, w: string, i: nat)
    requires i < |w| && MatchAt(p, w, i).None?
    requires Flatten(p, Scan(p, w, i + 1)) == Segment(w, i + 1, |w|)
    ensures Flatten(p, Scan(p, w, i)) == Segment(w, i, |w|)
  {
  }

  /** A match spans its delimiters and the group between them. */
  lemma SpanSource(p: Pattern, w: string, i: nat, e: nat)
    requires i + |p.open| <= e && e + |p.close| <= |w|
    requires OccursAt(w, i, p.open) && OccursAt(w, e, p.close)
    ensures Segment(w, i, |w|)
              == p.open + Segment(w, i + |p.open|, e) + p.close + Segment(w, e + |p.close|, |w|)
  {
    SegmentStartsWith(w, i, p.open);
    SegmentSplit(w, i + |p.open|, e, |w|);
    SegmentStartsWith(w, e, p.close);
    Associate(p.open, Segment(w, i + |p.open|, e), p.close, Segment(w, e + |p.close|, |w|));
  }

  /** A text from a position where `d` occurs is `d` followed by the rest. */
  lemma SegmentStartsWith(w: string, i: nat, d: string)
    requires i + |d| <= |w| && OccursAt(w, i, d)
    ensures Segment(w, i, |w|) == d + Segment(w, i + |d|, |w|)
  {
    OccursAtSegment(w, i, d);
    SegmentSplit(w, i, i + |d|, |w|);
  }

  lemma Associate(a: string, b: string, c: string, d: string)
    ensures a + (b + (c + d)) == a + b + c + d
  {
  }

  /** Every group the scan captures is a non-empty run free of `stop`. */
  lemma {:induction false} ScanCaptured(p: Pattern, w: string, i: nat)
    requires i <= |w|
    ensures AllCaptured(p, Scan(p, w, i))
    decreases |w| - i
  {
    if i < |w| {
      match MatchAt(p, w, i)
      case Some(e) =>
        ScanCaptured(p, w, e + |p.close|);
        MatchAtSound(p, w, i, e);
        RunFree(w, i + |p.open|, e, p.stop);
      case None =>
        ScanCaptured(p, w, i + 1);
    }
  }

  lemma RunFree(w: string, j: nat, e: nat, stop: char)
    requires j <= e <= |w|
    requires forall k :: j <= k < e ==> w[k] != stop
    ensures stop !in Segment(w, j, e)
  {
    var r := Segment(w, j, e);
    SegmentAt(w, j, e);
    forall k | 0 <= k < |r| ensures r[k] != stop {
      assert r[k] == w[j + k];
    }
  }

  // ---------------------------------------------------------------------
  // What the replacement does

  /** A template that writes back the delimiters it matched reproduces
      every piece exactly. */
  lemma {:induction false} RenderIdentity(p: Pattern, ps: Pieces)
    ensures Render(Template(p.open, p.close), ps) == Flatten(p, ps)
  {
    if ps.Next? {
      RenderIdentity(p, ps.tail);
    }
  }

  /** Replacing every match of a pattern by itself leaves every string
      unchanged, whichever spans the lookarounds let through. */
  lemma ReplaceIdentity(p: Pattern, w: string)
    ensures Replace(p, Template(p.open, p.close), w) == w
  {
    ScanLossless(p, w, 0);
    RenderIdentity(p, Scan(p, w, 0));
    SegmentWhole(w);
  }

  /** Without a match every piece is rendered as it was read. */
  lemma {:induction false} RenderWithoutMatches(p: Pattern, t: Template, ps: Pieces)
    requires Matches(ps) == 0
    ensures Render(t, ps) == Flatten(p, ps)
  {
    if ps.Next? {
      RenderWithoutMatches(p, t, ps.tail);
    }
  }

  /** Each match changes the length by the difference between the
      template's and the pattern's delimiters; nothing else changes it. */
  lemma {:induction false} RenderLength(p: Pattern, t: Template, ps: Pieces)
    ensures |Render(t, ps)| == |Flatten(p, ps)|
              + (|t.prefix| + |t.suffix| - |p.open| - |p.close|) * Matches(ps)
  {
    if ps.Next? {
      RenderLength(p, t, ps.tail);
      var d := |t.prefix| + |t.suffix| - |p.open| - |p.close|;
      var m := Matches(ps.tail);
      if ps.head.Span? {
        assert d * (1 + m) == d + d * m;
      }
    }
  }

  /** Number of matches the replacement rewrites. */
  function MatchCount(p: Pattern, w: string): nat {
    Matches(Scan(p, w, 0))
  }

  /** Length accounting for a whole replacement. */
  lemma ReplaceLength(p: Pattern, t: Template, w: string)
    ensures |Replace(p, t, w)| == |w|
              + (|t.prefix| + |t.suffix| - |p.open| - |p.close|) * MatchCount(p, w)
  {
    ScanLossless(p, w, 0);
    RenderLength(p, t, Scan(p, w, 0));
  }

  // ---------------------------------------------------------------------
  // Where matches can occur

  /** `d` occurs somewhere in `w`. */
  predicate Contains(w: string, d: string) {
    exists i :: 0 <= i <= |w| && OccursAt(w, i, d)
  }

  /** A text in which the opening delimiter never occurs has no match. */
  lemma {:induction false} ScanWithoutOpen(p: Pattern, w: string, i: nat)
    requires i <= |w| && !Contains(w, p.open)
    ensures Matches(Scan(p, w, i)) == 0
    decreases |w| - i
  {
    if i < |w| {
      assert !OccursAt(w, i, p.open);
      ScanWithoutOpen(p, w, i + 1);
    }
  }

  /** Text in which the opening delimiter never occurs is returned
      unchanged. */
  lemma ReplaceWithoutOpen(p: Pattern, t: Template, w: string)
    requires !Contains(w, p.open)
    ensures Replace(p, t, w) == w
  {
    ScanWithoutOpen(p, w, 0);
    ScanLossless(p, w, 0);
    RenderWithoutMatches(p, t, Scan(p, w, 0));
    SegmentWhole(w);
  }

  /** The characters of `[i, j)` as literal pieces, followed by `rest`. */
  function Literals(w: string, i: nat, j: nat, rest: Pieces): Pieces
    requires i <= j <= |w|
    decreases j - i
  {
    if i == j then rest else Next(Lit(w[i]), Literals(w, i + 1, j, rest))
  }

  /** A run of characters other than `stop` is copied unchanged, because no
      match can start inside it. */
  lemma LiteralRun(p: Pattern, t: Template, w: string, i: nat, j: nat)
    requires Opens(p) && i <= j <= |w|
    requires forall k :: i <= k < j ==> w[k] != p.stop
    ensures Render(t, Scan(p, w, i)) == Segment(w, i, j) + Render(t, Scan(p, w, j))
  {
    ScanLiterals(p, w, i, j);
    RenderLiterals(t, w, i, j, Scan(p, w, j));
  }

  lemma {:induction false} ScanLiterals(p: Pattern, w: string, i: nat, j: nat)
    requires Opens(p) && i <= j <= |w|
    requires forall k :: i <= k < j ==> w[k] != p.stop
    ensures Scan(p, w, i) == Literals(w, i, j, Scan(p, w, j))
    decreases j - i
  {
    if i < j {
      ScanLiterals(p, w, i + 1, j);
      LiteralStep(p, w, i);
    }
  }

  /** A character other than `stop` cannot start a match. */
  lemma LiteralStep(p: Pattern, w: string, i: nat)
    requires Opens(p) && i < |w| && w[i] != p.stop
    ensures Scan(p, w, i) == Next(Lit(w[i]), Scan(p, w, i + 1))
  {
    assert w[i + 0] != p.open[0];
  }

  lemma {:induction false} RenderLiterals(t: Template, w: string, i: nat, j: nat, rest: Pieces)
    requires i <= j <= |w|
    ensures Render(t, Literals(w, i, j, rest)) == Segment(w, i, j) + Render(t, rest)
    decreases j - i
  {
    if i < j {
      RenderLiterals(t, w, i + 1, j, rest);
      AssociateLeft([w[i]], Segment(w, i + 1, j), Render(t, rest));
    }
  }

  lemma AssociateLeft(a: string, b: string, c: string)
    ensures a + (b + c) == (a + b) + c
  {
  }

  /** A text free of `stop` is returned unchanged. */
  lemma ReplaceRun(p: Pattern, t: Template, w: string)
    requires Opens(p) && p.stop !in w
    ensures Replace(p, t, w) == w
  {
    LiteralRun(p, t, w, 0, |w|);
    SegmentWhole(w);
    assert Scan(p, w, |w|) == End;
  }

  // ---------------------------------------------------------------------
  // The replacement does not look back past the lookbehind

  lemma {:induction false} RunEndShift(x: string, s: string, j: nat, stop: char)
    requires j <= |s|
    ensures RunEnd(x + s, |x| + j, stop) == |x| + RunEnd(s, j, stop)
    decreases |s| - j
  {
    if j < |s| {
      assert (x + s)[|x| + j] == s[j];
      if s[j] != stop {
        RunEndShift(x, s, j + 1, stop);
      }
    }
  }

  lemma OccursAtShift(x: string, s: string, i: nat, d: string)
    ensures OccursAt(x + s, |x| + i, d) <==> OccursAt(s, i, d)
  {
    if OccursAt(s, i, d) {
      forall k | 0 <= k < |d| ensures (x + s)[|x| + i + k] == d[k] {
        assert s[i + k] == d[k];
      }
    }
    if OccursAt(x + s, |x| + i, d) {
      forall k | 0 <= k < |d| ensures s[i + k] == d[k] {
        assert (x + s)[|x| + i + k] == d[k];
      }
    }
  }

  lemma AtShift(x: string, s: string, j: nat)
    ensures At(x + s, |x| + j) == At(s, j)
  {
    if j < |s| {
      assert (x + s)[|x| + j] == s[j];
    }
  }

  /** Behind a prefix, the pattern matches at the same places, unless the
      lookbehind would see into the prefix. */
  lemma MatchAtShift(p: Pattern, x: string, s: string, i: nat)
    requires i <= |s| && (p.notBefore.None? || 0 < i)
    ensures MatchAt(p, s, i).Some? ==> MatchAt(p, x + s, |x| + i) == Some(|x| + MatchAt(p, s, i).value)
    ensures MatchAt(p, s, i).None? ==> MatchAt(p, x + s, |x| + i).None?
  {
    OccursAtShift(x, s, i, p.open);
    if 0 < i {
      assert (x + s)[|x| + i - 1] == s[i - 1];
    }
    if OccursAt(s, i, p.open) {
      RunEndShift(x, s, i + |p.open|, p.stop);
      var e := RunEnd(s, i + |p.open|, p.stop);
      OccursAtShift(x, s, e, p.close);
      AtShift(x, s, e + |p.close|);
    }
  }

  lemma {:induction false} SegmentShift(x: string, s: string, a: nat, b: nat)
    requires a <= b <= |s|
    ensures Segment(x + s, |x| + a, |x| + b) == Segment(s, a, b)
  {
    var u, v := Segment(x + s, |x| + a, |x| + b), Segment(s, a, b);
    SegmentAt(x + s, |x| + a, |x| + b);
    SegmentAt(s, a, b);
    forall k | 0 <= k < |u| ensures u[k] == v[k] {
      assert (x + s)[|x| + a + k] == s[a + k];
    }
  }

  /** Behind a prefix the scan goes on exactly as it would without the
      prefix, unless the lookbehind would see into the prefix. */
  lemma {:induction false} ScanShift(p: Pattern, x: string, s: string, i: nat)
    requires i <= |s| && (p.notBefore.None? || 0 < i)
    ensures Scan(p, x + s, |x| + i) == Scan(p, s, i)
    decreases |s| - i
  {
    if i < |s| {
      MatchAtShift(p, x, s, i);
      match MatchAt(p, s, i)
      case Some(e) =>
        ScanShift(p, x, s, e + |p.close|);
        ShiftMatchStep(p, x, s, i, e);
      case None =>
        ScanShift(p, x, s, i + 1);
        ShiftNoMatchStep(p, x, s, i);
    }
  }

  lemma ShiftMatchStep(p: Pattern, x: string, s: string, i: nat, e: nat)
    requires i < |s| && MatchAt(p, s, i) == Some(e)
    requires MatchAt(p, x + s, |x| + i) == Some(|x| + e)
    requires Scan(p, x + s, |x| + e + |p.close|) == Scan(p, s, e + |p.close|)
    ensures Scan(p, x + s, |x| + i) == Scan(p, s, i)
  {
    SegmentShift(x, s, i + |p.open|, e);
  }

  lemma ShiftNoMatchStep(p: Pattern, x: string, s: string, i: nat)
    requires i < |s| && MatchAt(p, s, i).None? && MatchAt(p, x + s, |x| + i).None?
    requires Scan(p, x + s, |x| + i + 1) == Scan(p, s, i + 1)
    ensures Scan(p, x + s, |x| + i) == Scan(p, s, i)
  {
    assert (x + s)[|x| + i] == s[i];
  }

  // ---------------------------------------------------------------------
  // Whole replacements with a pattern that has no lookbehind

  /** A run free of `stop` is copied unchanged and the replacement of the
      rest is unaffected by it. */
  lemma ReplaceAfterRun(p: Pattern, t: Template, x: string, s: string)
    requires Opens(p) && p.notBefore.None?
    requires p.stop !in x
    ensures Replace(p, t, x + s) == x + Replace(p, t, s)
  {
    var w := x + s;
    LiteralRun(p, t, w, 0, |x|);
    SegmentAt(w, 0, |x|);
    assert Segment(w, 0, |x|) == x;
    ScanShift(p, x, s, 0);
  }

  /** A well-delimited span at the start is rewritten to
      `prefix content suffix`, and the replacement starts afresh after it. */
  lemma SpanAtStart(p: Pattern, t: Template, c: string, r: string)
    requires Closes(p) && p.notBefore.None? && Allowed(p.notAfter, At(r, 0))
    requires c != [] && p.stop !in c
    ensures Replace(p, t, p.open + c + p.close + r) == t.prefix + c + t.suffix + Replace(p, t, r)
  {
    SpanMatches(p, c, r);
    MatchThenShift(p, t, p.open + c + p.close, r, |p.open| + |c|);
    SpanContent(p.open, c, p.close, r);
  }

  lemma SpanMatches(p: Pattern, c: string, r: string)
    requires Closes(p) && p.notBefore.None? && Allowed(p.notAfter, At(r, 0))
    requires c != [] && p.stop !in c
    ensures MatchAt(p, p.open + c + p.close + r, 0) == Some(|p.open| + |c|)
  {
    SpanDelimits(p, c, r);
    MatchAtComplete(p, p.open + c + p.close + r, 0, |p.open| + |c|);
  }

  /** A match at the start that ends where `x` ends. */
  lemma MatchThenShift(p: Pattern, t: Template, x: string, r: string, e: nat)
    requires p.notBefore.None?
    requires e + |p.close| == |x| && MatchAt(p, x + r, 0) == Some(e)
    ensures Replace(p, t, x + r) == t.prefix + Segment(x + r, |p.open|, e) + t.suffix + Replace(p, t, r)
  {
    ScanShift(p, x, r, 0);
  }

  lemma SpanContent(o: string, c: string, e: string, r: string)
    ensures Segment(o + c + e + r, |o|, |o| + |c|) == c
  {
    var s := Segment(o + c + e + r, |o|, |o| + |c|);
    SegmentAt(o + c + e + r, |o|, |o| + |c|);
    forall k | 0 <= k < |c| ensures s[k] == c[k] {
      assert (o + c + e + r)[|o| + k] == c[k];
    }
  }

  lemma SpanDelimits(p: Pattern, c: string, r: string)
    requires Closes(p) && p.notBefore.None? && Allowed(p.notAfter, At(r, 0))
    requires c != [] && p.stop !in c
    ensures Delimits(p, p.open + c + p.close + r, 0, |p.open| + |c|)
  {
    var x := p.open + c + p.close;
    var w := x + r;
    var e := |p.open| + |c|;
    forall k | 0 <= k < |p.open| ensures w[0 + k] == p.open[k] {
    }
    forall k | |p.open| <= k < e ensures w[k] != p.stop {
      assert w[k] == c[k - |p.open|];
    }
    forall k | 0 <= k < |p.close| ensures w[e + k] == p.close[k] {
    }
    AtShift(x, r, 0);
  }

  /** Where the pattern does not match at the start, the first character is
      kept and the replacement starts afresh after it. */
  lemma NoMatchAtStart(p: Pattern, t: Template, c: char, s: string)
    requires p.notBefore.None?
    requires MatchAt(p, [c] + s, 0).None?
    ensures Replace(p, t, [c] + s) == [c] + Replace(p, t, s)
  {
    ScanShift(p, [c], s, 0);
  }
}
