# WhatsApp formatter: a verified model of its text transformations

The WhatsApp formatter is a single React component (`src/App.jsx`). The user
types text. The component keeps a live "formatted" copy of that text, and a
row of buttons wraps the whole input in a WhatsApp marker. This project
models, in Dafny, the logic behind that:

- **`formatText`** (`src/App.jsx:9-28`): five global `String.prototype.replace`
  calls applied in order: bold, italic, strikethrough, monospace, spoiler.
  The module `RegexReplace` (`regex_replace.dfy`) models one such call
  generically. A regular expression of the shape
  `(?<!b) open ([^stop]+) close (?!a)` with the replacement
  `prefix $1 suffix` becomes a `Pattern` and a `Template`.
  - `Scan` walks the input position by position, as the engine does with
    `lastIndex`. At each position it tries the pattern. On a match it emits
    the captured group and resumes after the match. Otherwise it keeps the
    character and moves on by one.
  - The lookarounds always look at the input, never at text already
    replaced.
  - `Replace` renders the scan through the template.
  - The module `TextFormat` (`format_text.dfy`) instantiates the five
    patterns of lines 13, 16, 19, 22 and 25 and composes them into
    `FormatText`.
- **`applyFormat`** (`src/App.jsx:52-75`), in `WhatsAppFormatter`
  (`whatsapp_formatter.dfy`):
  - `WholeTextFormat` is the function the button computes. It has the
    `trim()` guard, the marker `switch`, and the 4000 U+200B characters put
    in front of the text for the spoiler.
  - The class `FormatterState` holds the component's two text values,
    `inputText` and `formattedText`.
  - Its methods are the state changes: typing, a preset button, a format
    button. Each one re-derives `formattedText` as the effect at lines
    30-32 does, and keeps the invariant `formattedText == FormatText(inputText)`.

About the matching model:
- `MatchAt` finds the end of the group as the first occurrence of the
  excluded character, with no backtracking.
- `MatchAtSound` holds for every pattern: each match `MatchAt` reports is
  one the regular expression denotes.
- The converse, `MatchAtComplete`, needs `Closes`: the closing delimiter
  starts with the excluded character. All five patterns of the formatter
  have that property, so for them `MatchAt` is exactly the regular
  expression (`MatchAtExact`).

Three behaviours of the code worth stating outright:
- A second monospace pass over a triple-backtick span rewrites it again.
  The leftmost match is the inner single-backtick span, so each side ends
  up with five backticks (`MonoNotIdempotent`).
- `applyFormat` accepts any format string. An unrecognised one leaves the
  marker empty, and the text is written back unchanged
  (`ApplyFormatUnrecognised`).
- The blank-input guard also covers the spoiler button (`ApplyFormatBlank`).

## Model

| member | source | states |
|---|---|---|
| RegexReplace.MatchAtSound | src/App.jsx:13-25 | A reported match is a denoted match: opening delimiter at `i`, non-empty group free of the excluded character up to `e`, closing delimiter at `e`, and the lookbehind and lookahead both pass |
| RegexReplace.MatchAtComplete | src/App.jsx:13-25 | When the closing delimiter starts with the excluded character, every match the expression denotes at `i` is the one reported, so no backtracking can find another |
| RegexReplace.MatchAtExact | src/App.jsx:13-25 | Under that condition, the reported match at `i` ending at `e` exists if and only if the regular expression denotes it |
| RegexReplace.ScanLossless | src/App.jsx:13-25 | The leftmost, non-overlapping scan loses and duplicates nothing: its literals and matches (delimiters plus group) spell out the scanned text exactly |
| RegexReplace.ScanCaptured | src/App.jsx:13-25 | Every captured group is non-empty and free of the excluded character, as `[^stop]+` requires |
| RegexReplace.ReplaceIdentity | src/App.jsx:13-19 | A replacement that writes back the delimiters it matched returns every string unchanged, whichever spans the lookarounds admit |
| RegexReplace.ReplaceLength | src/App.jsx:22-25 | The output length is the input length plus, per match, the template's delimiter length minus the pattern's |
| RegexReplace.ReplaceWithoutOpen | src/App.jsx:13-25 | A text in which the opening delimiter never occurs comes back unchanged |
| RegexReplace.LiteralRun | src/App.jsx:13-25 | A run free of the excluded character is copied to the output as it is, and the scan then continues from the run's end |
| RegexReplace.ReplaceRun | src/App.jsx:13-25 | A text free of the excluded character comes back unchanged |
| RegexReplace.ScanShift | src/App.jsx:13-25 | Behind any prefix the global scan continues exactly as on the suffix alone, unless the lookbehind would look into the prefix |
| RegexReplace.ReplaceAfterRun | src/App.jsx:22-25 | Without a lookbehind, a leading run free of the excluded character is copied and the rest is replaced as if on its own |
| RegexReplace.SpanAtStart | src/App.jsx:22-25 | A span `open content close` at the start, with non-empty content free of the excluded character and an admitted following character, becomes `prefix content suffix`, followed by the replacement of the rest |
| RegexReplace.NoMatchAtStart | src/App.jsx:22-25 | Where no match starts at the first character, that character is kept and the replacement of the rest is unaffected |
| TextFormat.BoldPassIdentity | src/App.jsx:13 | The bold pass returns every string unchanged |
| TextFormat.ItalicPassIdentity | src/App.jsx:16 | The italic pass returns every string unchanged, whatever its lookbehind and lookahead decide |
| TextFormat.StrikePassIdentity | src/App.jsx:19 | The strikethrough pass returns every string unchanged |
| TextFormat.FormatTextIsMonoThenSpoiler | src/App.jsx:9-28 | The whole of formatText equals the spoiler pass applied to the monospace pass |
| TextFormat.FormatTextPlain | src/App.jsx:9-28 | Text with no backtick and no two pipes in a row is returned unchanged by formatText |
| TextFormat.FormatTextPlainNoPipe | src/App.jsx:9-28 | Text with no backtick and no pipe is returned unchanged by formatText |
| TextFormat.MonoPassWithoutBacktick | src/App.jsx:22 | Text without a backtick is unchanged by the monospace pass |
| TextFormat.MonoAfterRun | src/App.jsx:22 | Text before the first backtick is copied, and the rest is rewritten on its own |
| TextFormat.MonoSpan | src/App.jsx:22 | A backtick, non-empty backtick-free content and a backtick become the content between triple backticks, followed by the pass over the rest |
| TextFormat.MonoEmptyPair | src/App.jsx:22 | The empty pair "``" is no match: the first backtick stays literal and the second may still open a span |
| TextFormat.MonoLoneBacktick | src/App.jsx:22 | A backtick with no backtick after it stays literal, with the text after it |
| TextFormat.MonoLength | src/App.jsx:22 | The monospace pass adds exactly four characters per match |
| TextFormat.MonoNotIdempotent | src/App.jsx:22 | The pass turns content between single backticks into content between triple backticks and, run again on that, puts five backticks on each side: it is not idempotent |
| TextFormat.SpoilerPassWithoutDoublePipe | src/App.jsx:25 | Text without two pipes in a row is unchanged by the spoiler pass |
| TextFormat.SpoilerPassWithoutPipe | src/App.jsx:25 | Text without a pipe is unchanged by the spoiler pass |
| TextFormat.SpoilerAfterRun | src/App.jsx:25 | Text before the first pipe is copied, and the rest is rewritten on its own |
| TextFormat.SpoilerSpan | src/App.jsx:25 | Two pipes, non-empty pipe-free content and two pipes become a space, the content and a space; the pipes are dropped |
| TextFormat.SpoilerLonePipe | src/App.jsx:25 | A pipe not followed by a pipe stays literal |
| TextFormat.SpoilerTriplePipe | src/App.jsx:25 | Three pipes start no span: the first stays literal and the next two may still open one |
| TextFormat.SpoilerUnclosed | src/App.jsx:25 | An opening pair of pipes that is never closed stays literal with the text after it |
| TextFormat.SpoilerSingleClose | src/App.jsx:25 | An opening pair of pipes whose content is followed by a single pipe is no match: the first pipe stays literal and the scan goes on from the second |
| TextFormat.SpoilerLength | src/App.jsx:25 | The spoiler pass removes exactly two characters per match |
| TextFormat.FormatTextMonoSpan | src/App.jsx:9-28 | Plain content between single backticks comes out of formatText between triple backticks |
| TextFormat.FormatTextSpoilerSpan | src/App.jsx:9-28 | Plain text followed by a spoiler with plain content comes out with the pipes replaced by one space on each side |
| TextFormat.MonoBeforeSpoiler | src/App.jsx:22-25 | Monospace runs first, so a spoiler around a monospace span becomes a space, the triple-backtick span and a space: the spoiler content holds the backticks the monospace pass produced |
| WhatsAppFormatter.TrimEmptyIffBlank | src/App.jsx:53 | `trim()` leaves nothing exactly when every character of the text is whitespace |
| WhatsAppFormatter.ApplyFormatBlank | src/App.jsx:53 | On empty or whitespace-only input every format leaves the text unchanged |
| WhatsAppFormatter.ApplyFormatWraps | src/App.jsx:55-68 | On non-blank input, bold, italic, strike and mono give `c + text + c` with `c` = `*`, `_`, `~` or a backtick |
| WhatsAppFormatter.ApplyFormatUnrecognised | src/App.jsx:55-68 | An unrecognised format name leaves the marker empty and the text unchanged |
| WhatsAppFormatter.ApplyFormatSpoiler | src/App.jsx:61-68 | On non-blank input the spoiler gives "[SPOILER]", 4000 zero-width spaces, the text and "[SPOILER]": 4018 characters more than the text |
| WhatsAppFormatter.ApplyFormatRoundTrip | src/App.jsx:52-68 | Removing the marker (and the padding) from the result gives the original text back, for every format and text |
| WhatsAppFormatter.MonoButtonThenFormat | src/App.jsx:60-68 | The mono button's output on plain text is a monospace span, which formatText turns into triple backticks |
| WhatsAppFormatter.OtherButtonsSurviveFormat | src/App.jsx:57-68 | The outputs of the other buttons on text with no backtick and no two pipes in a row pass through formatText unchanged; the `[SPOILER]` wrapping is not the double-pipe form formatText rewrites |
| WhatsAppFormatter.DoublePipeInside | src/App.jsx:57-68 | Markers and padding free of pipes cannot bring two pipes in a row into the wrapped text: any such pair lies inside the text |
| WhatsAppFormatter.PresetSpoiler | src/App.jsx:77-78 | The first preset message comes out of formatText as "The movie ending:  The butler did it " |
| WhatsAppFormatter.FormatTextEmpty | src/App.jsx:5-6 | The empty initial input and the empty initial formatted text agree with formatText |
| WhatsAppFormatter.FormatterState.constructor | src/App.jsx:5-6 | Both texts start empty, and the derivation already holds |
| WhatsAppFormatter.FormatterState.RecomputeFormatted | src/App.jsx:30-32 | The effect sets the formatted text to formatText of the input text and changes nothing else |
| WhatsAppFormatter.FormatterState.SetInputText | src/App.jsx:106 | Typing replaces the input text, and the derivation holds again afterwards |
| WhatsAppFormatter.FormatterState.LoadPreset | src/App.jsx:202-205 | A preset button loads its message as the input text, and the derivation holds |
| WhatsAppFormatter.FormatterState.ApplyFormat | src/App.jsx:52-69 | A format button sets the input text to WholeTextFormat of the old one and keeps the derivation; on blank input both texts stay as they were |

## Left out

- Rendering, styling and the `length/1000` counter (`src/App.jsx:83-273`) are display only. The check that disables the buttons on blank input is left out too; `ApplyFormat` has the same guard itself.
- `copyToClipboard` and the `copySuccess` indicator (`src/App.jsx:34-50`) are left out. They call the browser clipboard API, build a temporary DOM `textarea`, and reset a flag on a 2-second timer.
- Focusing the text area after a format button (`src/App.jsx:71-74`) is a DOM side effect on a timer and is left out.
- React's `useState`/`useEffect` scheduling is not modelled. `SetInputText` re-derives the formatted text at once, which is the state the effect establishes.
- The reassignment of the `inputText` binding at `src/App.jsx:63` is a local variable in `ApplyFormat`. Nothing reads that binding again before the component re-renders with the new state.
- Characters are Unicode scalar values, while JavaScript strings are sequences of UTF-16 code units. Every delimiter, template and padding character here is a single code unit, so each length fact holds per code unit as well. A character outside the Basic Multilingual Plane counts once here and twice in JavaScript.
- `trim()` is modelled with ECMAScript's WhiteSpace and LineTerminator characters, the space separators taken from current Unicode. Later additions to that category are not tracked.
- Only the regular-expression shape the five passes use is modelled, not a general engine. `MatchAtComplete` and `MatchAtExact` need the closing delimiter to start with the excluded character; every pattern of the formatter meets that.
- Concrete outputs are proved for the first preset message only (`PresetSpoiler`). The other two have the same shape, and `FormatTextSpoilerSpan` covers them.
