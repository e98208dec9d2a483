# JQuill in Dafny

A verified model of the core of JQuill, a Java library that writes styled
console output through ANSI escape sequences. The model covers four parts:

- **The style engine (`Style.java`).** A style is its code string. It covers:
  - composition with `and`;
  - the truecolor, 256-colour and hex colour builders, with the hex parser's validation and exception;
  - `open` and `close`;
  - the lock markers `ESC[?200h` and `ESC[?200l`, with `lock`, `unlock` and `isLocked`;
  - the lock-aware renderer `processLocks` and its wrapper `apply`.

  The renderer splits a message before every LOCK_START and after every
  LOCK_END. It copies a segment that holds both markers as it is. In any
  other segment it scans for `ESC [ [0-9;?]* [A-Za-z]` and does three things:
  - it copies every match;
  - it wraps every non-empty run of text before a match in the style codes and a reset;
  - it replaces the run after the last match with the style codes and a reset.
- **The levelled printer (`Debug.java`).** This is a class whose fields are the printer's static configuration. It has:
  - setters and getters;
  - the ELAPSED/NONE timestamp;
  - the label or glyph prefix;
  - the unified `print(level, …)` with its priority filter;
  - the five shortcuts with their `Boolean` override;
  - plain `print`/`println(msg, styles…)`.

  Standard output is the field `out`, which holds one string per write.
- **`Level.java`.** The two levels, LOW(1) and HIGH(2), and the filter they drive.
- **`LockedPrintStream.java`.** This is a class with the stream's private builder `buffer`, which is never cleared. It also has the sequence `out` of writes the wrapped stream receives.

Modules:
- `Wrappers`: holds Option and Result.
- `Text`: covers decimal and hexadecimal digits, `%0Nd` padding, literal occurrence and `replace`, and `trim`.
- `Levels`, `Styles`, `LockProcessing`, `DebugOutput` and `LockedPrintStreams`.

A call reads three things from its surroundings, which arrive as an `Env` parameter:
- the current thread's name;
- the milliseconds since the printer was loaded;
- the local wall-clock text for a `DateTimeFormatter` pattern.

The regular expressions become hand-written predicates and functions:
- the split pattern `(?=ESC\[\?200h)|(?<=ESC\[\?200l)` becomes `IsCut`, `NextCut` and `Split`;
- the scanner pattern `ESC\[[0-9;?]*[A-Za-z]` becomes `IsMatchAt`, `MatchEnd` and `NextMatch`.

`processLocks` is an imperative method. It has the segment loop and the `matcher.find()` loop with its `lastIdx`. This method is proved equal to the function `Rendered`, and the properties of the output are lemmas about `Rendered`.

Where the code and its documentation disagree, the model follows the code:

- **The last run of text is dropped.** The run of text after the last escape sequence of a segment is replaced by the style codes and a reset, so its text is lost. This includes a whole segment with no escape sequence. The doc comment of `apply`, by contrast, promises the text wrapped in the styles (`LockProcessing.PlainTextDropped`, `DebugOutput.PlainLineLosesText`).
- **`LockedPrintStream.println(x)` does not write what `print(x)` would.** The inherited `PrintStream.println(String)` dispatches back to the overriding `print`, so the rendering is rendered a second time and appended to the builder again (`LockedPrintStreams.PrintlnRendersTwice`).
- **A locked span is guaranteed to come out verbatim only when its text holds neither marker.** A span whose text holds a marker can be split and restyled. For example, `lock(LOCK_END + "x")` is split after its inner LOCK_END, and the `x` that follows is styled (`LockProcessing.LockedMarkerRestyled`). This is why the lemmas about locked text require marker-free text.
- **`unlock` is one pass of `replace`.** It can assemble a new marker out of the pieces around a deleted one, so `unlock` does not always remove every marker (`Styles.UnlockCanLeaveMarker`).

## Model

| member | source | states |
|---|---|---|
| Text.NatToDecimal | src/main/java/org/jquill/Style.java:187 | `%d` of a natural number is a non-empty digit string that starts with `0` only for zero |
| Text.IntToDecimal | src/main/java/org/jquill/Style.java:187 | `%d` of an int is non-empty and is all digits exactly when the int is not negative |
| Text.DecimalRoundTrip | src/main/java/org/jquill/Style.java:187 | reading the decimal rendering back gives the number |
| Text.ZeroPadProperties | src/main/java/org/jquill/Debug.java:63 | `%0wd` of a number below 10^w is exactly w digits wide and reads back as the number |
| Text.DeleteAbsent | src/main/java/org/jquill/Style.java:142 | `replace(m, "")` leaves a string without `m` unchanged |
| Text.Delete | src/main/java/org/jquill/Style.java:142 | `replace(m, "")`: one left-to-right pass that drops every non-overlapping occurrence and never grows the string; specified by `DeleteAbsent`, `UnlockLock` and `UnlockCanLeaveMarker` |
| Text.Trim | src/main/java/org/jquill/Debug.java:111 | `trim()`: drops leading and trailing characters up to U+0020, never growing the string; `TrimPadded` states what it does to a padded label |
| Levels.Level.Priority | src/main/java/org/jquill/Level.java:50-52 | a priority is 1 or 2 |
| Levels.PriorityValues | src/main/java/org/jquill/Level.java:28-31 | LOW is 1, HIGH is 2, and HIGH is higher than LOW |
| Levels.ThresholdBehaviour | src/main/java/org/jquill/Debug.java:99 | under LOW every level is shown; under HIGH exactly HIGH is shown |
| Styles.AndAssociative | src/main/java/org/jquill/Style.java:163-165 | `and` is associative, and the code of a composite is the codes in order |
| Styles.Style.And | src/main/java/org/jquill/Style.java:163-165 | the composite whose code is this code followed by the other's; `AndAssociative` states its algebra |
| Styles.CodesCompose | src/main/java/org/jquill/Style.java:274-278 | appending the codes of several styles equals the code of their left-to-right composition, and splits over concatenation of the arguments |
| Styles.FgIsSgr | src/main/java/org/jquill/Style.java:186-188 | `fg(r, g, b)` is the SGR sequence 38;2;r;g;b in decimal, with no range check |
| Styles.Fg | src/main/java/org/jquill/Style.java:186-188 | the truecolor foreground builder; `FgIsSgr` states its SGR form and `HexAnySpelling` ties it to the hex spellings |
| Styles.BgIsSgr | src/main/java/org/jquill/Style.java:198-200 | `bg(r, g, b)` is the SGR sequence 48;2;r;g;b in decimal, with no range check |
| Styles.Bg | src/main/java/org/jquill/Style.java:198-200 | the truecolor background builder; `BgIsSgr` states its SGR form |
| Styles.IndexedAreSgr | src/main/java/org/jquill/Style.java:228-240 | `fg256(n)` and `bg256(n)` are the SGR sequences 38;5;n and 48;5;n |
| Styles.Fg256 | src/main/java/org/jquill/Style.java:228-230 | the indexed foreground builder; `IndexedAreSgr` states its SGR form |
| Styles.Bg256 | src/main/java/org/jquill/Style.java:238-240 | the indexed background builder; `IndexedAreSgr` states its SGR form |
| Styles.ConstantsAreSgr | src/main/java/org/jquill/Style.java:43-48 | RESET and ITALIC are the SGR sequences 0 and 3, and `close()` is SGR 0 |
| Styles.ParseHex | src/main/java/org/jquill/Style.java:242-251 | parsing succeeds exactly for a non-null string of an optional `#` and six hex digits of either case |
| Styles.HexRoundTrip | src/main/java/org/jquill/Style.java:246-250 | the upper-case `#RRGGBB` and `RRGGBB` spellings parse to the same code as the RGB builders, for foreground and background |
| Styles.HexCaseInsensitive | src/main/java/org/jquill/Style.java:243-249 | two accepted spellings that agree once upper-cased parse to the same result, for foreground and background |
| Styles.HexAnySpelling | src/main/java/org/jquill/Style.java:243-250 | every accepted spelling of `r, g, b`, with or without `#` and in any mix of cases, parses to `fg(r, g, b)` and `bg(r, g, b)` |
| Styles.FgHex | src/main/java/org/jquill/Style.java:208-210 | `fg(String hex)` is `parseHex(hex, true)`; specified by `ParseHex`, `HexAnySpelling` and `HexRejections` |
| Styles.BgHex | src/main/java/org/jquill/Style.java:218-220 | `bg(String hex)` is `parseHex(hex, false)`; specified by `ParseHex`, `HexAnySpelling` and `HexRejections` |
| Styles.HexRejections | src/main/java/org/jquill/Style.java:243-245 | every rejection is IllegalArgumentException whose message is `Invalid hex color: ` followed by the input, or by `null` for a null input |
| Styles.HexRedExample | src/main/java/org/jquill/Style.java:208-210 | `fg("#FF0000")` is `fg(255, 0, 0)` |
| Styles.HexRejectExamples | src/main/java/org/jquill/Style.java:208-210 | `fg("invalid")` and `fg(null)` throw |
| Styles.HexSpellingExample | src/main/java/org/jquill/Style.java:208-210 | `fg("#ff0000")` and `fg("FF0000")` give the same result |
| Styles.MarkerShape | src/main/java/org/jquill/Style.java:122-123 | each marker is 7 characters, with the escape character at its head only |
| Styles.Lock | src/main/java/org/jquill/Style.java:131-133 | `lock(msg)` puts the text between LOCK_START and LOCK_END; `LockIsLocked`, `UnlockLock` and `LockedVerbatim` specify it |
| Styles.Unlock | src/main/java/org/jquill/Style.java:141-143 | `unlock(msg)` deletes LOCK_START and then LOCK_END with one `replace` pass each; `UnlockLock` and `UnlockCanLeaveMarker` specify it |
| Styles.IsLocked | src/main/java/org/jquill/Style.java:151-153 | `isLocked(msg)` holds when both markers occur somewhere; `LockIsLocked`, `LockedAnyOrder` and `LockedNeedsBoth` specify it |
| Styles.LockIsLocked | src/main/java/org/jquill/Style.java:131-153 | `isLocked(lock(m))` holds for every `m` |
| Styles.LockedAnyOrder | src/main/java/org/jquill/Style.java:151-153 | any string with both markers, in either order and with anything around them, is locked |
| Styles.LockedNeedsBoth | src/main/java/org/jquill/Style.java:151-153 | without LOCK_END a string is not locked, even with LOCK_START put in front |
| Styles.UnlockLock | src/main/java/org/jquill/Style.java:131-143 | `unlock(lock(m)) == m` when `m` holds neither marker |
| Styles.UnlockCanLeaveMarker | src/main/java/org/jquill/Style.java:141-143 | one pass of `replace` can join the pieces around a deleted marker into a new LOCK_START |
| Styles.AppendCodes | src/main/java/org/jquill/Style.java:276 | the append loop adds the codes of the styles in argument order to the builder |
| Styles.Open | src/main/java/org/jquill/Style.java:274-278 | `open(styles…)` is the code of the composition of the styles |
| Styles.Close | src/main/java/org/jquill/Style.java:285-287 | `close()` is the reset sequence SGR 0 |
| LockProcessing.NextCut | src/main/java/org/jquill/Style.java:302 | the next split point after a position is a cut (or the end), with no cut in between |
| LockProcessing.Split | src/main/java/org/jquill/Style.java:302 | the segments of the message around the split pattern; `SplitSemantics` and `SplitConcat` specify them |
| LockProcessing.SplitSemantics | src/main/java/org/jquill/Style.java:302 | the segments concatenate back to the message; `""` gives one empty segment; otherwise no segment is empty; segment boundaries are exactly the cuts |
| LockProcessing.SplitConcat | src/main/java/org/jquill/Style.java:302 | a message joined at a lock boundary splits into the segments of its halves |
| LockProcessing.MatchEnd | src/main/java/org/jquill/Style.java:291 | a match spans a string of the pattern's language |
| LockProcessing.MatchCharacterization | src/main/java/org/jquill/Style.java:291 | a slice is in the pattern's language exactly when the pattern matches at its start and ends at the match end |
| LockProcessing.NextMatch | src/main/java/org/jquill/Style.java:310 | `find()` returns the leftmost match at or after the position, or none when there is no match |
| LockProcessing.ScanProperties | src/main/java/org/jquill/Style.java:308-319 | the scanner's tokens concatenate back to the segment, each is well formed, and no two literals are adjacent |
| LockProcessing.ScanFrom | src/main/java/org/jquill/Style.java:308-319 | the literal runs and escape sequences of a segment, in the order the matcher visits them; `ScanProperties` specifies them |
| LockProcessing.RenderTokens | src/main/java/org/jquill/Style.java:311-324 | what the matcher loop and its tail append for those tokens; `RenderTokensLiteral`, `ScanStep` and `ScanEnd` specify it, and `RenderUnlocked` is proved to compute it |
| LockProcessing.RenderSegment | src/main/java/org/jquill/Style.java:305-325 | a locked segment as it is, any other through its tokens; `ProcessSegment` is proved to compute it |
| LockProcessing.Rendered | src/main/java/org/jquill/Style.java:301-329 | what `processLocks` appends for a message; `ProcessLocks` is proved to compute it, and `RenderedConcat`, `LockedSpliced`, `EscapeFlanked` and `PlainTextDropped` state its properties |
| LockProcessing.RenderTokensLiteral | src/main/java/org/jquill/Style.java:311-317 | a literal before an escape sequence becomes the codes, the text and a reset, then the sequence |
| LockProcessing.ScanStep | src/main/java/org/jquill/Style.java:310-318 | one round of the matcher emits the run before the match (if non-empty) and then the match |
| LockProcessing.ScanEnd | src/main/java/org/jquill/Style.java:320-324 | after the last match, remaining text emits the codes and a reset only |
| LockProcessing.AppendRun | src/main/java/org/jquill/Style.java:313-315 | the builder gains the codes, the text and a reset |
| LockProcessing.AppendMatch | src/main/java/org/jquill/Style.java:311-318 | one loop round appends the run before the match (nothing if empty) and the match, and moves to the match end |
| LockProcessing.AppendTail | src/main/java/org/jquill/Style.java:320-324 | the tail of a segment appends what the rendering specifies: codes and reset only when text remains |
| LockProcessing.RenderUnlocked | src/main/java/org/jquill/Style.java:308-324 | the matcher loop appends the token rendering of the whole segment |
| LockProcessing.ProcessSegment | src/main/java/org/jquill/Style.java:305-325 | a locked segment is appended as it is; any other is rendered |
| LockProcessing.ProcessSegments | src/main/java/org/jquill/Style.java:304-326 | the segment loop appends the renderings of all segments in order |
| LockProcessing.ProcessLocks | src/main/java/org/jquill/Style.java:301-329 | the result is the builder's prior contents followed by the rendering of the message |
| LockProcessing.Apply | src/main/java/org/jquill/Style.java:262-266 | null comes back as null and `""` as `""`; any other message renders from an empty builder |
| LockProcessing.RenderedEmpty | src/main/java/org/jquill/Style.java:301-329 | the empty message renders to nothing |
| LockProcessing.PlainTextDropped | src/main/java/org/jquill/Style.java:320-324 | a non-empty message with no escape character renders to the codes and a reset: its text is lost |
| LockProcessing.LockedVerbatim | src/main/java/org/jquill/Style.java:305-306 | a locked marker-free text renders to itself, whatever the styles |
| LockProcessing.RenderedConcat | src/main/java/org/jquill/Style.java:302-326 | rendering distributes over a join at a lock boundary |
| LockProcessing.LockedPrefix | src/main/java/org/jquill/Style.java:302-306 | a leading locked span is kept and the rest is rendered on its own |
| LockProcessing.LockedSuffix | src/main/java/org/jquill/Style.java:302-306 | a trailing locked span is kept and what precedes it is rendered on its own |
| LockProcessing.LockedSpliced | src/main/java/org/jquill/Style.java:302-306 | a locked span anywhere is kept and the text around it is rendered on its own |
| LockProcessing.LockedMarkerRestyled | src/main/java/org/jquill/Style.java:302-324 | `lock(LOCK_END + "x")` renders to LOCK_START, LOCK_END, `x`, a reset and LOCK_END, which differs from its input: a locked span holding a marker is not kept verbatim |
| LockProcessing.EscapeFlanked | src/main/java/org/jquill/Style.java:308-324 | one non-marker escape sequence between escape-free runs: the first run is wrapped in codes and reset, the sequence is copied, the second run becomes codes and reset; empty runs emit nothing |
| DebugOutput.Debug.constructor | src/main/java/org/jquill/Debug.java:43-47 | the defaults: type and thread hidden, ELAPSED, LOW, `HH:mm:ss`, nothing written |
| DebugOutput.Debug.SetLevel | src/main/java/org/jquill/Debug.java:227-229 | stores the level, LOW for null |
| DebugOutput.Debug.GetLevel | src/main/java/org/jquill/Debug.java:235-237 | returns the stored level |
| DebugOutput.Debug.SetShowType | src/main/java/org/jquill/Debug.java:243-245 | stores the flag |
| DebugOutput.Debug.IsShowType | src/main/java/org/jquill/Debug.java:251-253 | returns the stored flag |
| DebugOutput.Debug.SetTimeMode | src/main/java/org/jquill/Debug.java:259-261 | stores the mode, ELAPSED for null |
| DebugOutput.Debug.GetTimeMode | src/main/java/org/jquill/Debug.java:267-269 | returns the stored mode |
| DebugOutput.Debug.SetTimeFormat | src/main/java/org/jquill/Debug.java:275-279 | stores a non-blank pattern; null or blank leaves the old one |
| DebugOutput.Debug.GetTimeFormat | src/main/java/org/jquill/Debug.java:285-287 | returns the stored pattern |
| DebugOutput.Debug.SetShowThread | src/main/java/org/jquill/Debug.java:293-295 | stores the flag |
| DebugOutput.Debug.IsShowThread | src/main/java/org/jquill/Debug.java:301-303 | returns the stored flag |
| DebugOutput.Debug.Print | src/main/java/org/jquill/Debug.java:80-83 | writes the rendering of the message from a fresh builder, with no terminator |
| DebugOutput.Debug.Println | src/main/java/org/jquill/Debug.java:91-94 | writes the rendering and the line terminator in one write |
| DebugOutput.Debug.BuildPrefix | src/main/java/org/jquill/Debug.java:102-122 | builds the locked thread tag (if shown), the label or glyph, the timestamp and the message, in that order |
| DebugOutput.Debug.PrintLeveled | src/main/java/org/jquill/Debug.java:98-127 | appends nothing when the level is below the threshold, else the prefixed message rendered with the one style plus the terminator |
| DebugOutput.Debug.Info | src/main/java/org/jquill/Debug.java:144-146 | LOW, `[INFO]    `, style INFO; the override replaces `showType` for this call only |
| DebugOutput.Debug.Log | src/main/java/org/jquill/Debug.java:159-161 | LOW, `[LOG]     `, style LOG; the override replaces `showType` for this call only |
| DebugOutput.Debug.Warn | src/main/java/org/jquill/Debug.java:174-176 | HIGH, `[WARN]    `, style WARNING; the override replaces `showType` for this call only |
| DebugOutput.Debug.Error | src/main/java/org/jquill/Debug.java:189-191 | HIGH, `[ERROR]   `, style ERROR; the override replaces `showType` for this call only |
| DebugOutput.Debug.Success | src/main/java/org/jquill/Debug.java:204-206 | HIGH, `[SUCCESS] `, style SUCCESS; the override replaces `showType` for this call only |
| DebugOutput.LevelFilter | src/main/java/org/jquill/Debug.java:99 | a call is dropped exactly when it is LOW under a HIGH threshold; otherwise exactly one line is written |
| DebugOutput.ElapsedStampFormat | src/main/java/org/jquill/Debug.java:58-63 | the ELAPSED stamp is the 12 characters `[MM:SS:mmm] `, whose fields read back as minutes mod 60, seconds mod 60 and milliseconds mod 1000 |
| DebugOutput.ElapsedStampWraps | src/main/java/org/jquill/Debug.java:59-63 | two elapsed times give the same stamp exactly when they agree modulo one hour |
| DebugOutput.ElapsedStampPeriodic | src/main/java/org/jquill/Debug.java:59-63 | adding whole hours leaves the stamp unchanged |
| DebugOutput.FormatTimeModes | src/main/java/org/jquill/Debug.java:55-66 | the stamp is empty exactly in mode NONE, and 12 characters in ELAPSED |
| DebugOutput.ElapsedStamp | src/main/java/org/jquill/Debug.java:58-63 | the `[MM:SS:mmm] ` stamp of the elapsed milliseconds; `ElapsedStampFormat` and `ElapsedStampWraps` specify it |
| DebugOutput.FormatTime | src/main/java/org/jquill/Debug.java:55-66 | the stamp of the current mode; `FormatTimeModes` specifies it |
| DebugOutput.FormatThread | src/main/java/org/jquill/Debug.java:68-70 | `[name] ` of the current thread; `TagMarkerFree` states when it is marker-free |
| DebugOutput.IsBlank | src/main/java/org/jquill/Debug.java:276 | `isBlank()`: every character is whitespace; `Debug.SetTimeFormat` uses it to ignore blank patterns |
| DebugOutput.TrimPadded | src/main/java/org/jquill/Debug.java:111 | `trim` removes the padding spaces of a label |
| DebugOutput.LabelsAndGlyphs | src/main/java/org/jquill/Debug.java:111-118 | the five labels are 10 characters wide and the glyph table maps them to `i `, `* `, `? `, `x `, `+ `, so the empty default is never taken |
| DebugOutput.Glyph | src/main/java/org/jquill/Debug.java:111-118 | the switch on the trimmed label; `LabelsAndGlyphs` gives its value for each of the five labels |
| DebugOutput.Prefix | src/main/java/org/jquill/Debug.java:102-121 | the locked thread tag (if shown), the label or glyph, then the stamp; `Debug.BuildPrefix` is proved to compute it |
| DebugOutput.Line | src/main/java/org/jquill/Debug.java:122-125 | the prefixed message rendered with the one style, then the terminator; `ThreadTagVerbatim` and `PlainLineLosesText` state its shape |
| DebugOutput.Emitted | src/main/java/org/jquill/Debug.java:98-127 | nothing when the level is filtered out, else the one line; `LevelFilter` specifies it and `Debug.PrintLeveled` writes it |
| DebugOutput.TagMarkerFree | src/main/java/org/jquill/Debug.java:68-70 | the thread tag of a marker-free name holds no marker |
| DebugOutput.ThreadTagVerbatim | src/main/java/org/jquill/Debug.java:104-125 | with the thread shown and a marker-free name, the locked tag heads the line verbatim and the rest is rendered on its own |
| DebugOutput.PlainLineLosesText | src/main/java/org/jquill/Debug.java:104-125 | for a shortcut, a message with no escape character, outside ABSOLUTE mode: the line is the tag (if shown), the style code, a reset and the terminator; label, stamp and message are lost |
| LockedPrintStreams.LockedPrintStream.constructor | src/main/java/org/jquill/LockedPrintStream.java:23-32 | a new stream has an empty builder and has written nothing |
| LockedPrintStreams.LockedPrintStream.Print | src/main/java/org/jquill/LockedPrintStream.java:34-37 | the builder becomes its old contents plus the unstyled rendering, and the whole builder is written; it only grows |
| LockedPrintStreams.LockedPrintStream.Println | src/main/java/org/jquill/LockedPrintStream.java:39-42 | the rendering is rendered again by the dispatched `print`, the builder grows twice, and the builder and a terminator are written |
| LockedPrintStreams.AfterPrint | src/main/java/org/jquill/LockedPrintStream.java:36 | the builder after one `print`; `PrintReEmits`, `UnstyledEscape` and `UnstyledLock` specify it |
| LockedPrintStreams.PrintReEmits | src/main/java/org/jquill/LockedPrintStream.java:34-37 | each write starts with the previous write: earlier renderings are re-emitted |
| LockedPrintStreams.UnstyledEscape | src/main/java/org/jquill/LockedPrintStream.java:34-37 | with no styles, an escape sequence is copied, a non-empty gap before it becomes the gap and a reset, and a non-empty tail becomes a bare reset |
| LockedPrintStreams.UnstyledLock | src/main/java/org/jquill/LockedPrintStream.java:34-37 | with no styles, a locked marker-free span is written verbatim between the renderings of its surroundings |
| LockedPrintStreams.PrintlnRendersTwice | src/main/java/org/jquill/LockedPrintStream.java:39-42 | on a fresh stream `print("a")` writes one reset, while `println("a")` writes two resets before the terminator |

## Left out

- Concurrency: `synchronized (OUT)`, the `volatile` fields and the thread-safety claims; the model is single-threaded, so each emit appends its whole line as one write.
- ABSOLUTE mode: `LocalTime.now()` and `DateTimeFormatter` are foreign code. The formatted wall-clock text is an uninterpreted function `Env.wallClock` of the pattern, and invalid patterns, which would throw, are not modelled.
- The clock and the thread: `System.currentTimeMillis()`, `START_TIME` and `Thread.currentThread().getName()` are replaced by the `Env` fields. Elapsed time is a natural number, so a clock that runs backwards, giving negative stamps, is not modelled.
- `sleep`: a blocking `Thread.sleep`, which has no effect on output beyond an `info` call.
- `System.out` and the rest of `PrintStream`: the sink is a sequence of written strings, and overloads other than `print(String)`/`println(String)` are not modelled. The line separator is taken to be `"\n"`.
- The colour constants other than those behind the semantic aliases (SILVER, RED, AMBER, GREEN, CYAN, ITALIC, RESET), including the unused alias MUTED and the record accessor `getCode`.
- Java's 16-bit `char`s: strings are sequences of Dafny characters, so surrogate pairs are not modelled. `%d` is taken with ASCII digits, independent of the locale.
- Java `null`: only where the source branches on it (`apply`, `parseHex`, `setLevel`, `setTimeMode`, `setTimeFormat`, the `Boolean` override); elsewhere arguments are non-null.
- `Main.java` and `JQuill.java`: a demo entry point and a façade with no logic of its own.
