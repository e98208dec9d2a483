/**
 * The leveled printer of `Debug.java`. Its static configuration becomes the
 * fields of one `Debug` object; standard output becomes the sequence `out`
 * of strings written to it, one element per write. What a call reads from
 * its surroundings (the thread name, the time since start-up, the local
 * wall-clock) arrives as an `Env`.
 */
module DebugOutput {
  import opened Wrappers
  import opened Text
  import opened Levels
  import opened Styles
  import opened LockProcessing

  /** `TimeMode.java`: the three timestamp modes. */
  datatype TimeMode = NONE | ABSOLUTE | ELAPSED

  /**
   * What a call observes outside the printer: the current thread's name, the
   * milliseconds since the printer was loaded, and the local wall-clock time
   * rendered with a `DateTimeFormatter` pattern.
   */
  datatype Env = Env(threadName: string, elapsedMillis: nat, wallClock: string -> string)

  /** The printer's configuration, as read at the start of a call. */
  datatype Config = Config(showType: bool, showThread: bool, timeMode: TimeMode, currentLevel: Level, timeFormat: string)

  /** The fixed-width labels the five shortcuts pass. */
  const INFO_LABEL: string := "[INFO]    "
  const LOG_LABEL: string := "[LOG]     "
  const WARN_LABEL: string := "[WARN]    "
  const ERROR_LABEL: string := "[ERROR]   "
  const SUCCESS_LABEL: string := "[SUCCESS] "

  // ------------------ Time and thread helpers ------------------

  /** The ELAPSED stamp `[MM:SS:mmm] `: minutes modulo the hour, seconds, milliseconds. */
  function ElapsedStamp(elapsed: nat): (stamp: string) {
    "[" + ZeroPad((elapsed / 60000) % 60, 2) + ":" + ZeroPad((elapsed / 1000) % 60, 2) + ":" + ZeroPad(elapsed % 1000, 3) + "] "
  }

  /** `formatTime()`. */
  function FormatTime(mode: TimeMode, format: string, env: Env): (stamp: string) {
    match mode
    case ABSOLUTE => "[" + env.wallClock(format) + "] "
    case ELAPSED => ElapsedStamp(env.elapsedMillis)
    case NONE => ""
  }

  /** `formatThread()`. */
  function FormatThread(env: Env): (tag: string) {
    "[" + env.threadName + "] "
  }

  /** The glyph that replaces a label when the type is hidden: `switch (label.trim())`. */
  function Glyph(typeLabel: string): (glyph: string) {
    var t := Trim(typeLabel);
    if t == "[INFO]" then "i "
    else if t == "[LOG]" then "* "
    else if t == "[WARN]" then "? "
    else if t == "[ERROR]" then "x "
    else if t == "[SUCCESS]" then "+ "
    else ""
  }

  /** Java's `Character.isWhitespace`. */
  predicate IsWhitespace(c: char) {
    c == ' ' || c == '\t' || c == '\n' || c == '\U{0B}' || c == '\U{0C}' || c == '\r' ||
    ('\U{1C}' <= c <= '\U{1F}') || c == '\U{1680}' || ('\U{2000}' <= c <= '\U{2006}') ||
    ('\U{2008}' <= c <= '\U{200A}') || c == '\U{2028}' || c == '\U{2029}' || c == '\U{205F}' || c == '\U{3000}'
  }

  /** Java's `String.isBlank`: empty or whitespace only. */
  predicate IsBlank(s: string) {
    forall i :: 0 <= i < |s| ==> IsWhitespace(s[i])
  }

  // ------------------ The unified print ------------------

  /** The unstyled prefix: the locked thread tag, the label or its glyph, the timestamp. */
  function Prefix(c: Config, typeLabel: string, showTypePrefix: bool, env: Env): (prefix: string) {
    (if c.showThread then Lock(FormatThread(env)) else "")
    + (if showTypePrefix then typeLabel else Glyph(typeLabel))
    + FormatTime(c.timeMode, c.timeFormat, env)
  }

  /** The line the unified print writes when the call is not filtered out. */
  function Line(c: Config, typeLabel: string, message: string, style: Style, showTypePrefix: bool, env: Env): (line: string) {
    Rendered(Prefix(c, typeLabel, showTypePrefix, env) + message, [style]) + LINE_SEPARATOR
  }

  /** What the unified print appends to the output: nothing, or one line. */
  function Emitted(c: Config, level: Level, typeLabel: string, message: string, style: Style, showTypePrefix: bool, env: Env): (written: seq<string>) {
    if !Shown(level, c.currentLevel) then [] else [Line(c, typeLabel, message, style, showTypePrefix, env)]
  }

  /** The state of the printer: its configuration and what it has written. */
  class Debug {
    var showType: bool
    var showThread: bool
    var timeMode: TimeMode
    var currentLevel: Level
    var timeFormat: string
    /** Everything written to standard output, one element per write. */
    var out: seq<string>

    /** The initial values of the static fields. */
    constructor ()
      ensures showType == false && showThread == false
      ensures timeMode == ELAPSED && currentLevel == LOW && timeFormat == "HH:mm:ss"
      ensures out == []
    {
      showType := false;
      showThread := false;
      timeMode := ELAPSED;
      currentLevel := LOW;
      timeFormat := "HH:mm:ss";
      out := [];
    }

    function Settings(): (config: Config)
      reads this
    {
      Config(showType, showThread, timeMode, currentLevel, timeFormat)
    }

    // ------------------ Configuration ------------------

    /** `setLevel`: null means LOW. */
    method SetLevel(level: Option<Level>)
      modifies this`currentLevel
      ensures currentLevel == if level.Some? then level.value else LOW
    {
      currentLevel := if level.Some? then level.value else LOW;
    }

    method GetLevel() returns (level: Level)
      ensures level == currentLevel
    {
      level := currentLevel;
    }

    method SetShowType(value: bool)
      modifies this`showType
      ensures showType == value
    {
      showType := value;
    }

    method IsShowType() returns (value: bool)
      ensures value == showType
    {
      value := showType;
    }

    /** `setTimeMode`: null means ELAPSED. */
    method SetTimeMode(mode: Option<TimeMode>)
      modifies this`timeMode
      ensures timeMode == if mode.Some? then mode.value else ELAPSED
    {
      timeMode := if mode.Some? then mode.value else ELAPSED;
    }

    method GetTimeMode() returns (mode: TimeMode)
      ensures mode == timeMode
    {
      mode := timeMode;
    }

    /** `setTimeFormat`: a null or blank pattern leaves the current one in place. */
    method SetTimeFormat(format: Option<string>)
      modifies this`timeFormat
      ensures format.Some? && !IsBlank(format.value) ==> timeFormat == format.value
      ensures format.None? || IsBlank(format.value) ==> timeFormat == old(timeFormat)
    {
      if format.Some? && !IsBlank(format.value) {
        timeFormat := format.value;
      }
    }

    method GetTimeFormat() returns (format: string)
      ensures format == timeFormat
    {
      format := timeFormat;
    }

    method SetShowThread(value: bool)
      modifies this`showThread
      ensures showThread == value
    {
      showThread := value;
    }

    method IsShowThread() returns (value: bool)
      ensures value == showThread
    {
      value := showThread;
    }

    // ------------------ Output ------------------

    /** `print(msg, styles...)`: the rendering, with no line terminator. */
    method Print(msg: string, styles: seq<Style>)
      modifies this`out
      ensures out == old(out) + [Rendered(msg, styles)]
    {
      var sb := "";
      var text := ProcessLocks(sb, msg, styles);
      assert sb + Rendered(msg, styles) == Rendered(msg, styles);
      out := out + [text];
    }

    /** `println(msg, styles...)`: the rendering and a line terminator, in one write. */
    method Println(msg: string, styles: seq<Style>)
      modifies this`out
      ensures out == old(out) + [Rendered(msg, styles) + LINE_SEPARATOR]
    {
      var sb := "";
      var text := ProcessLocks(sb, msg, styles);
      assert sb + Rendered(msg, styles) == Rendered(msg, styles);
      out := out + [text + LINE_SEPARATOR];
    }

    /** The prefix builder of the unified print, with the message appended. */
    method BuildPrefix(typeLabel: string, message: string, showTypePrefix: bool, env: Env) returns (prefix: string)
      ensures prefix == Prefix(Settings(), typeLabel, showTypePrefix, env) + message
    {
      ghost var tag := if showThread then Lock(FormatThread(env)) else "";
      ghost var shown := if showTypePrefix then typeLabel else Glyph(typeLabel);
      ghost var time := FormatTime(timeMode, timeFormat, env);
      assert Prefix(Settings(), typeLabel, showTypePrefix, env) == tag + shown + time;
      prefix := "";
      if showThread {
        prefix := prefix + Lock(FormatThread(env));
        assert prefix == tag;
      }
      if showTypePrefix {
        prefix := prefix + typeLabel;
      } else {
        prefix := prefix + Glyph(typeLabel);
      }
      assert prefix == tag + shown;
      prefix := prefix + FormatTime(timeMode, timeFormat, env);
      prefix := prefix + message;
    }

    /**
     * The unified `print(level, label, message, style, showTypePrefix)`:
     * a call below the current level writes nothing; any other writes one line.
     */
    method PrintLeveled(level: Level, typeLabel: string, message: string, style: Style, showTypePrefix: bool, env: Env)
      modifies this`out
      ensures out == old(out) + Emitted(old(Settings()), level, typeLabel, message, style, showTypePrefix, env)
    {
      if !Shown(level, currentLevel) {
        return;
      }
      var sb := "";
      var prefix := BuildPrefix(typeLabel, message, showTypePrefix, env);
      var line := ProcessLocks(sb, prefix, [style]);
      assert sb + Rendered(prefix, [style]) == Rendered(prefix, [style]);
      out := out + [line + LINE_SEPARATOR];
    }

    // ------------------ Level shortcuts ------------------
    // A `None` override is the one-argument overload, which passes null.

    /** `info(msg, override)`: LOW, labelled INFO, styled INFO. */
    method Info(msg: string, override: Option<bool>, env: Env)
      modifies this`out
      ensures out == old(out) + Emitted(Settings(), LOW, INFO_LABEL, msg, INFO, if override.Some? then override.value else showType, env)
    {
      PrintLeveled(LOW, INFO_LABEL, msg, INFO, if override.Some? then override.value else showType, env);
    }

    /** `log(msg, override)`: LOW, labelled LOG, styled LOG. */
    method Log(msg: string, override: Option<bool>, env: Env)
      modifies this`out
      ensures out == old(out) + Emitted(Settings(), LOW, LOG_LABEL, msg, LOG, if override.Some? then override.value else showType, env)
    {
      PrintLeveled(LOW, LOG_LABEL, msg, LOG, if override.Some? then override.value else showType, env);
    }

    /** `warn(msg, override)`: HIGH, labelled WARN, styled WARNING. */
    method Warn(msg: string, override: Option<bool>, env: Env)
      modifies this`out
      ensures out == old(out) + Emitted(Settings(), HIGH, WARN_LABEL, msg, WARNING, if override.Some? then override.value else showType, env)
    {
      PrintLeveled(HIGH, WARN_LABEL, msg, WARNING, if override.Some? then override.value else showType, env);
    }

    /** `error(msg, override)`: HIGH, labelled ERROR, styled ERROR. */
    method Error(msg: string, override: Option<bool>, env: Env)
      modifies this`out
      ensures out == old(out) + Emitted(Settings(), HIGH, ERROR_LABEL, msg, ERROR, if override.Some? then override.value else showType, env)
    {
      PrintLeveled(HIGH, ERROR_LABEL, msg, ERROR, if override.Some? then override.value else showType, env);
    }

    /** `success(msg, override)`: HIGH, labelled SUCCESS, styled SUCCESS. */
    method Success(msg: string, override: Option<bool>, env: Env)
      modifies this`out
      ensures out == old(out) + Emitted(Settings(), HIGH, SUCCESS_LABEL, msg, SUCCESS, if override.Some? then override.value else showType, env)
    {
      PrintLeveled(HIGH, SUCCESS_LABEL, msg, SUCCESS, if override.Some? then override.value else showType, env);
    }
  }

  // ------------------ Properties ------------------

  /** The ELAPSED stamp is 12 characters, `[MM:SS:mmm] `, and its fields read back as minutes, seconds and milliseconds. */
  lemma {:induction false} ElapsedStampFormat(e: nat)
    ensures var s := ElapsedStamp(e);
      |s| == 12 && s[0] == '[' && s[3] == ':' && s[6] == ':' && s[10..] == "] " &&
      AllDigits(s[1..3]) && DecimalValue(s[1..3]) == (e / 60000) % 60 &&
      AllDigits(s[4..6]) && DecimalValue(s[4..6]) == (e / 1000) % 60 &&
      AllDigits(s[7..10]) && DecimalValue(s[7..10]) == e % 1000
  {
    var m := ZeroPad((e / 60000) % 60, 2);
    var sec := ZeroPad((e / 1000) % 60, 2);
    var ms := ZeroPad(e % 1000, 3);
    ZeroPadProperties((e / 60000) % 60, 2);
    ZeroPadProperties((e / 1000) % 60, 2);
    ZeroPadProperties(e % 1000, 3);
    var s := ElapsedStamp(e);
    assert s == "[" + m + ":" + sec + ":" + ms + "] ";
    assert s[1..3] == m;
    assert s[4..6] == sec;
    assert s[7..10] == ms;
  }

  /** Milliseconds within the hour are the stamp's three fields. */
  lemma {:induction false} HourDecomposition(e: nat)
    ensures e % 3600000 == 60000 * ((e / 60000) % 60) + 1000 * ((e / 1000) % 60) + e % 1000
  {
    var x := e / 1000;
    var ms := e % 1000;
    var y := x / 60;
    var sec := x % 60;
    assert e == 60000 * y + (1000 * sec + ms);
    assert e / 60000 == y;
    var z := y / 60;
    var mins := y % 60;
    assert e == 3600000 * z + (60000 * mins + 1000 * sec + ms);
  }

  /** The stamp's fields depend only on the time within the hour. */
  lemma {:induction false} FieldsWithinHour(e: nat)
    ensures (e / 60000) % 60 == (e % 3600000) / 60000
    ensures (e / 1000) % 60 == ((e % 3600000) / 1000) % 60
    ensures e % 1000 == (e % 3600000) % 1000
  {
    HourDecomposition(e);
    var r := e % 3600000;
    var mins := (e / 60000) % 60;
    var sec := (e / 1000) % 60;
    var ms := e % 1000;
    assert r == 60000 * mins + (1000 * sec + ms);
    assert r / 1000 == 60 * mins + sec;
  }

  /** Two elapsed times give the same stamp exactly when they agree modulo one hour. */
  lemma {:induction false} ElapsedStampWraps(e1: nat, e2: nat)
    ensures ElapsedStamp(e1) == ElapsedStamp(e2) <==> e1 % 3600000 == e2 % 3600000
  {
    if ElapsedStamp(e1) == ElapsedStamp(e2) {
      HourDecomposition(e1);
      HourDecomposition(e2);
      ElapsedStampFormat(e1);
      ElapsedStampFormat(e2);
    } else if e1 % 3600000 == e2 % 3600000 {
      SameHourSameStamp(e1, e2);
    }
  }

  /** Adding whole hours leaves the stamp unchanged. */
  lemma {:induction false} ElapsedStampPeriodic(e: nat, hours: nat)
    ensures ElapsedStamp(e + 3600000 * hours) == ElapsedStamp(e)
  {
    var later := e + 3600000 * hours;
    AddHours(e, hours);
    SameHourSameStamp(later, e);
    assert ElapsedStamp(later) == ElapsedStamp(e);
  }

  /** Elapsed times that agree modulo one hour give the same stamp. */
  lemma {:induction false} SameHourSameStamp(e1: nat, e2: nat)
    requires e1 % 3600000 == e2 % 3600000
    ensures ElapsedStamp(e1) == ElapsedStamp(e2)
  {
    FieldsWithinHour(e1);
    FieldsWithinHour(e2);
  }

  lemma {:induction false} AddHours(e: nat, hours: nat)
    ensures (e + 3600000 * hours) % 3600000 == e % 3600000
  {
    var q := e / 3600000;
    var r := e % 3600000;
    assert e + 3600000 * hours == 3600000 * (q + hours) + r;
  }

  /** NONE gives no stamp; the other two modes give a bracketed one. */
  lemma {:induction false} FormatTimeModes(mode: TimeMode, format: string, env: Env)
    ensures FormatTime(mode, format, env) == "" <==> mode == NONE
    ensures mode == ELAPSED ==> |FormatTime(mode, format, env)| == 12
  {
    if mode == ELAPSED {
      ElapsedStampFormat(env.elapsedMillis);
    }
  }

  function Spaces(k: nat): (s: string)
    ensures |s| == k
  {
    if k == 0 then "" else Spaces(k - 1) + " "
  }

  lemma {:induction false} TrimPadded(core: string, k: nat)
    requires core != [] && core[0] > ' ' && core[|core| - 1] > ' '
    ensures Trim(core + Spaces(k)) == core
    decreases k
  {
    if k == 0 {
      assert core + Spaces(k) == core;
    } else {
      var t := core + Spaces(k);
      assert t[..|t| - 1] == core + Spaces(k - 1);
      TrimPadded(core, k - 1);
    }
  }

  /**
   * The five labels are ten characters wide, and the glyph table maps each to
   * its two-character glyph, so the empty default is never taken for them.
   */
  lemma {:induction false} LabelsAndGlyphs()
    ensures |INFO_LABEL| == 10 && |LOG_LABEL| == 10 && |WARN_LABEL| == 10 && |ERROR_LABEL| == 10 && |SUCCESS_LABEL| == 10
    ensures Glyph(INFO_LABEL) == "i " && Glyph(LOG_LABEL) == "* " && Glyph(WARN_LABEL) == "? "
    ensures Glyph(ERROR_LABEL) == "x " && Glyph(SUCCESS_LABEL) == "+ "
  {
    InfoGlyph();
    LogGlyph();
    WarnGlyph();
    ErrorGlyph();
    SuccessGlyph();
  }

  lemma {:induction false} InfoGlyph()
    ensures |INFO_LABEL| == 10 && Glyph(INFO_LABEL) == "i "
  {
    assert INFO_LABEL == "[INFO]" + Spaces(4);
    TrimPadded("[INFO]", 4);
  }

  lemma {:induction false} LogGlyph()
    ensures |LOG_LABEL| == 10 && Glyph(LOG_LABEL) == "* "
  {
    assert LOG_LABEL == "[LOG]" + Spaces(5);
    TrimPadded("[LOG]", 5);
    assert "[LOG]" != "[INFO]";
  }

  lemma {:induction false} WarnGlyph()
    ensures |WARN_LABEL| == 10 && Glyph(WARN_LABEL) == "? "
  {
    assert WARN_LABEL == "[WARN]" + Spaces(4);
    TrimPadded("[WARN]", 4);
    assert "[WARN]" != "[INFO]" && "[WARN]" != "[LOG]";
  }

  lemma {:induction false} ErrorGlyph()
    ensures |ERROR_LABEL| == 10 && Glyph(ERROR_LABEL) == "x "
  {
    assert ERROR_LABEL == "[ERROR]" + Spaces(3);
    TrimPadded("[ERROR]", 3);
    assert "[ERROR]" != "[INFO]" && "[ERROR]" != "[LOG]" && "[ERROR]" != "[WARN]";
  }

  lemma {:induction false} SuccessGlyph()
    ensures |SUCCESS_LABEL| == 10 && Glyph(SUCCESS_LABEL) == "+ "
  {
    assert SUCCESS_LABEL == "[SUCCESS]" + Spaces(1);
    TrimPadded("[SUCCESS]", 1);
    assert "[SUCCESS]" != "[INFO]" && "[SUCCESS]" != "[LOG]" && "[SUCCESS]" != "[WARN]" && "[SUCCESS]" != "[ERROR]";
  }

  /** A call is dropped exactly when it is LOW and the threshold is HIGH; otherwise exactly one line is written. */
  lemma {:induction false} LevelFilter(c: Config, level: Level, typeLabel: string, message: string, style: Style, showTypePrefix: bool, env: Env)
    ensures Emitted(c, level, typeLabel, message, style, showTypePrefix, env) == [] <==> level == LOW && c.currentLevel == HIGH
    ensures |Emitted(c, level, typeLabel, message, style, showTypePrefix, env)| <= 1
  {
    ThresholdBehaviour(level);
  }

  /** Only the two markers' own characters could match, and `]` is not one of them after the head. */
  lemma {:induction false} TagOccurrence(name: string, i: nat, x: string)
    requires x == LOCK_START || x == LOCK_END
    ensures StartsAt("[" + name + "] ", i, x) ==> 1 <= i && StartsAt(name, i - 1, x)
  {
    var tag := "[" + name + "] ";
    if StartsAt(tag, i, x) {
      OccurrenceShape(tag, i, x);
      MarkerShape(x);
      forall k | 0 <= k < 7 ensures tag[i + k] == x[k] {
        assert tag[i..i + 7][k] == tag[i + k];
      }
      assert tag[0] == '[' && tag[1 + |name|] == ']';
      assert tag[i..i + 7] == name[i - 1..i + 6];
    }
  }

  /** The thread tag of a marker-free name is itself marker-free. */
  lemma {:induction false} TagMarkerFree(name: string)
    requires MarkerFree(name)
    ensures MarkerFree("[" + name + "] ")
  {
    var tag := "[" + name + "] ";
    forall i: nat | i <= |tag| ensures !StartsAt(tag, i, LOCK_START) && !StartsAt(tag, i, LOCK_END) {
      TagOccurrence(name, i, LOCK_START);
      TagOccurrence(name, i, LOCK_END);
    }
  }

  /** With the thread shown, the message after the prefix is the locked tag followed by the rest. */
  lemma {:induction false} ThreadedPrefix(c: Config, typeLabel: string, message: string, showTypePrefix: bool, env: Env)
    requires c.showThread
    ensures Prefix(c, typeLabel, showTypePrefix, env) + message ==
      Lock(FormatThread(env)) + ((if showTypePrefix then typeLabel else Glyph(typeLabel)) + FormatTime(c.timeMode, c.timeFormat, env) + message)
  {
    var l := Lock(FormatThread(env));
    var shown := if showTypePrefix then typeLabel else Glyph(typeLabel);
    var time := FormatTime(c.timeMode, c.timeFormat, env);
    assert Prefix(c, typeLabel, showTypePrefix, env) == l + shown + time;
    Assoc4(l, shown, time, message);
  }

  /** With the thread shown and a marker-free thread name, the locked tag heads the line verbatim and the rest is rendered on its own. */
  lemma {:induction false} ThreadTagVerbatim(c: Config, typeLabel: string, message: string, style: Style, showTypePrefix: bool, env: Env)
    requires c.showThread && MarkerFree(env.threadName)
    ensures Line(c, typeLabel, message, style, showTypePrefix, env) ==
      Lock(FormatThread(env)) +
      Rendered((if showTypePrefix then typeLabel else Glyph(typeLabel)) + FormatTime(c.timeMode, c.timeFormat, env) + message, [style]) +
      LINE_SEPARATOR
  {
    var tag := FormatThread(env);
    var rest := (if showTypePrefix then typeLabel else Glyph(typeLabel)) + FormatTime(c.timeMode, c.timeFormat, env) + message;
    ThreadedPrefix(c, typeLabel, message, showTypePrefix, env);
    TagMarkerFree(env.threadName);
    LockedPrefix(tag, rest, [style]);
  }

  lemma {:induction false} StampEscapeFree(e: nat)
    ensures ESC !in ElapsedStamp(e)
  {
    var m := ZeroPad((e / 60000) % 60, 2);
    var sec := ZeroPad((e / 1000) % 60, 2);
    var ms := ZeroPad(e % 1000, 3);
    DigitsEscapeFree(m);
    DigitsEscapeFree(sec);
    DigitsEscapeFree(ms);
    assert ElapsedStamp(e) == "[" + m + ":" + sec + ":" + ms + "] ";
  }

  lemma {:induction false} DigitsEscapeFree(s: string)
    requires AllDigits(s)
    ensures ESC !in s
  {
  }

  lemma {:induction false} CodesSingle(style: Style)
    ensures Codes([style]) == style.code
  {
    assert [style][..0] == [];
  }

  /** The label or glyph a shortcut shows is non-empty and free of escape characters. */
  lemma {:induction false} ShownPlain(typeLabel: string, showTypePrefix: bool)
    requires typeLabel in {INFO_LABEL, LOG_LABEL, WARN_LABEL, ERROR_LABEL, SUCCESS_LABEL}
    ensures var shown := if showTypePrefix then typeLabel else Glyph(typeLabel);
      shown != "" && ESC !in shown
  {
    if showTypePrefix {
      LabelPlain(typeLabel);
    } else {
      GlyphPlain(typeLabel);
    }
  }

  lemma {:induction false} LabelPlain(typeLabel: string)
    requires typeLabel in {INFO_LABEL, LOG_LABEL, WARN_LABEL, ERROR_LABEL, SUCCESS_LABEL}
    ensures typeLabel != "" && ESC !in typeLabel
  {
  }

  lemma {:induction false} GlyphPlain(typeLabel: string)
    requires typeLabel in {INFO_LABEL, LOG_LABEL, WARN_LABEL, ERROR_LABEL, SUCCESS_LABEL}
    ensures Glyph(typeLabel) != "" && ESC !in Glyph(typeLabel)
  {
    LabelsAndGlyphs();
  }

  /** Outside the ABSOLUTE mode the stamp holds no escape character. */
  lemma {:induction false} TimePlain(c: Config, env: Env)
    requires c.timeMode != ABSOLUTE
    ensures ESC !in FormatTime(c.timeMode, c.timeFormat, env)
  {
    if c.timeMode == ELAPSED {
      StampEscapeFree(env.elapsedMillis);
    }
  }

  /** Everything after the thread tag is free of escape characters and non-empty. */
  lemma {:induction false} PlainRest(c: Config, typeLabel: string, message: string, showTypePrefix: bool, env: Env)
    requires typeLabel in {INFO_LABEL, LOG_LABEL, WARN_LABEL, ERROR_LABEL, SUCCESS_LABEL}
    requires c.timeMode != ABSOLUTE && ESC !in message
    ensures var rest := (if showTypePrefix then typeLabel else Glyph(typeLabel)) + FormatTime(c.timeMode, c.timeFormat, env) + message;
      rest != "" && ESC !in rest
  {
    var shown := if showTypePrefix then typeLabel else Glyph(typeLabel);
    ShownPlain(typeLabel, showTypePrefix);
    TimePlain(c, env);
    EscapeFreeJoin(shown, FormatTime(c.timeMode, c.timeFormat, env), message);
  }

  /**
   * A shortcut's line for a message without escape characters, outside the
   * ABSOLUTE mode, keeps no visible text but the thread tag: label, glyph,
   * stamp and message are all replaced by the style's code and a reset.
   */
  lemma {:induction false} PlainLineLosesText(c: Config, typeLabel: string, message: string, style: Style, showTypePrefix: bool, env: Env)
    requires typeLabel in {INFO_LABEL, LOG_LABEL, WARN_LABEL, ERROR_LABEL, SUCCESS_LABEL}
    requires c.timeMode != ABSOLUTE && ESC !in message
    requires c.showThread ==> MarkerFree(env.threadName)
    ensures Line(c, typeLabel, message, style, showTypePrefix, env) ==
      if c.showThread then Lock(FormatThread(env)) + style.code + RESET.code + LINE_SEPARATOR
      else style.code + RESET.code + LINE_SEPARATOR
  {
    if c.showThread {
      ThreadedPlainLine(c, typeLabel, message, style, showTypePrefix, env);
    } else {
      UnthreadedPlainLine(c, typeLabel, message, style, showTypePrefix, env);
    }
  }

  lemma {:induction false} ThreadedPlainLine(c: Config, typeLabel: string, message: string, style: Style, showTypePrefix: bool, env: Env)
    requires typeLabel in {INFO_LABEL, LOG_LABEL, WARN_LABEL, ERROR_LABEL, SUCCESS_LABEL}
    requires c.timeMode != ABSOLUTE && ESC !in message
    requires c.showThread && MarkerFree(env.threadName)
    ensures Line(c, typeLabel, message, style, showTypePrefix, env) ==
      Lock(FormatThread(env)) + style.code + RESET.code + LINE_SEPARATOR
  {
    var rest := (if showTypePrefix then typeLabel else Glyph(typeLabel)) + FormatTime(c.timeMode, c.timeFormat, env) + message;
    PlainRest(c, typeLabel, message, showTypePrefix, env);
    CodesSingle(style);
    PlainTextDropped(rest, [style]);
    ThreadTagVerbatim(c, typeLabel, message, style, showTypePrefix, env);
    SpliceMiddle(Line(c, typeLabel, message, style, showTypePrefix, env), Lock(FormatThread(env)), Rendered(rest, [style]), style.code, RESET.code, LINE_SEPARATOR);
  }

  lemma {:induction false} UnthreadedPlainLine(c: Config, typeLabel: string, message: string, style: Style, showTypePrefix: bool, env: Env)
    requires typeLabel in {INFO_LABEL, LOG_LABEL, WARN_LABEL, ERROR_LABEL, SUCCESS_LABEL}
    requires c.timeMode != ABSOLUTE && ESC !in message
    requires !c.showThread
    ensures Line(c, typeLabel, message, style, showTypePrefix, env) == style.code + RESET.code + LINE_SEPARATOR
  {
    var shown := if showTypePrefix then typeLabel else Glyph(typeLabel);
    var rest := shown + FormatTime(c.timeMode, c.timeFormat, env) + message;
    PlainRest(c, typeLabel, message, showTypePrefix, env);
    CodesSingle(style);
    PlainTextDropped(rest, [style]);
    assert Prefix(c, typeLabel, showTypePrefix, env) == shown + FormatTime(c.timeMode, c.timeFormat, env) by {
      assert "" + shown == shown;
    }
  }

  // ------------------ Proof helpers: string identities ------------------

  /** A concatenation of escape-free strings is escape-free. */
  lemma {:induction false} EscapeFreeJoin(a: string, b: string, c: string)
    requires ESC !in a && ESC !in b && ESC !in c
    ensures ESC !in a + b + c
  {
  }

  /** Replacing the middle of a line by an equal string. */
  lemma {:induction false} SpliceMiddle(line: string, l: string, r: string, code: string, reset: string, ls: string)
    requires line == l + r + ls && r == code + reset
    ensures line == l + code + reset + ls
  {
  }
}
