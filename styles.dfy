/**
 * Style values of `Style.java`: a style is its ANSI code string. Composition,
 * the colour builders (truecolor `38;2`/`48;2`, indexed `38;5`/`48;5`, hex),
 * the lock markers with `lock`, `unlock` and `isLocked`, and `open`/`close`.
 * The lock-aware renderer is in module LockProcessing.
 */
module Styles {
  import opened Wrappers
  import opened Text

  /** `record Style(String code)`. */
  datatype Style = Style(code: string) {

    /** `a.and(b)`: the composite style whose code is `a`'s code followed by `b`'s. */
    function And(other: Style): (composite: Style) {
      Style(code + other.code)
    }
  }

  /** A Select Graphic Rendition control sequence `ESC [ p1 ; p2 ; ... m` with decimal parameters. */
  function Sgr(params: seq<int>): (code: string) {
    [ESC] + "[" + JoinDecimals(params) + "m"
  }

  /** The parameters in decimal, separated by `;`. */
  function JoinDecimals(params: seq<int>): (text: string) {
    if |params| == 0 then ""
    else if |params| == 1 then IntToDecimal(params[0])
    else IntToDecimal(params[0]) + ";" + JoinDecimals(params[1..])
  }

  // ------------------ Constants used by the printer ------------------

  const RESET: Style := Style([ESC] + "[0m")
  const ITALIC: Style := Style([ESC] + "[3m")

  const SILVER: Style := Fg(190, 190, 190)
  const RED: Style := Fg(220, 55, 70)
  const AMBER: Style := Fg(255, 195, 5)
  const GREEN: Style := Fg(40, 165, 70)
  const CYAN: Style := Fg(0, 190, 210)

  const INFO: Style := CYAN.And(ITALIC)
  const SUCCESS: Style := GREEN
  const WARNING: Style := AMBER
  const ERROR: Style := RED
  const LOG: Style := SILVER.And(ITALIC)

  // ------------------ Colour builders ------------------

  /** `fg(r, g, b)`: a truecolor foreground code; the channels are not range-checked. */
  function Fg(r: int, g: int, b: int): (style: Style) {
    Style([ESC] + "[38;2;" + IntToDecimal(r) + ";" + IntToDecimal(g) + ";" + IntToDecimal(b) + "m")
  }

  /** `bg(r, g, b)`: a truecolor background code; the channels are not range-checked. */
  function Bg(r: int, g: int, b: int): (style: Style) {
    Style([ESC] + "[48;2;" + IntToDecimal(r) + ";" + IntToDecimal(g) + ";" + IntToDecimal(b) + "m")
  }

  /** `fg256(code)`: an indexed foreground code; the index is not range-checked. */
  function Fg256(n: int): (style: Style) {
    Style([ESC] + "[38;5;" + IntToDecimal(n) + "m")
  }

  /** `bg256(code)`: an indexed background code; the index is not range-checked. */
  function Bg256(n: int): (style: Style) {
    Style([ESC] + "[48;5;" + IntToDecimal(n) + "m")
  }

  /** The decimal spelling of the fixed SGR parameters the builders use. */
  lemma {:induction false} SmallDecimals()
    ensures IntToDecimal(2) == "2" && IntToDecimal(5) == "5"
    ensures IntToDecimal(38) == "38" && IntToDecimal(48) == "48"
  {
    assert NatToDecimal(3) == "3";
    assert NatToDecimal(4) == "4";
  }

  lemma {:induction false} JoinCons(x: int, rest: seq<int>)
    requires |rest| >= 1
    ensures JoinDecimals([x] + rest) == IntToDecimal(x) + ";" + JoinDecimals(rest)
  {
    assert ([x] + rest)[1..] == rest;
  }

  lemma {:induction false} JoinThree(r: int, g: int, b: int)
    ensures JoinDecimals([r, g, b]) == IntToDecimal(r) + ";" + IntToDecimal(g) + ";" + IntToDecimal(b)
  {
    assert JoinDecimals([b]) == IntToDecimal(b);
    JoinCons(g, [b]);
    assert [g] + [b] == [g, b];
    JoinCons(r, [g, b]);
    assert [r] + [g, b] == [r, g, b];
  }

  /** The parameters 38;2;r;g;b or 48;2;r;g;b joined, for a lead `l` spelled `lead`. */
  lemma {:induction false} JoinTruecolor(l: int, lead: string, r: int, g: int, b: int)
    requires IntToDecimal(l) == lead
    ensures JoinDecimals([l, 2, r, g, b]) == lead + ";" + ("2" + ";" + (IntToDecimal(r) + ";" + IntToDecimal(g) + ";" + IntToDecimal(b)))
  {
    SmallDecimals();
    JoinThree(r, g, b);
    JoinCons(2, [r, g, b]);
    assert [2] + [r, g, b] == [2, r, g, b];
    JoinCons(l, [2, r, g, b]);
    assert [l] + [2, r, g, b] == [l, 2, r, g, b];
  }

  /** `fg(r, g, b)` is the SGR sequence 38;2;r;g;b. */
  lemma {:induction false} FgIsSgr(r: int, g: int, b: int)
    ensures Fg(r, g, b).code == Sgr([38, 2, r, g, b])
  {
    SmallDecimals();
    JoinTruecolor(38, "38", r, g, b);
    assert "[38;2;" == "[" + "38" + ";" + "2" + ";";
    TruecolorRegroup([ESC], "[", "38", ";", "2", IntToDecimal(r), IntToDecimal(g), IntToDecimal(b), "m");
  }

  /** `bg(r, g, b)` is the SGR sequence 48;2;r;g;b. */
  lemma {:induction false} BgIsSgr(r: int, g: int, b: int)
    ensures Bg(r, g, b).code == Sgr([48, 2, r, g, b])
  {
    SmallDecimals();
    JoinTruecolor(48, "48", r, g, b);
    assert "[48;2;" == "[" + "48" + ";" + "2" + ";";
    TruecolorRegroup([ESC], "[", "48", ";", "2", IntToDecimal(r), IntToDecimal(g), IntToDecimal(b), "m");
  }

  /** `fg256(n)` and `bg256(n)` are the SGR sequences 38;5;n and 48;5;n. */
  lemma {:induction false} IndexedAreSgr(n: int)
    ensures Fg256(n).code == Sgr([38, 5, n])
    ensures Bg256(n).code == Sgr([48, 5, n])
  {
    SmallDecimals();
    assert JoinDecimals([n]) == IntToDecimal(n);
    JoinCons(5, [n]);
    assert [5] + [n] == [5, n];
    JoinCons(38, [5, n]);
    assert [38] + [5, n] == [38, 5, n];
    JoinCons(48, [5, n]);
    assert [48] + [5, n] == [48, 5, n];
  }

  /** The reset and italic codes are the SGR sequences 0 and 3. */
  lemma {:induction false} ConstantsAreSgr()
    ensures RESET.code == Sgr([0])
    ensures ITALIC.code == Sgr([3])
    ensures Close() == Sgr([0])
  {
  }

  /** The regular expression `^#?[0-9A-Fa-f]{6}$` used by `parseHex`. */
  predicate IsHexColor(hex: string) {
    (|hex| == 6 && AllHexDigits(hex)) || (|hex| == 7 && hex[0] == '#' && AllHexDigits(hex[1..]))
  }

  /** The exception `parseHex` throws. */
  datatype Exception = IllegalArgumentException(message: string)

  /**
   * `parseHex(hex, foreground)`: `null` or text not matching the pattern throws
   * IllegalArgumentException("Invalid hex color: " + hex); otherwise the three
   * two-digit channels become an RGB foreground or background code.
   */
  function ParseHex(hex: Option<string>, foreground: bool): (r: Result<Style, Exception>)
    ensures r.Success? <==> hex.Some? && IsHexColor(hex.value)
  {
    if hex.None? then Failure(IllegalArgumentException("Invalid hex color: null"))
    else if !IsHexColor(hex.value) then Failure(IllegalArgumentException("Invalid hex color: " + hex.value))
    else
      var h := if hex.value[0] == '#' then hex.value[1..] else hex.value;
      var r := HexByteValue(h[0..2]);
      var g := HexByteValue(h[2..4]);
      var b := HexByteValue(h[4..6]);
      Success(if foreground then Fg(r, g, b) else Bg(r, g, b))
  }

  /** `fg(String hex)`. */
  function FgHex(hex: Option<string>): (r: Result<Style, Exception>) {
    ParseHex(hex, true)
  }

  /** `bg(String hex)`. */
  function BgHex(hex: Option<string>): (r: Result<Style, Exception>) {
    ParseHex(hex, false)
  }

  /** The upper-case `#RRGGBB` spelling of a colour. */
  function HexColor(r: nat, g: nat, b: nat): (s: string)
    requires r < 256 && g < 256 && b < 256
  {
    "#" + HexByte(r) + HexByte(g) + HexByte(b)
  }

  /**
   * Hex round trip: the `#RRGGBB` and `RRGGBB` spellings of a colour parse to
   * the same code as the RGB builders.
   */
  lemma {:induction false} HexRoundTrip(r: nat, g: nat, b: nat)
    requires r < 256 && g < 256 && b < 256
    ensures FgHex(Some(HexColor(r, g, b))) == Success(Fg(r, g, b))
    ensures BgHex(Some(HexColor(r, g, b))) == Success(Bg(r, g, b))
    ensures FgHex(Some(HexColor(r, g, b)[1..])) == Success(Fg(r, g, b))
    ensures BgHex(Some(HexColor(r, g, b)[1..])) == Success(Bg(r, g, b))
  {
    var s := HexColor(r, g, b);
    var h := s[1..];
    assert h == HexByte(r) + HexByte(g) + HexByte(b);
    assert h[0..2] == HexByte(r) && h[2..4] == HexByte(g) && h[4..6] == HexByte(b);
    assert IsHexColor(s) && IsHexColor(h);
  }

  /**
   * The digits are read case-insensitively: two accepted spellings that
   * agree once upper-cased give the same colour.
   */
  lemma {:induction false} HexCaseInsensitive(h: string, h': string, foreground: bool)
    requires IsHexColor(h) && IsHexColor(h') && UpperCase(h) == UpperCase(h')
    ensures ParseHex(Some(h), foreground) == ParseHex(Some(h'), foreground)
  {
    var d := if h[0] == '#' then h[1..] else h;
    var d' := if h'[0] == '#' then h'[1..] else h';
    HexStripCase(h, h');
    HexChannelsCase(d, d');
  }

  /** Stripping the optional `#` keeps two spellings that agree up to case in step. */
  lemma {:induction false} HexStripCase(h: string, h': string)
    requires IsHexColor(h) && IsHexColor(h') && UpperCase(h) == UpperCase(h')
    ensures var d := if h[0] == '#' then h[1..] else h;
      var d' := if h'[0] == '#' then h'[1..] else h';
      |d| == 6 && |d'| == 6 && AllHexDigits(d) && AllHexDigits(d') && UpperCase(d) == UpperCase(d')
  {
    assert |h| == |h'|;
    assert h[0] == '#' <==> h'[0] == '#';
    UpperCaseSlice(h, h', if h[0] == '#' then 1 else 0, |h|);
  }

  /** Six hexadecimal digits that agree up to case give the same three channels. */
  lemma {:induction false} HexChannelsCase(d: string, d': string)
    requires |d| == 6 && |d'| == 6 && AllHexDigits(d) && AllHexDigits(d') && UpperCase(d) == UpperCase(d')
    ensures HexByteValue(d[0..2]) == HexByteValue(d'[0..2])
    ensures HexByteValue(d[2..4]) == HexByteValue(d'[2..4])
    ensures HexByteValue(d[4..6]) == HexByteValue(d'[4..6])
  {
    UpperCaseSlice(d, d', 0, 2);
    UpperCaseSlice(d, d', 2, 4);
    UpperCaseSlice(d, d', 4, 6);
    HexByteCase(d[0..2], d'[0..2]);
    HexByteCase(d[2..4], d'[2..4]);
    HexByteCase(d[4..6], d'[4..6]);
  }

  /** The upper-case spelling of a colour is its own upper-casing. */
  lemma {:induction false} HexColorUpper(r: nat, g: nat, b: nat)
    requires r < 256 && g < 256 && b < 256
    ensures UpperCase(HexColor(r, g, b)) == HexColor(r, g, b)
  {
    HexByteUpper(r);
    HexByteUpper(g);
    HexByteUpper(b);
    var s := HexColor(r, g, b);
    forall k | 0 <= k < 7 ensures UpperCase(s)[k] == s[k] {
      if k >= 1 && k < 3 {
        assert s[k] == HexByte(r)[k - 1];
      } else if k >= 3 && k < 5 {
        assert s[k] == HexByte(g)[k - 3];
      } else if k >= 5 {
        assert s[k] == HexByte(b)[k - 5];
      }
    }
  }

  /**
   * Every accepted spelling of a colour, with or without `#` and in any mix
   * of upper and lower case, parses to the same code as the RGB builders.
   */
  lemma {:induction false} HexAnySpelling(h: string, r: nat, g: nat, b: nat)
    requires r < 256 && g < 256 && b < 256 && IsHexColor(h)
    requires UpperCase(h) == HexColor(r, g, b) || UpperCase(h) == HexColor(r, g, b)[1..]
    ensures FgHex(Some(h)) == Success(Fg(r, g, b))
    ensures BgHex(Some(h)) == Success(Bg(r, g, b))
  {
    var s := HexColor(r, g, b);
    HexRoundTrip(r, g, b);
    HexColorUpper(r, g, b);
    var u := if UpperCase(h) == s then s else s[1..];
    assert UpperCase(u) == u;
    assert IsHexColor(u);
    HexCaseInsensitive(h, u, true);
    HexCaseInsensitive(h, u, false);
  }

  /** Every rejection carries the message `Invalid hex color: ` followed by the input (or `null`). */
  lemma {:induction false} HexRejections(hex: Option<string>, foreground: bool)
    requires ParseHex(hex, foreground).Failure?
    ensures ParseHex(hex, foreground).error.message
         == "Invalid hex color: " + (if hex.None? then "null" else hex.value)
  {
  }

  /** `fg("#FF0000")` is pure red. */
  lemma {:induction false} HexRedExample()
    ensures FgHex(Some("#FF0000")) == Success(Fg(255, 0, 0))
  {
    var h := "FF0000";
    assert "#FF0000"[1..] == h;
    assert h[0..2] == "FF" && h[2..4] == "00" && h[4..6] == "00";
    assert HexByteValue("FF") == 255 && HexByteValue("00") == 0;
    assert IsHexColor("#FF0000");
  }

  /** Text that does not match the pattern, and `null`, are rejected. */
  lemma {:induction false} HexRejectExamples()
    ensures FgHex(Some("invalid")).Failure?
    ensures FgHex(None).Failure?
  {
    assert !IsHexColor("invalid") by { assert !IsHexDigit("invalid"[0]); }
  }

  /** Hex digits are read case-insensitively and the `#` is optional. */
  lemma {:induction false} HexSpellingExample()
    ensures FgHex(Some("#ff0000")) == FgHex(Some("FF0000"))
  {
    var lower := "ff0000";
    var upper := "FF0000";
    assert "#ff0000"[1..] == lower;
    assert lower[0..2] == "ff" && lower[2..4] == "00" && lower[4..6] == "00";
    assert upper[0..2] == "FF" && upper[2..4] == "00" && upper[4..6] == "00";
    assert HexByteValue("ff") == HexByteValue("FF");
    assert IsHexColor("#ff0000") && IsHexColor(upper);
  }

  // ------------------ Lock system ------------------

  const LOCK_START: string := [ESC] + "[?200h"
  const LOCK_END: string := [ESC] + "[?200l"

  /** Neither marker occurs in `s`. */
  predicate MarkerFree(s: string) {
    !Contains(s, LOCK_START) && !Contains(s, LOCK_END)
  }

  /** `lock(msg)`: the text between the two markers. */
  function Lock(msg: string): (locked: string) {
    LOCK_START + msg + LOCK_END
  }

  /** `unlock(msg)`: `msg.replace(LOCK_START, "").replace(LOCK_END, "")`. */
  function Unlock(msg: string): (r: string) {
    Delete(Delete(msg, LOCK_START), LOCK_END)
  }

  /** `isLocked(msg)`: both markers occur somewhere, in any order and unpaired. */
  predicate IsLocked(msg: string) {
    Contains(msg, LOCK_START) && Contains(msg, LOCK_END)
  }

  /** Each marker has the escape character at its head and nowhere else. */
  lemma {:induction false} MarkerShape(m: string)
    requires m == LOCK_START || m == LOCK_END
    ensures |m| == 7 && m[0] == ESC
    ensures forall k :: 1 <= k < 7 ==> m[k] != ESC
    ensures forall k :: 0 <= k < 7 ==> m[k] != ']'
  {
  }

  /** An occurrence of a marker has the escape character at its start and none in the next six places. */
  lemma {:induction false} OccurrenceShape(s: string, i: nat, m: string)
    requires m == LOCK_START || m == LOCK_END
    requires StartsAt(s, i, m)
    ensures i + 7 <= |s| && s[i] == ESC
    ensures forall j :: i + 1 <= j < i + 7 ==> s[j] != ESC
  {
    MarkerShape(m);
    forall k | 0 <= k < 7 ensures s[i + k] == m[k] {
      assert s[i..i + 7][k] == s[i + k];
    }
  }

  /** `isLocked(lock(m))` holds for every `m`. */
  lemma {:induction false} LockIsLocked(m: string)
    ensures IsLocked(Lock(m))
  {
    var s := Lock(m);
    assert s[0..7] == LOCK_START;
    assert StartsAt(s, 0, LOCK_START);
    assert s[7 + |m|..7 + |m| + 7] == LOCK_END;
    assert StartsAt(s, 7 + |m|, LOCK_END);
  }

  /** A string is locked as soon as it holds both markers, in either order and with anything around them. */
  lemma {:induction false} LockedAnyOrder(a: string, b: string, c: string, first: string, second: string)
    requires (first == LOCK_START && second == LOCK_END) || (first == LOCK_END && second == LOCK_START)
    ensures IsLocked(a + first + b + second + c)
  {
    var s := a + first + b + second + c;
    var i := |a|;
    var j := |a| + |first| + |b|;
    assert s[i..i + |first|] == first;
    assert StartsAt(s, i, first);
    assert s[j..j + |second|] == second;
    assert StartsAt(s, j, second);
  }

  /** Both markers must be present: a string without the end marker is not locked, even with a start marker put in front. */
  lemma {:induction false} LockedNeedsBoth(s: string)
    requires !Contains(s, LOCK_END)
    ensures !IsLocked(s) && !IsLocked(LOCK_START + s)
  {
    var t := LOCK_START + s;
    MarkerShape(LOCK_START);
    MarkerShape(LOCK_END);
    forall i: nat | i < 7 ensures !StartsAt(t, i, LOCK_END) {
      if i + 7 <= |t| {
        if i == 0 {
          assert t[i..i + 7][6] == 'h';
        } else {
          assert t[i..i + 7][0] == LOCK_START[i];
        }
      }
    }
    forall i: nat | 7 <= i ensures !StartsAt(t, i, LOCK_END) {
      if i + 7 <= |t| {
        assert t[i..i + 7] == s[i - 7..i];
        assert !StartsAt(s, i - 7, LOCK_END);
      }
    }
    assert !Contains(t, LOCK_END);
  }

  /** Two marker occurrences less than seven characters apart start at the same place. */
  lemma {:induction false} OccurrencesApart(s: string, i: nat, j: nat, x: string, y: string)
    requires x == LOCK_START || x == LOCK_END
    requires y == LOCK_START || y == LOCK_END
    requires StartsAt(s, i, x) && StartsAt(s, j, y)
    requires i < j + 7 && j < i + 7
    ensures i == j
  {
    OccurrenceShape(s, i, x);
    OccurrenceShape(s, j, y);
  }

  /** A marker occurrence in `a + m + b`, for a marker `m`, is that `m` or lies inside `a` or inside `b`. */
  lemma {:induction false} MarkerOccurrenceAround(a: string, m: string, b: string, x: string, i: nat)
    requires m == LOCK_START || m == LOCK_END
    requires x == LOCK_START || x == LOCK_END
    requires StartsAt(a + m + b, i, x)
    ensures (i + 7 <= |a| && StartsAt(a, i, x))
         || (i == |a| && x == m)
         || (i >= |a| + 7 && StartsAt(b, i - |a| - 7, x))
  {
    var s := a + m + b;
    assert |m| == 7 && i + 7 <= |s|;
    if i + 7 <= |a| {
      assert s[i..i + 7] == a[i..i + 7];
    } else if i < |a| + 7 {
      assert s[|a|..|a| + 7] == m;
      OccurrencesApart(s, i, |a|, x, m);
    } else {
      assert s[i..i + 7] == b[i - |a| - 7..i - |a|];
    }
  }

  /** For marker-free `m`, `unlock(lock(m)) == m`. */
  lemma {:induction false} UnlockLock(m: string)
    requires MarkerFree(m)
    ensures Unlock(Lock(m)) == m
  {
    var s := Lock(m);
    MarkerShape(LOCK_START);
    assert LOCK_START != LOCK_END by { assert LOCK_START[6] != LOCK_END[6]; }
    assert s[..7] == LOCK_START;
    assert s[7..] == m + LOCK_END;
    // m + LOCK_END holds no LOCK_START
    forall i: nat | i <= |m + LOCK_END| ensures !StartsAt(m + LOCK_END, i, LOCK_START) {
      if StartsAt(m + LOCK_END, i, LOCK_START) {
        assert m + LOCK_END == m + LOCK_END + "";
        MarkerOccurrenceAround(m, LOCK_END, "", LOCK_START, i);
        assert false;
      }
    }
    DeleteAbsent(m + LOCK_END, LOCK_START);
    assert Delete(s, LOCK_START) == m + LOCK_END;
    // one LOCK_END at the end, and none in m
    forall i: nat | i <= |m + LOCK_END| ensures StartsAt(m + LOCK_END, i, LOCK_END) ==> i == |m| {
      if StartsAt(m + LOCK_END, i, LOCK_END) {
        assert m + LOCK_END == m + LOCK_END + "";
        MarkerOccurrenceAround(m, LOCK_END, "", LOCK_END, i);
      }
    }
    DeleteMarkerAtEnd(m, LOCK_END);
  }

  /** Deleting `x` from `m + x`, when `x` occurs only at the end, leaves `m`. */
  lemma {:induction false} DeleteMarkerAtEnd(m: string, x: string)
    requires |x| > 0
    requires forall i: nat | i <= |m + x| :: StartsAt(m + x, i, x) ==> i == |m|
    ensures Delete(m + x, x) == m
    decreases |m|
  {
    var s := m + x;
    if m == [] {
      assert s[..|x|] == x;
      assert s[|x|..] == "";
    } else {
      assert !StartsAt(s, 0, x);
      assert s[0..|x|] == s[..|x|];
      assert s[1..] == m[1..] + x;
      forall i: nat | i <= |m[1..] + x| ensures StartsAt(m[1..] + x, i, x) ==> i == |m[1..]| {
        if StartsAt(m[1..] + x, i, x) {
          assert s[i + 1..i + 1 + |x|] == (m[1..] + x)[i..i + |x|];
          assert StartsAt(s, i + 1, x);
        }
      }
      DeleteMarkerAtEnd(m[1..], x);
      assert [m[0]] + m[1..] == m;
    }
  }

  /**
   * `unlock` is one pass of `replace`, which can join the two halves around a
   * deleted marker into a new one: the result still holds LOCK_START.
   */
  lemma {:induction false} UnlockCanLeaveMarker()
    ensures Unlock([ESC] + "[?" + LOCK_START + "200h") == LOCK_START
  {
    var tail := "200h";
    DeleteShort(tail, LOCK_START);
    DeleteSkipHead(tail, LOCK_START, tail);
    var t3 := LOCK_START + tail;
    assert (['?'] + t3)[..7][0] != LOCK_START[0];
    DeleteKeepHead('?', t3, LOCK_START, tail);
    assert (['['] + (['?'] + t3))[..7][0] != LOCK_START[0];
    DeleteKeepHead('[', ['?'] + t3, LOCK_START, ['?'] + tail);
    var t1 := ['['] + (['?'] + t3);
    var s := [ESC] + t1;
    assert s[..7][3] == ESC;
    DeleteKeepHead(ESC, t1, LOCK_START, ['['] + (['?'] + tail));
    assert s == [ESC] + "[?" + LOCK_START + "200h";
    assert [ESC] + (['['] + (['?'] + tail)) == LOCK_START;
    StartKeepsNoEnd();
  }

  /** LOCK_END does not occur in LOCK_START, so deleting it leaves LOCK_START alone. */
  lemma {:induction false} StartKeepsNoEnd()
    ensures Delete(LOCK_START, LOCK_END) == LOCK_START
  {
    var t := "[?200h";
    DeleteShort(t, LOCK_END);
    assert ([ESC] + t)[..7][6] != LOCK_END[6];
    DeleteKeepHead(ESC, t, LOCK_END, t);
    assert [ESC] + t == LOCK_START;
  }

  // ------------------ Opening and closing ------------------

  /** The codes of `styles` in argument order: what every `for (Style s : styles) sb.append(s.code)` appends. */
  function Codes(styles: seq<Style>): (code: string) {
    if |styles| == 0 then "" else Codes(styles[..|styles| - 1]) + styles[|styles| - 1].code
  }

  /** The left-to-right composition `styles[0].and(styles[1]).and(...)`, the empty style for none. */
  function ComposeAll(styles: seq<Style>): (style: Style) {
    if |styles| == 0 then Style("") else ComposeAll(styles[..|styles| - 1]).And(styles[|styles| - 1])
  }

  /** Composition is associative on codes and keeps argument order. */
  lemma {:induction false} AndAssociative(a: Style, b: Style, c: Style)
    ensures a.And(b).And(c) == a.And(b.And(c))
    ensures a.And(b).And(c).code == a.code + b.code + c.code
  {
  }

  /** Appending all codes is the code of the composition, and splits over concatenation of the arguments. */
  lemma {:induction false} CodesCompose(xs: seq<Style>, ys: seq<Style>)
    ensures Codes(xs) == ComposeAll(xs).code
    ensures Codes(xs + ys) == Codes(xs) + Codes(ys)
    decreases |ys|, |xs|
  {
    if |xs| > 0 {
      CodesCompose(xs[..|xs| - 1], []);
    }
    if |ys| > 0 {
      var zs := xs + ys;
      assert zs[..|zs| - 1] == xs + ys[..|ys| - 1];
      CodesCompose(xs, ys[..|ys| - 1]);
    } else {
      assert xs + ys == xs;
    }
  }

  /** `for (Style s : styles) sb.append(s.code)`, on the builder contents `sb`. */
  method AppendCodes(sb: string, styles: seq<Style>) returns (r: string)
    ensures r == sb + Codes(styles)
  {
    r := sb;
    for i := 0 to |styles|
      invariant r == sb + Codes(styles[..i])
    {
      assert styles[..i + 1][..i] == styles[..i];
      r := r + styles[i].code;
    }
    assert styles[..|styles|] == styles;
  }

  /** `open(styles...)`: the codes of the styles in order, without a reset. */
  method Open(styles: seq<Style>) returns (r: string)
    ensures r == ComposeAll(styles).code
  {
    r := AppendCodes("", styles);
    CodesCompose(styles, []);
  }

  /** `close()`: the reset code. */
  function Close(): (r: string)
    ensures r == Sgr([0])
  {
    RESET.code
  }

  // ------------------ Proof helpers: string regrouping ------------------

  /** The truecolor code regrouped as an SGR sequence, for abstract pieces. */
  lemma {:induction false} TruecolorRegroup(e: string, open: string, lead: string, sep: string, two: string, x: string, y: string, z: string, m: string)
    ensures e + (open + lead + sep + two + sep) + x + sep + y + sep + z + m
         == e + open + (lead + sep + (two + sep + (x + sep + y + sep + z))) + m
  {
  }
}
