/**
 * The style-aware print stream: a wrapper that owns one builder for its whole
 * lifetime, renders every printed string through the lock processor with no
 * styles, appends the rendering to that builder and writes the builder's
 * entire contents to the wrapped stream.  The builder is never cleared.
 *
 * The wrapped stream is a sink `out`, one element per write it receives.
 */
module LockedPrintStreams {
  import opened Text
  import opened Styles
  import opened LockProcessing

  /** The builder after one `print(x)` that started from builder contents `buffer`. */
  function AfterPrint(buffer: string, x: string): (r: string) {
    buffer + Rendered(x, [])
  }

  class LockedPrintStream {
    /** The contents of the private builder. */
    var buffer: string
    /** The writes the wrapped stream has received, in order. */
    var out: seq<string>

    /** Every write is the line terminator or a snapshot of the builder, which only grows. */
    ghost predicate Valid()
      reads this
    {
      forall i :: 0 <= i < |out| ==> out[i] == LINE_SEPARATOR || out[i] <= buffer
    }

    constructor()
      ensures buffer == "" && out == []
      ensures Valid()
    {
      buffer := "";
      out := [];
    }

    /** Appends the unstyled rendering of `x` to the builder and writes the whole builder. */
    method Print(x: string)
      requires Valid()
      modifies this
      ensures buffer == AfterPrint(old(buffer), x)
      ensures out == old(out) + [buffer]
      ensures old(buffer) <= buffer
      ensures Valid()
    {
      var r := ProcessLocks(buffer, x, []);
      PrefixGrows(old(buffer), r, out);
      buffer := r;
      out := out + [r];
    }

    /**
     * Renders `x` into the builder, then hands the builder's contents to the
     * inherited `println`, which dispatches back to the overriding `print`
     * before it writes the line terminator: the rendering is rendered again.
     */
    method Println(x: string)
      requires Valid()
      modifies this
      ensures var first := AfterPrint(old(buffer), x);
        buffer == AfterPrint(first, first) && out == old(out) + [buffer, LINE_SEPARATOR]
      ensures old(buffer) <= buffer
      ensures Valid()
    {
      var r := ProcessLocks(buffer, x, []);
      PrefixGrows(buffer, r, out);
      buffer := r;
      Print(r);
      out := out + [LINE_SEPARATOR];
    }
  }

  /** A prefix of the old builder is a prefix of the grown one. */
  lemma {:induction false} PrefixGrows(old_buffer: string, new_buffer: string, writes: seq<string>)
    requires old_buffer <= new_buffer
    requires forall i :: 0 <= i < |writes| ==> writes[i] == LINE_SEPARATOR || writes[i] <= old_buffer
    ensures forall i :: 0 <= i < |writes| ==> writes[i] == LINE_SEPARATOR || writes[i] <= new_buffer
  {
  }

  /** Each `print` re-emits everything rendered before it: the builder's old contents head the new write. */
  lemma {:induction false} PrintReEmits(buffer: string, x: string, y: string)
    ensures AfterPrint(buffer, x) <= AfterPrint(AfterPrint(buffer, x), y)
    ensures AfterPrint(AfterPrint(buffer, x), y) == buffer + Rendered(x, []) + Rendered(y, [])
  {
  }

  /**
   * With no styles, an embedded escape sequence is written verbatim, a
   * non-empty gap before it becomes the gap followed by a reset, and a
   * non-empty tail after it becomes a bare reset.
   */
  lemma {:induction false} UnstyledEscape(buffer: string, l1: string, e: string, l2: string)
    requires ESC !in l1 && ESC !in l2
    requires IsAnsiSequence(e) && e != LOCK_START && e != LOCK_END
    ensures AfterPrint(buffer, l1 + e + l2) ==
      buffer + (if l1 == "" then "" else l1 + RESET.code) + e + (if l2 == "" then "" else RESET.code)
  {
    EscapeFlanked(l1, e, l2, []);
    assert Codes([]) == "";
    var head := if l1 == "" then "" else l1 + RESET.code;
    var tail := if l2 == "" then "" else RESET.code;
    assert head == (if l1 == "" then "" else Codes([]) + l1 + RESET.code);
    assert tail == (if l2 == "" then "" else Codes([]) + RESET.code);
    assert Rendered(l1 + e + l2, []) == head + e + tail;
    Assoc4(buffer, head, e, tail);
  }

  /** With no styles, a locked span of marker-free text is written verbatim. */
  lemma {:induction false} UnstyledLock(buffer: string, pre: string, t: string, post: string)
    requires MarkerFree(t)
    ensures AfterPrint(buffer, pre + Lock(t) + post) == buffer + Rendered(pre, []) + Lock(t) + Rendered(post, [])
  {
    LockedSpliced(pre, t, post, []);
    Assoc4(buffer, Rendered(pre, []), Lock(t), Rendered(post, []));
  }

  /**
   * `println` does not write what `print` would: on a fresh stream,
   * `print("a")` writes one reset, while `println("a")` writes two resets
   * (the rendering of `"a"`, then the rendering of that rendering) before
   * the terminator.
   */
  lemma {:induction false} PrintlnRendersTwice()
    ensures AfterPrint("", "a") == RESET.code
    ensures var first := AfterPrint("", "a"); AfterPrint(first, first) == RESET.code + RESET.code
    ensures var first := AfterPrint("", "a"); AfterPrint(first, first) != AfterPrint("", "a")
  {
    PlainTextDropped("a", []);
    assert Codes([]) == "";
    assert "" + RESET.code == RESET.code;
    ResetIsSequence();
    EscapeFlanked("", RESET.code, "", []);
    assert "" + RESET.code + "" == RESET.code;
  }

  lemma {:induction false} ResetIsSequence()
    ensures IsAnsiSequence(RESET.code) && RESET.code != LOCK_START && RESET.code != LOCK_END
  {
    assert RESET.code == [ESC, '[', '0', 'm'];
  }
}
