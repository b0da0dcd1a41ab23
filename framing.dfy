/**
 * The line framer of the background serial reader (app.py, `read_serial_data`):
 * characters are accumulated in `buffer` until a `'\n'` completes a line,
 * which is stripped and routed; a malformed scan line ends the reading loop.
 */
module Framing {
  import opened Wrappers
  import opened Text
  import opened ScanRouter

  /** The partial line after the last `'\n'` of a stream. */
  function Rest(s: string): (r: string)
    ensures '\n' !in r
  {
    if s == [] then []
    else if s[|s| - 1] == '\n' then []
    else
      Rest(s[..|s| - 1]) + [s[|s| - 1]]
  }

  /** The raw lines of a stream: each piece that a `'\n'` terminates, without it. */
  function Segments(s: string): (segs: seq<string>)
    ensures forall k :: 0 <= k < |segs| ==> '\n' !in segs[k]
  {
    if s == [] then []
    else if s[|s| - 1] == '\n' then Segments(s[..|s| - 1]) + [Rest(s[..|s| - 1])]
    else Segments(s[..|s| - 1])
  }

  /** The stream that a sequence of lines came from, each line followed by its `'\n'`. */
  function Join(segs: seq<string>): string {
    if segs == [] then [] else Join(segs[..|segs| - 1]) + segs[|segs| - 1] + "\n"
  }

  /** The complete lines the framer emits for a stream: its raw lines, stripped. */
  function Lines(s: string): seq<string> {
    if s == [] then []
    else if s[|s| - 1] == '\n' then Lines(s[..|s| - 1]) + [Strip(Rest(s[..|s| - 1]))]
    else Lines(s[..|s| - 1])
  }

  /**
   * The raw lines, each re-terminated, followed by the partial line, give back
   * the stream: the framer loses no character and invents none.
   */
  lemma {:induction false} Reconstruct(s: string)
    ensures Join(Segments(s)) + Rest(s) == s
    decreases |s|
  {
    if s != [] {
      var init := s[..|s| - 1];
      Reconstruct(init);
      assert s == init + [s[|s| - 1]];
    }
  }

  /** The emitted lines are exactly the stripped raw lines. */
  lemma {:induction false} LinesAreStrippedSegments(s: string)
    ensures |Lines(s)| == |Segments(s)|
    ensures forall k :: 0 <= k < |Lines(s)| ==> Lines(s)[k] == Strip(Segments(s)[k])
    decreases |s|
  {
    if s != [] {
      LinesAreStrippedSegments(s[..|s| - 1]);
    }
  }

  /** A stream without `'\n'` is all partial line, and emits nothing. */
  lemma {:induction false} NoNewlineNoLines(s: string)
    requires '\n' !in s
    ensures Rest(s) == s && Lines(s) == []
    decreases |s|
  {
    if s != [] {
      var init := s[..|s| - 1];
      assert s[|s| - 1] != '\n';
      assert '\n' !in init;
      NoNewlineNoLines(init);
      assert s == init + [s[|s| - 1]];
    }
  }

  /** Once the stream emitted a malformed line, further input changes neither what was forwarded nor the halt. */
  lemma {:induction false} HaltKeeps(s: string, t: string)
    requires Halts(Lines(s))
    ensures Halts(Lines(s + t)) && Forwarded(Lines(s + t)) == Forwarded(Lines(s))
    decreases |t|
  {
    if t == [] {
      assert s + t == s;
    } else {
      var t' := t[..|t| - 1];
      HaltKeeps(s, t');
      var u := s + t';
      assert (s + t)[..|s + t| - 1] == u;
      if (s + t)[|s + t| - 1] == '\n' {
        ForwardedAfterHalt(Lines(u), [Strip(Rest(u))]);
      }
    }
  }

  /** What one more character does to the emitted lines and to the partial line. */
  lemma StepStream(s: string, c: char)
    ensures Lines(s + [c]) == if c == '\n' then Lines(s) + [Strip(Rest(s))] else Lines(s)
    ensures Rest(s + [c]) == if c == '\n' then [] else Rest(s) + [c]
  {
    assert (s + [c])[..|s|] == s;
  }

  /** Reading one more character of the input extends the consumed prefix by that character. */
  lemma ExtendPrefix(s0: string, input: string, i: nat)
    requires i < |input|
    ensures s0 + input[..i + 1] == (s0 + input[..i]) + [input[i]]
  {
    assert input[..i + 1] == input[..i] + [input[i]];
  }

  /** The stream is the part consumed so far followed by the part still unread. */
  lemma SplitAt(s0: string, input: string, i: nat)
    requires i <= |input|
    ensures s0 + input == (s0 + input[..i]) + input[i..]
    ensures i == |input| ==> s0 + input == s0 + input[..i]
  {
    assert input == input[..i] + input[i..];
  }

  /**
   * The state of the reading loop: `buffer` is the partial line, and
   * `running` is false once the loop has left through its `break`.
   */
  class SerialReader {
    var buffer: string
    var running: bool

    ghost predicate Valid()
      reads this
    {
      '\n' !in buffer && (!running ==> buffer == [])
    }

    constructor ()
      ensures Valid() && buffer == [] && running
    {
      buffer := [];
      running := true;
    }

    /** One character read from the device; the result is the UID handed to the access decision, if any. */
    method Step(c: char) returns (uid: Option<string>)
      requires Valid()
      modifies this
      ensures Valid()
      ensures !old(running) ==> buffer == old(buffer) && !running && uid == None
      ensures old(running) && c != '\n' ==> buffer == old(buffer) + [c] && running && uid == None
      ensures old(running) && c == '\n' ==>
                var r := Route(Strip(old(buffer)));
                && buffer == []
                && running == !r.Malformed?
                && uid == (if r.Scan? then Some(r.uid) else None)
    {
      uid := None;
      if !running {
        return;
      }
      if c == '\n' {
        var line := Strip(buffer);
        buffer := [];
        match Route(line)
        case Scan(u) =>
          uid := Some(u);
        case Diagnostic(_) =>
        case Malformed(_) =>
          running := false;
      } else {
        buffer := buffer + [c];
      }
    }

    /**
     * The reading loop over the characters that arrive: it forwards the UIDs
     * of the scan lines in order and leaves at the first malformed line.
     */
    method Consume(input: string) returns (uids: seq<string>)
      requires Valid()
      modifies this
      ensures Valid()
      ensures !old(running) ==> uids == [] && buffer == old(buffer) && !running
      ensures old(running) ==>
                var lines := Lines(old(buffer) + input);
                && uids == Forwarded(lines)
                && running == !Halts(lines)
                && buffer == (if running then Rest(old(buffer) + input) else [])
    {
      uids := [];
      if !running {
        return;
      }
      ghost var s0 := buffer;
      NoNewlineNoLines(s0);
      ghost var seen := s0;
      var i := 0;
      while i < |input| && running
        invariant 0 <= i <= |input|
        invariant seen == s0 + input[..i]
        invariant Valid()
        invariant uids == Forwarded(Lines(seen))
        invariant running == !Halts(Lines(seen))
        invariant running ==> buffer == Rest(seen)
        decreases |input| - i
      {
        ghost var b := buffer;
        var c := input[i];
        ExtendPrefix(s0, input, i);
        var u := Step(c);
        if u.Some? {
          uids := uids + [u.value];
        }
        StepStream(seen, c);
        if c == '\n' {
          ForwardedStep(Lines(seen), Strip(b));
        }
        seen := seen + [c];
        i := i + 1;
      }
      SplitAt(s0, input, i);
      if i < |input| {
        HaltKeeps(seen, input[i..]);
      }
    }
  }
}
