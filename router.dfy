/**
 * The scan router of the serial reader (app.py, `read_serial_data`): what
 * becomes of one complete, stripped line received from the reader device.
 */
module ScanRouter {
  import opened Wrappers
  import opened Text

  /** The literal that marks an identity-scan line. */
  const ScanPrefix: string := "Scanned UID:"

  /** What the reader does with one line. */
  datatype Routed =
    | Scan(uid: string)         // the UID is handed to the access decision
    | Diagnostic(line: string)  // any other device message, only printed
    | Malformed(line: string)   // `split(": ", 1)[1]` raised IndexError: the reader stops

  function Route(line: string): (r: Routed)
    ensures r.Diagnostic? <==> !(ScanPrefix <= line)
    ensures r.Diagnostic? ==> r.line == line
    ensures r.Malformed? <==> ScanPrefix <= line && forall j :: !IsSepAt(line, j)
    ensures r.Scan? ==> exists i :: IsSepAt(line, i) && (forall j :: 0 <= j < i ==> !IsSepAt(line, j))
                                    && r.uid == Strip(line[i + 2..])
  {
    if !(ScanPrefix <= line) then Diagnostic(line)
    else match AfterSep(line)
      case Some(t) => Scan(Strip(t))
      case None => Malformed(line)
  }

  /** The UIDs one routed line hands on: one for a scan, none otherwise. */
  function Handed(r: Routed): seq<string> {
    if r.Scan? then [r.uid] else []
  }

  /**
   * A scan line forwards everything after `"Scanned UID: "`, stripped; the
   * colons inside the UID are kept.
   */
  lemma RouteScannedUid(t: string)
    ensures Route("Scanned UID: " + t) == Scan(Strip(t))
  {
    var head := "Scanned UID";
    assert ':' !in head;
    assert "Scanned UID: " + t == head + ": " + t;
    SplitAfterHead(head, t);
    assert ScanPrefix <= "Scanned UID: " + t;
  }

  /** A UID that has no surrounding white space is forwarded exactly as sent. */
  lemma RouteStrippedUid(t: string)
    requires t != [] && !IsSpace(t[0]) && !IsSpace(t[|t| - 1])
    ensures Route("Scanned UID: " + t) == Scan(t)
  {
    assert [] + t == t && t + [] == t;
    StripExact([], t, []);
    RouteScannedUid(t);
  }

  /**
   * A prefixed line whose prefix is not followed by a space, and which holds
   * no `": "` later either, is malformed: no UID is forwarded.
   */
  lemma RouteWithoutSeparator(t: string)
    requires forall j :: !IsSepAt(t, j)
    requires t == [] || t[0] != ' '
    ensures Route(ScanPrefix + t) == Malformed(ScanPrefix + t)
  {
    var s := ScanPrefix + t;
    assert ScanPrefix <= s;
    assert ':' !in "Scanned UID";
    forall j ensures !IsSepAt(s, j) {
      if 0 <= j < 11 {
        assert s[j] == "Scanned UID"[j];
      } else if j >= 12 && j + 1 < |s| {
        assert s[j] == t[j - 12] && s[j + 1] == t[j - 11];
        assert !IsSepAt(t, j - 12);
      }
    }
  }

  /** The line `"Scanned UID:"` alone, which a scan with an empty UID strips to, is malformed. */
  lemma RouteEmptyScan()
    ensures Route("Scanned UID:").Malformed?
  {
    assert ScanPrefix + [] == "Scanned UID:";
    RouteWithoutSeparator([]);
  }

  /** Some line of `lines` is malformed, so the reader stops at it. */
  ghost predicate Halts(lines: seq<string>) {
    exists k :: 0 <= k < |lines| && Route(lines[k]).Malformed?
  }

  /**
   * The UIDs the reader forwards for a sequence of lines, in order: those of
   * the scan lines before the first malformed line.
   */
  ghost function Forwarded(lines: seq<string>): (uids: seq<string>)
    ensures |uids| <= |lines|
  {
    if lines == [] then []
    else
      var init := lines[..|lines| - 1];
      if Halts(init) then Forwarded(init)
      else Forwarded(init) + Handed(Route(lines[|lines| - 1]))
  }

  /** One more line: it is forwarded unless the reader has already stopped, and it stops the reader if malformed. */
  lemma ForwardedStep(lines: seq<string>, line: string)
    ensures Forwarded(lines + [line]) == if Halts(lines) then Forwarded(lines) else Forwarded(lines) + Handed(Route(line))
    ensures Halts(lines + [line]) <==> Halts(lines) || Route(line).Malformed?
  {
    var all := lines + [line];
    assert all[..|all| - 1] == lines;
    assert all[|lines|] == line;
    if Halts(lines) {
      var k :| 0 <= k < |lines| && Route(lines[k]).Malformed?;
      assert all[k] == lines[k];
    }
    if Halts(all) {
      var k :| 0 <= k < |all| && Route(all[k]).Malformed?;
      if k < |lines| { assert all[k] == lines[k]; }
    }
  }

  /** Once a malformed line has been seen, nothing that follows is forwarded. */
  lemma {:induction false} ForwardedAfterHalt(a: seq<string>, b: seq<string>)
    requires Halts(a)
    ensures Halts(a + b) && Forwarded(a + b) == Forwarded(a)
    decreases |b|
  {
    var k :| 0 <= k < |a| && Route(a[k]).Malformed?;
    assert (a + b)[k] == a[k];
    if b == [] {
      assert a + b == a;
    } else {
      var b' := b[..|b| - 1];
      assert (a + b)[..|a + b| - 1] == a + b';
      ForwardedAfterHalt(a, b');
    }
  }

  /** Lines that arrive later never change what was forwarded before them (FIFO order). */
  lemma {:induction false} ForwardedPrefix(a: seq<string>, b: seq<string>)
    ensures Forwarded(a) <= Forwarded(a + b)
    decreases |b|
  {
    if b == [] {
      assert a + b == a;
    } else {
      var b' := b[..|b| - 1];
      assert (a + b)[..|a + b| - 1] == a + b';
      ForwardedPrefix(a, b');
    }
  }
}
