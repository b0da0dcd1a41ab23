/**
 * The three Python string operations the serial reader relies on:
 * `str.strip()` with no argument, `str.startswith` and `str.split(": ", 1)`.
 */
module Text {
  import opened Wrappers

  /** Python's `str.isspace()` on one character: the characters `str.strip()` removes. */
  predicate IsSpace(c: char) {
    || ('\t' <= c <= '\r') || ('\U{1c}' <= c <= ' ') || c == '\U{85}' || c == '\U{a0}'
    || c == '\U{1680}' || ('\U{2000}' <= c <= '\U{200a}') || c == '\U{2028}' || c == '\U{2029}'
    || c == '\U{202f}' || c == '\U{205f}' || c == '\U{3000}'
  }

  ghost predicate AllSpace(s: string) {
    forall k :: 0 <= k < |s| ==> IsSpace(s[k])
  }

  /** The index of the first character at or after `k` that is not white space, or `|s|`. */
  function SkipSpace(s: string, k: nat): (r: nat)
    requires k <= |s|
    ensures k <= r <= |s|
    ensures forall m :: k <= m < r ==> IsSpace(s[m])
    ensures r == |s| || !IsSpace(s[r])
    decreases |s| - k
  {
    if k < |s| && IsSpace(s[k]) then SkipSpace(s, k + 1) else k
  }

  /** The index just after the last character before `k` that is not white space, or 0. */
  function BackSpace(s: string, k: nat): (r: nat)
    requires k <= |s|
    ensures r <= k
    ensures forall m :: r <= m < k ==> IsSpace(s[m])
    ensures r == 0 || !IsSpace(s[r - 1])
  {
    if k > 0 && IsSpace(s[k - 1]) then BackSpace(s, k - 1) else k
  }

  /**
   * `s.strip()`: a contiguous piece of `s` whose surroundings are all white
   * space and whose own first and last characters are not.
   */
  function Strip(s: string): (r: string)
    ensures exists i, j :: 0 <= i <= j <= |s| && r == s[i..j] && AllSpace(s[..i]) && AllSpace(s[j..])
    ensures r == [] || (!IsSpace(r[0]) && !IsSpace(r[|r| - 1]))
  {
    var i := SkipSpace(s, 0);
    if i == |s| then
      StripCut(s, i, i);
      s[i..i]
    else
      var j := BackSpace(s, |s|);
      assert i < j;
      StripCut(s, i, j);
      var r := s[i..j];
      assert r[0] == s[i] && r[|r| - 1] == s[j - 1];
      r
  }

  /** White space before `i` and from `j` on makes the slices on both sides all white space. */
  lemma StripCut(s: string, i: nat, j: nat)
    requires i <= j <= |s|
    requires forall m :: 0 <= m < i ==> IsSpace(s[m])
    requires forall m :: j <= m < |s| ==> IsSpace(s[m])
    ensures AllSpace(s[..i]) && AllSpace(s[j..])
  {
    forall k | 0 <= k < i ensures IsSpace(s[..i][k]) {
      assert s[..i][k] == s[k];
    }
    forall k | 0 <= k < |s| - j ensures IsSpace(s[j..][k]) {
      assert s[j..][k] == s[j + k];
    }
  }

  /**
   * Uniqueness: any index that has only white space from `k` up to it and a
   * non-space (or the end) at it is the one SkipSpace returns.
   */
  lemma SkipSpaceAt(s: string, k: nat, t: nat)
    requires k <= t <= |s|
    requires forall m :: k <= m < t ==> IsSpace(s[m])
    requires t == |s| || !IsSpace(s[t])
    ensures SkipSpace(s, k) == t
  {
  }

  /**
   * Uniqueness: any index with only white space from it up to `k` and a
   * non-space (or the start) just before it is the one BackSpace returns.
   */
  lemma BackSpaceAt(s: string, k: nat, t: nat)
    requires t <= k <= |s|
    requires forall m :: t <= m < k ==> IsSpace(s[m])
    requires t == 0 || !IsSpace(s[t - 1])
    ensures BackSpace(s, k) == t
  {
  }

  /** A text of white space alone strips to nothing. */
  lemma StripAllSpace(s: string)
    requires AllSpace(s)
    ensures Strip(s) == []
  {
    SkipSpaceAt(s, 0, |s|);
  }

  /** White space around a text whose ends are not white space is cut off exactly. */
  lemma StripAround(pre: string, core: string, post: string)
    requires AllSpace(pre) && AllSpace(post)
    requires core != [] && !IsSpace(core[0]) && !IsSpace(core[|core| - 1])
    ensures Strip(pre + core + post) == core
  {
    var s := pre + core + post;
    var i, j := |pre|, |pre| + |core|;
    forall m | 0 <= m < i ensures IsSpace(s[m]) {
      assert s[m] == pre[m];
    }
    assert s[i] == core[0];
    SkipSpaceAt(s, 0, i);
    forall m | j <= m < |s| ensures IsSpace(s[m]) {
      assert s[m] == post[m - j];
    }
    assert s[j - 1] == core[|core| - 1];
    BackSpaceAt(s, |s|, j);
    assert s[i..j] == core;
  }

  /**
   * Strip is determined by its contract: surrounding a text whose ends are not
   * white space by white space alone, then stripping, gives that text back.
   */
  lemma StripExact(pre: string, core: string, post: string)
    requires AllSpace(pre) && AllSpace(post)
    requires core == [] || (!IsSpace(core[0]) && !IsSpace(core[|core| - 1]))
    ensures Strip(pre + core + post) == core
  {
    if core == [] {
      var s := pre + core + post;
      assert AllSpace(s) by {
        forall k | 0 <= k < |s| ensures IsSpace(s[k]) {
          if k < |pre| { assert s[k] == pre[k]; } else { assert s[k] == post[k - |pre|]; }
        }
      }
      StripAllSpace(s);
    } else {
      StripAround(pre, core, post);
    }
  }

  /** Stripping twice is the same as stripping once. */
  lemma StripIdempotent(s: string)
    ensures Strip(Strip(s)) == Strip(s)
  {
    var r := Strip(s);
    assert [] + r == r && r + [] == r;
    StripExact([], r, []);
  }

  /** There is a `": "` separator at index `j` of `s`. */
  predicate IsSepAt(s: string, j: int) {
    0 <= j && j + 1 < |s| && s[j] == ':' && s[j + 1] == ' '
  }

  /** The index of the first `": "` in `s`, as `str.find(": ")` finds it. */
  function SepIndex(s: string): (r: Option<nat>)
    ensures r.Some? ==> IsSepAt(s, r.value) && forall j :: 0 <= j < r.value ==> !IsSepAt(s, j)
    ensures r.None? ==> forall j :: !IsSepAt(s, j)
  {
    if |s| < 2 then None
    else if s[0] == ':' && s[1] == ' ' then Some(0)
    else
      assert forall j :: 1 <= j ==> (IsSepAt(s, j) <==> IsSepAt(s[1..], j - 1));
      match SepIndex(s[1..])
      case Some(i) => Some(i + 1)
      case None => None
  }

  /**
   * `s.split(": ", 1)[1]`: the text after the first `": "`, or None where
   * the split yields a single piece and indexing it raises IndexError.
   */
  function AfterSep(s: string): (r: Option<string>)
    ensures r.None? <==> forall j :: !IsSepAt(s, j)
    ensures r.Some? ==> exists i :: IsSepAt(s, i) && (forall j :: 0 <= j < i ==> !IsSepAt(s, j))
                                    && r.value == s[i + 2..]
  {
    match SepIndex(s)
    case Some(i) => Some(s[i + 2..])
    case None => None
  }

  /** Splitting `head + ": " + tail` gives `tail` when `head` holds no separator of its own. */
  lemma SplitAfterHead(head: string, tail: string)
    requires ':' !in head
    ensures AfterSep(head + ": " + tail) == Some(tail)
  {
    var s := head + ": " + tail;
    assert IsSepAt(s, |head|);
    forall j | 0 <= j < |head| ensures !IsSepAt(s, j) {
      assert s[j] == head[j];
    }
    assert SepIndex(s) == Some(|head|);
    assert s[|head| + 2..] == tail;
  }
}
