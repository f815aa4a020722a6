/**
 * Substring search and splitting on a separator, as Python's `pat in s`
 * and `s.split(sep)` perform them: the search scans left to right for the
 * leftmost occurrence, and splitting cuts at successive non-overlapping
 * leftmost occurrences.
 */
module Text {
  import opened Wrappers

  /** `pat` occurs in `s` starting at index `i`. */
  predicate OccursAt(s: string, pat: string, i: int) {
    0 <= i && i + |pat| <= |s| && forall k | i <= k < i + |pat| :: s[k] == pat[k - i]
  }

  /** The index of the leftmost occurrence of `pat` in `s` at or after `from`, if any. */
  function IndexFrom(s: string, pat: string, from: nat): (r: Option<nat>)
    ensures r.Some? ==> from <= r.value && OccursAt(s, pat, r.value)
    ensures r.Some? ==> forall j | from <= j < r.value :: !OccursAt(s, pat, j)
    ensures r.None? ==> forall j | from <= j :: !OccursAt(s, pat, j)
    decreases |s| - from
  {
    if |s| < from + |pat| then None
    else if s[from..from + |pat|] == pat then
      assert forall k | from <= k < from + |pat| :: s[k] == s[from..from + |pat|][k - from];
      Some(from)
    else IndexFrom(s, pat, from + 1)
  }

  /** The index of the leftmost occurrence of `pat` in `s` (Python's `s.find(pat)`), if any. */
  function IndexOf(s: string, pat: string): Option<nat> {
    IndexFrom(s, pat, 0)
  }

  /** Python's `pat in s`. */
  predicate Contains(s: string, pat: string) {
    IndexOf(s, pat).Some?
  }

  /** The search is exact: it succeeds exactly when the pattern occurs somewhere. */
  lemma ContainsIff(s: string, pat: string)
    ensures Contains(s, pat) <==> exists i :: OccursAt(s, pat, i)
  {
  }

  /** The pieces of `s[from..]` split on `sep`. */
  function SplitFrom(s: string, sep: string, from: nat): (r: seq<string>)
    requires |sep| > 0 && from <= |s|
    ensures |r| >= 1
    decreases |s| - from
  {
    match IndexFrom(s, sep, from)
    case None => [s[from..]]
    case Some(i) => [s[from..i]] + SplitFrom(s, sep, i + |sep|)
  }

  /** Python's `s.split(sep)` for a non-empty separator. */
  function Split(s: string, sep: string): seq<string>
    requires |sep| > 0
  {
    SplitFrom(s, sep, 0)
  }

  /** Python's `sep.join(pieces)`. */
  function Join(pieces: seq<string>, sep: string): string
    requires |pieces| >= 1
  {
    if |pieces| == 1 then pieces[0] else pieces[0] + sep + Join(pieces[1..], sep)
  }

  /** An occurrence inside a slice is an occurrence in the whole text. */
  lemma OccursInSlice(s: string, pat: string, a: nat, b: nat, j: int)
    requires a <= b <= |s| && OccursAt(s[a..b], pat, j)
    ensures OccursAt(s, pat, a + j) && a + j + |pat| <= b
  {
    assert forall k | a + j <= k < a + j + |pat| :: s[k] == s[a..b][k - a];
  }

  /** A stretch of text that starts at `from` and ends before the next occurrence holds none. */
  lemma FreeBefore(s: string, pat: string, from: nat, to: nat)
    requires |pat| > 0 && from <= to <= |s|
    requires forall j | from <= j < to :: !OccursAt(s, pat, j)
    ensures !Contains(s[from..to], pat)
  {
    var piece := s[from..to];
    if Contains(piece, pat) {
      OccursInSlice(s, pat, from, to, IndexOf(piece, pat).value);
    }
  }

  /** The first piece when a further separator follows: it stops there. */
  lemma SplitFromHeadBefore(s: string, sep: string, from: nat, i: nat)
    requires |sep| > 0 && from <= |s| && IndexFrom(s, sep, from) == Some(i)
    ensures SplitFrom(s, sep, from)[0] == s[from..i]
  {
  }

  /** The first piece when no separator follows: it runs to the end. */
  lemma SplitFromHeadLast(s: string, sep: string, from: nat)
    requires |sep| > 0 && from <= |s| && IndexFrom(s, sep, from).None?
    ensures SplitFrom(s, sep, from)[0] == s[from..]
  {
  }

  /** The first piece runs from `from` to the next occurrence or the end, and holds none. */
  lemma SplitFromHead(s: string, sep: string, from: nat)
    requires |sep| > 0 && from <= |s|
    ensures IndexFrom(s, sep, from).None? ==> SplitFrom(s, sep, from)[0] == s[from..]
    ensures IndexFrom(s, sep, from).Some? ==> SplitFrom(s, sep, from)[0] == s[from..IndexFrom(s, sep, from).value]
    ensures !Contains(SplitFrom(s, sep, from)[0], sep)
  {
    var r := IndexFrom(s, sep, from);
    if r.Some? {
      SplitFromHeadBefore(s, sep, from, r.value);
      FreeBefore(s, sep, from, r.value);
    } else {
      SplitFromHeadLast(s, sep, from);
      FreeBefore(s, sep, from, |s|);
      assert s[from..] == s[from..|s|];
    }
  }

  /** Cutting at an occurrence and putting the separator back gives the text again. */
  lemma ReassembleAt(s: string, sep: string, from: nat, i: nat)
    requires from <= i && OccursAt(s, sep, i)
    ensures s[from..i] + sep + s[i + |sep|..] == s[from..]
  {
    assert s[i..i + |sep|] == sep by {
      assert forall k | i <= k < i + |sep| :: s[k] == s[i..i + |sep|][k - i];
    }
    assert s[from..] == s[from..i] + s[i..i + |sep|] + s[i + |sep|..];
  }

  lemma SplitFromUnfold(s: string, sep: string, from: nat, i: nat)
    requires |sep| > 0 && from <= |s| && IndexFrom(s, sep, from) == Some(i)
    ensures SplitFrom(s, sep, from) == [s[from..i]] + SplitFrom(s, sep, i + |sep|)
  {
  }

  /** Joining the pieces of a split with the separator gives back the text. */
  lemma {:induction false} JoinSplitFrom(s: string, sep: string, from: nat)
    requires |sep| > 0 && from <= |s|
    ensures Join(SplitFrom(s, sep, from), sep) == s[from..]
    decreases |s| - from
  {
    var r := IndexFrom(s, sep, from);
    if r.Some? {
      var i := r.value;
      var pieces := SplitFrom(s, sep, from);
      var rest := SplitFrom(s, sep, i + |sep|);
      SplitFromUnfold(s, sep, from, i);
      assert pieces[0] == s[from..i] && pieces[1..] == rest;
      JoinSplitFrom(s, sep, i + |sep|);
      assert Join(pieces, sep) == s[from..i] + sep + s[i + |sep|..];
      ReassembleAt(s, sep, from, i);
    }
  }

  /** Python's identity `sep.join(s.split(sep)) == s`. */
  lemma JoinSplit(s: string, sep: string)
    requires |sep| > 0
    ensures Join(Split(s, sep), sep) == s
  {
    JoinSplitFrom(s, sep, 0);
  }

  /** No piece of a split holds the separator. */
  lemma {:induction false} SplitFromPiecesFree(s: string, sep: string, from: nat, k: nat)
    requires |sep| > 0 && from <= |s| && k < |SplitFrom(s, sep, from)|
    ensures !Contains(SplitFrom(s, sep, from)[k], sep)
    decreases |s| - from
  {
    SplitFromHead(s, sep, from);
    if k > 0 {
      var i := IndexFrom(s, sep, from).value;
      SplitFromPiecesFree(s, sep, i + |sep|, k - 1);
    }
  }

  /** A split yields at least two pieces exactly when the separator occurs. */
  lemma SplitCount(s: string, sep: string)
    requires |sep| > 0
    ensures |Split(s, sep)| >= 2 <==> Contains(s, sep)
  {
  }

  /**
   * When the separator occurs, the second piece of a split is the text
   * after its leftmost occurrence, up to the next occurrence or the end.
   */
  lemma SplitSecond(s: string, sep: string)
    requires |sep| > 0 && Contains(s, sep)
    ensures |Split(s, sep)| >= 2
    ensures
      var start := IndexOf(s, sep).value + |sep|;
      var piece := Split(s, sep)[1];
      && start + |piece| <= |s|
      && piece == s[start..start + |piece|]
      && !Contains(piece, sep)
      && (start + |piece| == |s| || OccursAt(s, sep, start + |piece|))
  {
    var start := IndexOf(s, sep).value + |sep|;
    assert Split(s, sep)[1] == SplitFrom(s, sep, start)[0];
    SplitFromHead(s, sep, start);
  }
}
