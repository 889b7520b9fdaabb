/**
 * The few JavaScript string operations that the two pages rely on, on plain
 * character sequences: the `\s` class and `trim`, `startsWith`, `indexOf`,
 * `replace` with a string pattern, and the letter folding a case-insensitive
 * regular expression uses.
 */
module JsString {
  import opened Wrappers

  /** The ECMAScript WhiteSpace and LineTerminator code points: the set matched by `\s` and removed by `trim`. */
  predicate IsSpace(c: char) {
    c == '\t' || c == '\n' || c == '\U{B}' || c == '\U{C}' || c == '\r' || c == ' '
    || c == '\U{A0}' || c == '\U{1680}' || ('\U{2000}' <= c <= '\U{200A}')
    || c == '\U{2028}' || c == '\U{2029}' || c == '\U{202F}' || c == '\U{205F}'
    || c == '\U{3000}' || c == '\U{FEFF}'
  }

  /** Every character of `s` is white space (the empty string included). */
  predicate IsBlank(s: string) {
    forall i :: 0 <= i < |s| ==> IsSpace(s[i])
  }

  /** The end of the run of characters satisfying `inRun` that starts at position `i` of `s`. */
  function RunEnd(s: string, i: nat, inRun: char -> bool): (k: nat)
    requires i <= |s|
    ensures i <= k <= |s|
    ensures forall j :: i <= j < k ==> inRun(s[j])
    ensures k == |s| || !inRun(s[k])
    decreases |s| - i
  {
    if i < |s| && inRun(s[i]) then RunEnd(s, i + 1, inRun) else i
  }

  /** A run is maximal where it meets a character outside the class, so that is where `RunEnd` stops. */
  lemma {:induction false} RunEndIs(s: string, i: nat, k: nat, inRun: char -> bool)
    requires i <= k <= |s|
    requires forall j :: i <= j < k ==> inRun(s[j])
    requires k == |s| || !inRun(s[k])
    ensures RunEnd(s, i, inRun) == k
    decreases k - i
  {
    if i < k {
      RunEndIs(s, i + 1, k, inRun);
    }
  }

  /** The start of the run of white space that ends at position `hi` of `s`, looking no further left than `lo`. */
  function SpaceRunStart(s: string, lo: nat, hi: nat): (k: nat)
    requires lo <= hi <= |s|
    ensures lo <= k <= hi
    ensures forall j :: k <= j < hi ==> IsSpace(s[j])
    ensures k == lo || !IsSpace(s[k - 1])
    decreases hi
  {
    if lo < hi && IsSpace(s[hi - 1]) then SpaceRunStart(s, lo, hi - 1) else hi
  }

  /** Where the text that `trim` keeps begins and ends. */
  function TrimBounds(s: string): (b: (nat, nat))
    ensures b.0 <= b.1 <= |s|
    ensures forall j :: 0 <= j < b.0 ==> IsSpace(s[j])
    ensures forall j :: b.1 <= j < |s| ==> IsSpace(s[j])
    ensures b.0 < b.1 ==> !IsSpace(s[b.0]) && !IsSpace(s[b.1 - 1])
  {
    var lo := RunEnd(s, 0, IsSpace);
    (lo, SpaceRunStart(s, lo, |s|))
  }

  /** `String.prototype.trim`: the text between the leading and the trailing white space. */
  function Trim(s: string): (r: string)
    ensures r == s[TrimBounds(s).0..TrimBounds(s).1]
    ensures r == [] || (!IsSpace(r[0]) && !IsSpace(r[|r| - 1]))
    ensures r == [] <==> IsBlank(s)
  {
    var (lo, hi) := TrimBounds(s);
    s[lo..hi]
  }

  /** Text that neither starts nor ends with white space is left as it is by `trim`. */
  lemma TrimOfTrimmed(s: string)
    requires s == [] || (!IsSpace(s[0]) && !IsSpace(s[|s| - 1]))
    ensures Trim(s) == s
  {
    assert s[0..|s|] == s;
  }

  /** `s.startsWith(p)`. */
  predicate StartsWith(s: string, p: string) {
    |p| <= |s| && s[..|p|] == p
  }

  /** `p` occurs in `s` at position `i`. */
  predicate OccursAt(s: string, p: string, i: nat) {
    i + |p| <= |s| && s[i..i + |p|] == p
  }

  /** `s.indexOf(p, i)`: the first position at or after `i` where `p` occurs, `None` for -1. */
  function IndexFrom(s: string, p: string, i: nat): (r: Option<nat>)
    requires i <= |s|
    ensures r.Some? ==> i <= r.value && OccursAt(s, p, r.value)
    ensures r.Some? ==> forall j :: i <= j < r.value ==> !OccursAt(s, p, j)
    ensures r.None? ==> forall j :: i <= j <= |s| ==> !OccursAt(s, p, j)
    decreases |s| - i
  {
    if OccursAt(s, p, i) then Some(i)
    else if i == |s| then None
    else IndexFrom(s, p, i + 1)
  }

  /** `s.indexOf(p)`. */
  function IndexOf(s: string, p: string): Option<nat> {
    IndexFrom(s, p, 0)
  }

  /** `s.replace(p, rep)` with a string pattern: only the first occurrence is replaced. */
  function ReplaceFirst(s: string, p: string, rep: string): (r: string)
    ensures IndexOf(s, p).None? ==> r == s
    ensures IndexOf(s, p).Some? ==> |r| == |s| - |p| + |rep|
    ensures StartsWith(s, p) ==> r == rep + s[|p|..]
  {
    match IndexOf(s, p)
    case None => s
    case Some(i) => s[..i] + rep + s[i + |p|..]
  }

  /**
   * The letter folding of a case-insensitive, non-Unicode regular expression
   * for an ASCII pattern: an ASCII letter is equal to its other case, and every
   * other character only to itself (the engine never lets a non-ASCII character
   * fold onto an ASCII one).
   */
  function Fold(c: char): (r: char)
    ensures r == c || ('a' <= c <= 'z' && 'A' <= r <= 'Z')
  {
    if 'a' <= c <= 'z' then (c as int - 32) as char else c
  }

  /** `t` begins with `p` when compared letter-case-insensitively. */
  predicate StartsWithCI(t: string, p: string) {
    |p| <= |t| && forall k :: 0 <= k < |p| ==> Fold(t[k]) == Fold(p[k])
  }

  /** `p` occurs somewhere in `t`, compared letter-case-insensitively (what `/p/i.test(t)` decides). */
  predicate ContainsCI(t: string, p: string)
    decreases |t|
  {
    StartsWithCI(t, p) || (t != [] && ContainsCI(t[1..], p))
  }

  /**
   * `s.replace(/pat/gi, rep)` for a literal pattern: scanning from the left,
   * every occurrence that starts where the previous one ended is replaced.
   */
  function ReplaceAllCI(s: string, pat: string, rep: string): (r: string)
    requires pat != []
    ensures forall c :: c in r ==> c in s || c in rep
    decreases |s|
  {
    if s == [] then []
    else if StartsWithCI(s, pat) then
      var rest := ReplaceAllCI(s[|pat|..], pat, rep);
      assert forall c :: c in s[|pat|..] ==> c in s;
      rep + rest
    else
      var rest := ReplaceAllCI(s[1..], pat, rep);
      assert forall c :: c in s[1..] ==> c in s;
      [s[0]] + rest
  }

  /** Text in which the pattern does not occur is passed through unchanged. */
  lemma {:induction false} ReplaceAllCIWithoutMatch(s: string, pat: string, rep: string)
    requires pat != [] && !ContainsCI(s, pat)
    ensures ReplaceAllCI(s, pat, rep) == s
    decreases |s|
  {
    if s != [] {
      ReplaceAllCIWithoutMatch(s[1..], pat, rep);
    }
  }

  /** A match at the front is replaced by `rep`, and the scan resumes right after it. */
  lemma ReplaceAllCIAtMatch(m: string, s: string, pat: string, rep: string)
    requires pat != [] && |m| == |pat| && StartsWithCI(m, pat)
    ensures ReplaceAllCI(m + s, pat, rep) == rep + ReplaceAllCI(s, pat, rep)
  {
    assert StartsWithCI(m + s, pat) by {
      forall k | 0 <= k < |pat| ensures Fold((m + s)[k]) == Fold(pat[k]) {
        assert (m + s)[k] == m[k];
      }
    }
    assert (m + s)[|pat|..] == s;
  }

  /** Text in which no match begins is copied unchanged, in order, even when it holds the pattern's first character. */
  lemma {:induction false} ReplaceAllCIKeepsText(w: string, s: string, pat: string, rep: string)
    requires pat != [] && forall i :: 0 <= i < |w| ==> !StartsWithCI((w + s)[i..], pat)
    ensures ReplaceAllCI(w + s, pat, rep) == w + ReplaceAllCI(s, pat, rep)
    decreases |w|
  {
    if w == [] {
      assert w + s == s;
    } else {
      assert (w + s)[0..] == w + s;
      forall i | 0 <= i < |w[1..]| ensures !StartsWithCI((w[1..] + s)[i..], pat) {
        assert (w[1..] + s)[i..] == (w + s)[i + 1..];
      }
      DropFirstOfJoin(w, s);
      ReplaceAllCIKeepsText(w[1..], s, pat, rep);
    }
  }

  /** Text none of whose characters folds to the pattern's first character holds no beginning of a match. */
  lemma NoMatchInPlain(w: string, s: string, pat: string)
    requires pat != [] && forall i :: 0 <= i < |w| ==> Fold(w[i]) != Fold(pat[0])
    ensures forall i :: 0 <= i < |w| ==> !StartsWithCI((w + s)[i..], pat)
  {
    forall i | 0 <= i < |w| ensures !StartsWithCI((w + s)[i..], pat) {
      assert (w + s)[i..][0] == w[i];
    }
  }

  /**
   * No match begins inside `a` in `a + t` when `a` holds no occurrence and the
   * first character of `t` cannot continue the pattern: a match starting in
   * `a` would either lie in `a` or run into `t` past the pattern's first
   * character.
   */
  lemma NoMatchBefore(a: string, t: string, pat: string)
    requires pat != [] && t != [] && !ContainsCI(a, pat)
    requires forall k :: 1 <= k < |pat| ==> Fold(t[0]) != Fold(pat[k])
    ensures forall i :: 0 <= i < |a| ==> !StartsWithCI((a + t)[i..], pat)
  {
    forall i | 0 <= i < |a| ensures !StartsWithCI((a + t)[i..], pat) {
      var x := (a + t)[i..];
      if i + |pat| <= |a| {
        if StartsWithCI(x, pat) {
          assert StartsWithCI(a[i..], pat) by {
            forall k | 0 <= k < |pat| ensures Fold(a[i..][k]) == Fold(pat[k]) {
              assert a[i..][k] == x[k];
            }
          }
          ContainsInSuffix(a, i, pat);
        }
      } else {
        var k := |a| - i;
        assert x[k] == t[0];
        assert Fold(x[k]) != Fold(pat[k]);
      }
    }
  }

  /** An occurrence in a suffix is an occurrence in the whole text. */
  lemma {:induction false} ContainsInSuffix(t: string, k: nat, p: string)
    requires k <= |t|
    ensures ContainsCI(t[k..], p) ==> ContainsCI(t, p)
    decreases k
  {
    if k > 0 {
      ContainsInSuffix(t[1..], k - 1, p);
      assert t[1..][k - 1..] == t[k..];
    }
  }

  /**
   * `s.replace(/X+/g, " ")` for a character class `X` given as `inRun`: every
   * maximal run of such characters becomes one space.
   */
  function ReplaceRuns(s: string, inRun: char -> bool): (r: string)
    ensures forall i :: 0 <= i < |r| ==> !inRun(r[i]) || r[i] == ' '
    ensures forall i, j :: 0 <= i && j == i + 1 && j < |r| ==> !(inRun(r[i]) && inRun(r[j]))
    ensures s != [] && !inRun(s[0]) ==> r != [] && r[0] == s[0]
    ensures forall c :: c in r ==> c in s || c == ' '
    ensures |r| <= |s|
    ensures s != [] ==> r != []
    decreases |s|
  {
    if s == [] then []
    else if inRun(s[0]) then
      var k := RunEnd(s, 0, inRun);
      var rest := ReplaceRuns(s[k..], inRun);
      assert forall c :: c in s[k..] ==> c in s;
      [' '] + rest
    else
      var rest := ReplaceRuns(s[1..], inRun);
      assert forall c :: c in s[1..] ==> c in s;
      [s[0]] + rest
  }

  /** Text outside the class is copied as it stands. */
  lemma {:induction false} ReplaceRunsKeepsWord(w: string, s: string, inRun: char -> bool)
    requires forall i :: 0 <= i < |w| ==> !inRun(w[i])
    ensures ReplaceRuns(w + s, inRun) == w + ReplaceRuns(s, inRun)
    decreases |w|
  {
    if w == [] {
      assert w + s == s;
    } else {
      assert (w + s)[1..] == w[1..] + s;
      ReplaceRunsKeepsWord(w[1..], s, inRun);
    }
  }

  /** A whole run, however long, becomes exactly one space. */
  lemma ReplaceRunsOfRun(x: string, y: string, inRun: char -> bool)
    requires x != [] && forall i :: 0 <= i < |x| ==> inRun(x[i])
    requires y == [] || !inRun(y[0])
    ensures ReplaceRuns(x + y, inRun) == [' '] + ReplaceRuns(y, inRun)
  {
    var s := x + y;
    RunEndIs(s, 0, |x|, inRun);
    assert s[|x|..] == y;
  }

  /** A run at the front of `a` ends in the same place in `a + b` when `b` starts outside the class. */
  lemma RunEndOfAppend(a: string, b: string, inRun: char -> bool)
    requires b == [] || !inRun(b[0])
    ensures var k := RunEnd(a, 0, inRun); RunEnd(a + b, 0, inRun) == k && (a + b)[k..] == a[k..] + b
  {
    var k := RunEnd(a, 0, inRun);
    var s := a + b;
    forall j | 0 <= j < k ensures inRun(s[j]) {
      assert s[j] == a[j];
    }
    if k < |a| {
      assert s[k] == a[k];
    } else if b != [] {
      assert s[k] == b[0];
    }
    RunEndIs(s, 0, k, inRun);
  }

  /** Joining texts is associative. */
  lemma ConcatAssoc(x: string, y: string, z: string)
    ensures x + (y + z) == (x + y) + z
  {
  }

  /** Dropping the first character of a join drops it from the first part. */
  lemma DropFirstOfJoin(a: string, b: string)
    requires a != []
    ensures (a + b)[0] == a[0] && (a + b)[1..] == a[1..] + b
  {
  }

  /** The step of `ReplaceRunsSplit` where `a` starts with a run: the run is rewritten first, then the rest of `a` and `b`. */
  lemma SplitAtRun(a: string, b: string, inRun: char -> bool)
    requires b == [] || !inRun(b[0])
    requires a != [] && inRun(a[0])
    requires var k := RunEnd(a, 0, inRun);
      ReplaceRuns(a[k..] + b, inRun) == ReplaceRuns(a[k..], inRun) + ReplaceRuns(b, inRun)
    ensures ReplaceRuns(a + b, inRun) == ReplaceRuns(a, inRun) + ReplaceRuns(b, inRun)
  {
    var k := RunEnd(a, 0, inRun);
    RunEndOfAppend(a, b, inRun);
    assert (a + b)[0] == a[0];
    ConcatAssoc([' '], ReplaceRuns(a[k..], inRun), ReplaceRuns(b, inRun));
  }

  /** The step of `ReplaceRunsSplit` where `a` starts outside the class: that character is copied first. */
  lemma SplitAtChar(a: string, b: string, inRun: char -> bool)
    requires a != [] && !inRun(a[0])
    requires ReplaceRuns(a[1..] + b, inRun) == ReplaceRuns(a[1..], inRun) + ReplaceRuns(b, inRun)
    ensures ReplaceRuns(a + b, inRun) == ReplaceRuns(a, inRun) + ReplaceRuns(b, inRun)
  {
    DropFirstOfJoin(a, b);
    ConcatAssoc([a[0]], ReplaceRuns(a[1..], inRun), ReplaceRuns(b, inRun));
  }

  /**
   * A text can be cut where the second part starts outside the class: no run
   * crosses that point, so the two parts are rewritten separately.
   */
  lemma {:induction false} ReplaceRunsSplit(a: string, b: string, inRun: char -> bool)
    requires b == [] || !inRun(b[0])
    ensures ReplaceRuns(a + b, inRun) == ReplaceRuns(a, inRun) + ReplaceRuns(b, inRun)
    decreases |a|
  {
    if a == [] {
      assert a + b == b;
    } else if inRun(a[0]) {
      ReplaceRunsSplit(a[RunEnd(a, 0, inRun)..], b, inRun);
      SplitAtRun(a, b, inRun);
    } else {
      ReplaceRunsSplit(a[1..], b, inRun);
      SplitAtChar(a, b, inRun);
    }
  }
}
