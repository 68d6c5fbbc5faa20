/**
 * Ordinal string replacement, as done by .NET's `String.Replace(oldValue, newValue)`.
 * The synchronization pass uses it to map a path of one tree onto the other tree
 * (Program.cs lines 134, 146, 170 and 182), and the digest formatting uses it to
 * drop the dashes of `BitConverter.ToString` (line 206).
 */
module Strings {

  /** True when `pat` occurs in `s` starting at index `i`. */
  predicate OccursAt(s: string, pat: string, i: nat)
  {
    i + |pat| <= |s| && s[i..i + |pat|] == pat
  }

  /** True when `pat` occurs anywhere in `s`. */
  predicate Occurs(s: string, pat: string)
  {
    exists i: nat | i <= |s| :: OccursAt(s, pat, i)
  }

  /**
   * Replaces every occurrence of `oldValue` in `s` by `newValue`, scanning left
   * to right; occurrences are non-overlapping and the text produced by a
   * replacement is never scanned again.  .NET rejects an empty `oldValue`.
   */
  function Replace(s: string, oldValue: string, newValue: string): string
    requires |oldValue| > 0
    decreases |s|
  {
    if |s| < |oldValue| then s
    else if s[..|oldValue|] == oldValue then newValue + Replace(s[|oldValue|..], oldValue, newValue)
    else [s[0]] + Replace(s[1..], oldValue, newValue)
  }

  /** An occurrence in the tail of `s` is an occurrence in `s` one index further. */
  lemma OccursAtTail(s: string, pat: string, i: nat)
    requires |s| > 0
    ensures OccursAt(s[1..], pat, i) <==> OccursAt(s, pat, i + 1)
  {
    if i + 1 + |pat| <= |s| {
      assert s[1..][i..i + |pat|] == s[i + 1..i + 1 + |pat|];
    }
  }

  /** A string in which the pattern does not occur is left as it is. */
  lemma {:induction false} ReplaceAbsent(s: string, pat: string, x: string)
    requires |pat| > 0
    requires !Occurs(s, pat)
    ensures Replace(s, pat, x) == s
    decreases |s|
  {
    if |s| >= |pat| {
      assert !OccursAt(s, pat, 0);
      assert s[..|pat|] != pat;
      forall i: nat
        ensures !OccursAt(s[1..], pat, i)
      {
        OccursAtTail(s, pat, i);
      }
      ReplaceAbsent(s[1..], pat, x);
      assert [s[0]] + s[1..] == s;
    }
  }

  /**
   * When the root occurs in a path only as its leading prefix, Replace is exactly
   * root substitution: the root is swapped and the rest is kept verbatim.
   */
  lemma {:induction false} ReplaceRoot(rest: string, root: string, x: string)
    requires |root| > 0
    requires !Occurs(rest, root)
    ensures Replace(root + rest, root, x) == x + rest
  {
    var s := root + rest;
    assert s[..|root|] == root;
    assert s[|root|..] == rest;
    ReplaceAbsent(rest, root, x);
  }

  /**
   * Mapping a path from one root to another and back returns the original path,
   * provided neither root text reappears after the leading root.
   */
  lemma {:induction false} ReplaceRoundTrip(rest: string, src: string, rep: string)
    requires |src| > 0 && |rep| > 0
    requires !Occurs(rest, src) && !Occurs(rest, rep)
    ensures Replace(Replace(src + rest, src, rep), rep, src) == src + rest
  {
    ReplaceRoot(rest, src, rep);
    ReplaceRoot(rest, rep, src);
  }

  /**
   * A path whose relative part starts again with the root text has that text
   * rewritten too: with root "/data", the path "/data/datafile" is carried to
   * rep + rep + "file" instead of rep + "/datafile".
   */
  lemma {:induction false} RootTextRepeated(root: string, tail: string, x: string)
    requires |root| > 0 && !Occurs(tail, root)
    ensures Replace(root + root + tail, root, x) == x + x + tail
  {
    var s := root + root + tail;
    assert s[..|root|] == root;
    assert s[|root|..] == root + tail;
    ReplaceRoot(tail, root, x);
  }

  /**
   * Replace rewrites every occurrence, not only a leading one: if the leftmost
   * occurrence of the pattern starts at `i`, the text before it is kept, the
   * occurrence is replaced and the scan goes on right after it.
   */
  lemma {:induction false} ReplaceLeftmost(s: string, pat: string, x: string, i: nat)
    requires |pat| > 0
    requires OccursAt(s, pat, i)
    requires forall j: nat :: j < i ==> !OccursAt(s, pat, j)
    ensures Replace(s, pat, x) == s[..i] + x + Replace(s[i + |pat|..], pat, x)
    decreases i
  {
    if i == 0 {
      ReplaceAtStart(s, pat, x);
    } else {
      var t := s[1..];
      ReplaceSkip(s, pat, x);
      NoneBeforeTail(s, pat, i);
      ReplaceLeftmost(t, pat, x, i - 1);
      TailShift(s, i, |pat|);
      LeftmostStep(s, x, Replace(s, pat, x), Replace(t, pat, x), Replace(s[i + |pat|..], pat, x), i);
    }
  }

  /** An occurrence at the very start is replaced, and the scan goes on after it. */
  lemma ReplaceAtStart(s: string, pat: string, x: string)
    requires |pat| > 0 && OccursAt(s, pat, 0)
    ensures Replace(s, pat, x) == s[..0] + x + Replace(s[|pat|..], pat, x)
  {
    assert s[..|pat|] == pat;
    assert s[..0] + x == x;
  }

  /** Shifting by one character keeps the occurrence at `i` and the absence of earlier ones. */
  lemma NoneBeforeTail(s: string, pat: string, i: nat)
    requires 0 < i && OccursAt(s, pat, i)
    requires forall j: nat :: j < i ==> !OccursAt(s, pat, j)
    ensures OccursAt(s[1..], pat, i - 1)
    ensures forall j: nat :: j < i - 1 ==> !OccursAt(s[1..], pat, j)
  {
    OccursAtTail(s, pat, i - 1);
    forall j: nat | j < i - 1
      ensures !OccursAt(s[1..], pat, j)
    {
      OccursAtTail(s, pat, j);
    }
  }

  /** Where no occurrence starts at index 0, Replace keeps the first character. */
  lemma ReplaceSkip(s: string, pat: string, x: string)
    requires |pat| > 0 && |s| >= |pat|
    requires !OccursAt(s, pat, 0)
    ensures Replace(s, pat, x) == [s[0]] + Replace(s[1..], pat, x)
  {
  }

  /** The bookkeeping of one step of ReplaceLeftmost, kept apart from Replace. */
  lemma TailShift(s: string, i: nat, n: nat)
    requires 0 < i && i + n <= |s|
    ensures s[1..][i - 1 + n..] == s[i + n..]
  {
  }

  lemma LeftmostStep(s: string, x: string, rs: string, rt: string, rest: string, i: nat)
    requires 0 < i <= |s|
    requires rs == [s[0]] + rt && rt == s[1..][..i - 1] + x + rest
    ensures rs == s[..i] + x + rest
  {
    assert [s[0]] + s[1..][..i - 1] == s[..i];
  }

  /**
   * For a one-character pattern (the dash of the digest formatting) Replace
   * works character by character, so it distributes over concatenation.
   */
  lemma {:induction false} ReplaceCharConcat(a: string, b: string, pat: string, x: string)
    requires |pat| == 1
    ensures Replace(a + b, pat, x) == Replace(a, pat, x) + Replace(b, pat, x)
    decreases |a|
  {
    if |a| > 0 {
      var s := a + b;
      assert s[..1] == a[..1];
      assert s[1..] == a[1..] + b;
      ReplaceCharConcat(a[1..], b, pat, x);
    } else {
      assert a + b == b;
    }
  }
}
