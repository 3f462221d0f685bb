/**
 * The JavaScript string and array built-ins the command-line front end relies on:
 * `Array.prototype.join`, `String.prototype.split` with a one-character separator,
 * and `String.prototype.replace` with a global regular expression that matches a
 * fixed string.
 */
module Strings {

  /** `parts.join(sep)`. */
  function Join(parts: seq<string>, sep: string): string
  {
    if |parts| == 0 then ""
    else if |parts| == 1 then parts[0]
    else parts[0] + sep + Join(parts[1..], sep)
  }

  /** `s.split(c)`: the pieces between occurrences of `c`; never empty, "" gives [""]. */
  function Split(s: string, c: char): (pieces: seq<string>)
    ensures |pieces| >= 1
    ensures forall i :: 0 <= i < |pieces| ==> c !in pieces[i]
  {
    if |s| == 0 then [""]
    else
      var rest := Split(s[1..], c);
      if s[0] == c then [""] + rest
      else [[s[0]] + rest[0]] + rest[1..]
  }

  /** Joining what `Split` cut apart restores the string. */
  lemma {:induction false} JoinSplit(s: string, c: char)
    ensures Join(Split(s, c), [c]) == s
  {
    if |s| > 0 {
      JoinSplit(s[1..], c);
      var rest := Split(s[1..], c);
      if s[0] == c {
        assert Split(s, c) == [""] + rest;
        assert s == [c] + s[1..];
      } else {
        var pieces := Split(s, c);
        assert pieces == [[s[0]] + rest[0]] + rest[1..];
        if |rest| == 1 {
          assert Join(pieces, [c]) == [s[0]] + rest[0];
        } else {
          assert pieces[1..] == rest[1..];
          assert Join(rest, [c]) == rest[0] + [c] + Join(rest[1..], [c]);
        }
        assert s == [s[0]] + s[1..];
      }
    }
  }

  /** Splitting a join of separator-free pieces gives the pieces back. */
  lemma {:induction false} SplitJoin(parts: seq<string>, c: char)
    requires |parts| >= 1
    requires forall i :: 0 <= i < |parts| ==> c !in parts[i]
    ensures Split(Join(parts, [c]), c) == parts
  {
    if |parts| == 1 {
      SplitFree(parts[0], c);
    } else {
      SplitJoin(parts[1..], c);
      SplitBefore(parts[0], Join(parts[1..], [c]), c);
      assert Join(parts, [c]) == parts[0] + ([c] + Join(parts[1..], [c]));
      assert [parts[0]] + parts[1..] == parts;
    }
  }

  /** A string without the separator splits into itself alone. */
  lemma {:induction false} SplitFree(s: string, c: char)
    requires c !in s
    ensures Split(s, c) == [s]
  {
    if |s| > 0 {
      SplitFree(s[1..], c);
      assert [s[0]] + s[1..] == s;
    }
  }

  /** A separator-free prefix followed by the separator is the first piece. */
  lemma {:induction false} SplitBefore(a: string, b: string, c: char)
    requires c !in a
    ensures Split(a + ([c] + b), c) == [a] + Split(b, c)
  {
    if |a| == 0 {
      assert a + ([c] + b) == [c] + b;
      assert ([c] + b)[1..] == b;
    } else {
      SplitBefore(a[1..], b, c);
      var s := a + ([c] + b);
      assert s[0] == a[0] && s[1..] == a[1..] + ([c] + b);
      assert [a[0]] + a[1..] == a;
    }
  }

  /** `p` starts `s`. */
  predicate StartsWith(s: string, p: string)
  {
    |p| <= |s| && s[..|p|] == p
  }

  /** `p` occurs in `s` at position `i`. */
  predicate OccursAt(s: string, p: string, i: int)
  {
    0 <= i && i + |p| <= |s| && s[i..i + |p|] == p
  }

  predicate Occurs(s: string, p: string)
  {
    exists i :: 0 <= i <= |s| && OccursAt(s, p, i)
  }

  /**
   * `s.replace(/pat/g, rep)` for a fixed, non-empty pattern: the leftmost
   * occurrence is replaced and the scan resumes after it.
   */
  function ReplaceAll(s: string, pat: string, rep: string): string
    requires |pat| > 0
    decreases |s|
  {
    if |s| == 0 then ""
    else if StartsWith(s, pat) then rep + ReplaceAll(s[|pat|..], pat, rep)
    else [s[0]] + ReplaceAll(s[1..], pat, rep)
  }

  /** Where the pattern does not occur, the string is unchanged. */
  lemma {:induction false} ReplaceAllAbsent(s: string, pat: string, rep: string)
    requires |pat| > 0
    requires !Occurs(s, pat)
    ensures ReplaceAll(s, pat, rep) == s
  {
    if |s| > 0 {
      assert !OccursAt(s, pat, 0);
      assert !StartsWith(s, pat);
      forall i | OccursAt(s[1..], pat, i) ensures false {
        assert s[i + 1..i + 1 + |pat|] == s[1..][i..i + |pat|];
        assert OccursAt(s, pat, i + 1);
      }
      ReplaceAllAbsent(s[1..], pat, rep);
      assert [s[0]] + s[1..] == s;
    }
  }

  /**
   * When the replacement shares no character with the pattern, no occurrence of
   * the pattern is left in the result.
   */
  lemma {:induction false} ReplaceAllRemoves(s: string, pat: string, rep: string)
    requires |pat| > 0 && |rep| > 0
    requires forall i :: 0 <= i < |rep| ==> rep[i] !in pat
    ensures !Occurs(ReplaceAll(s, pat, rep), pat)
    decreases |s|
  {
    if |s| > 0 {
      var r := ReplaceAll(s, pat, rep);
      if StartsWith(s, pat) {
        var tail := ReplaceAll(s[|pat|..], pat, rep);
        ReplaceAllRemoves(s[|pat|..], pat, rep);
        assert r == rep + tail;
        forall i | 0 <= i <= |r| ensures !OccursAt(r, pat, i) {
          if i < |rep| {
            assert r[i] == rep[i] && rep[i] !in pat;
          } else if i + |pat| <= |r| {
            assert r[i..i + |pat|] == tail[i - |rep|..i - |rep| + |pat|];
            assert !OccursAt(tail, pat, i - |rep|);
          }
        }
      } else {
        var tail := ReplaceAll(s[1..], pat, rep);
        ReplaceAllRemoves(s[1..], pat, rep);
        assert r == [s[0]] + tail;
        forall i | 0 <= i <= |r| ensures !OccursAt(r, pat, i) {
          if i == 0 {
            KeptHead(s, pat, rep);
          } else if i + |pat| <= |r| {
            assert r[i..i + |pat|] == tail[i - 1..i - 1 + |pat|];
            assert !OccursAt(tail, pat, i - 1);
          }
        }
      }
    }
  }

  /**
   * A prefix of the result made only of pattern characters (hence of no
   * replacement character) is copied unchanged from the input.
   */
  lemma {:induction false} ReplacePrefixKept(s: string, pat: string, rep: string, k: nat)
    requires |pat| > 0 && |rep| > 0
    requires forall i :: 0 <= i < |rep| ==> rep[i] !in pat
    requires k <= |ReplaceAll(s, pat, rep)|
    requires forall i :: 0 <= i < k ==> ReplaceAll(s, pat, rep)[i] in pat
    ensures k <= |s| && s[..k] == ReplaceAll(s, pat, rep)[..k]
    decreases |s|
  {
    if k > 0 {
      var r := ReplaceAll(s, pat, rep);
      ReplacedHead(s, pat, rep);
      assert r[0] in pat;
      assert !StartsWith(s, pat);
      var tail := ReplaceAll(s[1..], pat, rep);
      assert r == [s[0]] + tail;
      assert forall i :: 0 <= i < k - 1 ==> tail[i] == r[i + 1];
      ReplacePrefixKept(s[1..], pat, rep, k - 1);
      assert s[..k] == [s[0]] + s[1..][..k - 1];
      assert r[..k] == [s[0]] + tail[..k - 1];
    }
  }

  /** A match at the head of the input puts the replacement at the head of the result. */
  lemma ReplacedHead(s: string, pat: string, rep: string)
    requires |pat| > 0 && |rep| > 0 && |s| > 0
    ensures |ReplaceAll(s, pat, rep)| > 0
    ensures StartsWith(s, pat) ==> ReplaceAll(s, pat, rep)[0] == rep[0]
  {
  }

  /**
   * When the input does not start with the pattern, a pattern at the head of the
   * result would have had to be copied from the input, so it cannot be there.
   */
  lemma KeptHead(s: string, pat: string, rep: string)
    requires |pat| > 0 && |rep| > 0 && |s| > 0
    requires forall i :: 0 <= i < |rep| ==> rep[i] !in pat
    ensures OccursAt([s[0]] + ReplaceAll(s[1..], pat, rep), pat, 0) ==> StartsWith(s, pat)
  {
    var tail := ReplaceAll(s[1..], pat, rep);
    var r := [s[0]] + tail;
    if OccursAt(r, pat, 0) {
      assert r[..|pat|] == pat;
      forall j | 0 <= j < |pat| - 1 ensures tail[j] in pat {
        assert tail[j] == r[j + 1] == pat[j + 1];
      }
      ReplacePrefixKept(s[1..], pat, rep, |pat| - 1);
      assert r[..|pat|] == [s[0]] + tail[..|pat| - 1];
      assert s[..|pat|] == [s[0]] + s[1..][..|pat| - 1];
    }
  }

  /** A character that does not start a match is copied and the scan moves on. */
  lemma ReplaceHeadKept(c: char, u: string, pat: string, rep: string)
    requires |pat| > 0 && !StartsWith([c] + u, pat)
    ensures ReplaceAll([c] + u, pat, rep) == [c] + ReplaceAll(u, pat, rep)
  {
    assert ([c] + u)[1..] == u;
  }

  /** The leftmost occurrence is replaced in place, and the scan resumes after it. */
  lemma {:induction false} ReplaceAllLeftmost(a: string, pat: string, b: string, rep: string)
    requires |pat| > 0
    requires forall i :: 0 <= i < |a| ==> !OccursAt(a + pat + b, pat, i)
    ensures ReplaceAll(a + pat + b, pat, rep) == a + rep + ReplaceAll(b, pat, rep)
    decreases |a|
  {
    var s := a + pat + b;
    if |a| == 0 {
      assert s == pat + b;
      assert s[..|pat|] == pat && s[|pat|..] == b;
    } else {
      assert !OccursAt(s, pat, 0);
      assert s[1..] == a[1..] + pat + b;
      forall i | 0 <= i < |a[1..]| ensures !OccursAt(a[1..] + pat + b, pat, i) {
        assert !OccursAt(s, pat, i + 1);
        assert s[i + 1..i + 1 + |pat|] == s[1..][i..i + |pat|];
      }
      ReplaceAllLeftmost(a[1..], pat, b, rep);
      assert s[0] == a[0];
      assert [a[0]] + (a[1..] + rep + ReplaceAll(b, pat, rep)) == a + rep + ReplaceAll(b, pat, rep);
    }
  }
}
