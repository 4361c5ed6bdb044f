/** The handful of Python string operations the list builder relies on,
    stated over `string` (a sequence of characters). */
module Text {

  /** Python's `s.split(c)` for a one-character separator: the runs of
      characters between separators, empty runs included, so there is
      always at least one piece. */
  function Split(s: string, c: char): (r: seq<string>)
    ensures |r| >= 1
    ensures forall i :: 0 <= i < |r| ==> c !in r[i]
    decreases |s|
  {
    if |s| == 0 then [""]
    else
      var rest := Split(s[1..], c);
      if s[0] == c then [""] + rest
      else [[s[0]] + rest[0]] + rest[1..]
  }

  /** There are two or more pieces exactly when the separator occurs, and
      a text without the separator is its own single piece. */
  lemma {:induction false} SplitPieces(s: string, c: char)
    ensures |Split(s, c)| >= 2 <==> c in s
    ensures c !in s ==> Split(s, c) == [s]
    decreases |s|
  {
    if |s| > 0 {
      SplitPieces(s[1..], c);
      assert s == [s[0]] + s[1..];
    }
  }

  /** Python's `c.join(parts)`: the inverse of `Split`. */
  function Join(parts: seq<string>, c: char): string
    requires |parts| >= 1
  {
    if |parts| == 1 then parts[0] else parts[0] + [c] + Join(parts[1..], c)
  }

  /** Splitting loses nothing: joining the pieces back gives the original text. */
  lemma {:induction false} JoinSplit(s: string, c: char)
    ensures Join(Split(s, c), c) == s
    decreases |s|
  {
    if |s| > 0 {
      JoinSplit(s[1..], c);
      var rest := Split(s[1..], c);
      if s[0] == c {
        assert Split(s, c)[1..] == rest;
      } else {
        if |rest| == 1 {
          assert Join(Split(s, c), c) == [s[0]] + rest[0];
        } else {
          assert Split(s, c)[1..] == rest[1..];
        }
      }
    }
  }

  /** A separator ends the first field: the rest is split independently. */
  lemma {:induction false} SplitAt(x: string, y: string, c: char)
    requires c !in x
    ensures Split(x + [c] + y, c) == [x] + Split(y, c)
    decreases |x|
  {
    if |x| == 0 {
      assert x + [c] + y == [c] + y;
      assert ([c] + y)[1..] == y;
    } else {
      var s := x + [c] + y;
      SplitAt(x[1..], y, c);
      assert s[0] == x[0] && s[1..] == x[1..] + [c] + y;
      var rest := Split(s[1..], c);
      assert rest[0] == x[1..] && rest[1..] == Split(y, c);
      assert Split(s, c) == [[x[0]] + rest[0]] + rest[1..];
      assert [x[0]] + x[1..] == x;
    }
  }

  /** There is a second field exactly when the separator occurs, and the first
      field is the text before the first separator. */
  lemma {:induction false} SplitFields(s: string, c: char)
    ensures |Split(s, c)| >= 2 <==> c in s
    ensures c in s ==> exists k :: 0 <= k < |s| && s[k] == c && c !in s[..k] && Split(s, c)[0] == s[..k]
    decreases |s|
  {
    if |s| > 0 && s[0] != c {
      SplitFields(s[1..], c);
      if c in s {
        assert c in s[1..];
        var k :| 0 <= k < |s[1..]| && s[1..][k] == c && c !in s[1..][..k] && Split(s[1..], c)[0] == s[1..][..k];
        assert s[..k + 1] == [s[0]] + s[1..][..k];
      }
    } else if |s| > 0 {
      assert s[..0] == [];
    }
  }

  /** Python's `a in b` on strings: `a` occurs as a contiguous piece of `b`. */
  predicate Contains(b: string, a: string)
    ensures Contains(b, a) ==> |a| <= |b|
    ensures |a| == 0 ==> Contains(b, a)
    ensures EndsWith(b, a) ==> Contains(b, a)
  {
    assert |a| == 0 ==> OccursAt(b, a, 0);
    assert EndsWith(b, a) ==> OccursAt(b, a, |b| - |a|);
    exists i :: 0 <= i <= |b| && OccursAt(b, a, i)
  }

  /** `a` occurs in `b` starting at position `i`. */
  predicate OccursAt(b: string, a: string, i: int)
  {
    0 <= i && i + |a| <= |b| && b[i..i + |a|] == a
  }

  /** Python's `s.endswith(suffix)`. */
  predicate EndsWith(s: string, suffix: string)
    ensures EndsWith(s, suffix) ==> |suffix| <= |s| && s == s[..|s| - |suffix|] + suffix
    ensures |suffix| == 0 ==> EndsWith(s, suffix)
  {
    assert |suffix| <= |s| ==> s == s[..|s| - |suffix|] + s[|s| - |suffix|..];
    |suffix| <= |s| && s[|s| - |suffix|..] == suffix
  }

  /** `if s.endswith(c): s = s[:-1]`: remove one trailing `c` when present. */
  function DropLast(s: string, c: char): (r: string)
    ensures s == r || s == r + [c]
    ensures r == s[..|r|]
    ensures |s| > 0 && s[|s| - 1] == c <==> s == r + [c]
  {
    if |s| > 0 && s[|s| - 1] == c then s[..|s| - 1] else s
  }

  /** Concatenation regroups freely. */
  lemma AppendAssociative<T>(x: seq<T>, y: seq<T>, z: seq<T>)
    ensures x + (y + z) == (x + y) + z
  {
  }

  function LowerChar(ch: char): char
  {
    if 'A' <= ch <= 'Z' then (ch as int - 'A' as int + 'a' as int) as char else ch
  }

  /** No upper-case ASCII letter occurs. */
  predicate IsLower(s: string)
  {
    forall i :: 0 <= i < |s| ==> !('A' <= s[i] <= 'Z')
  }

  /** Python 2's `str.lower()` on a byte string: only ASCII letters change. */
  function Lower(s: string): (r: string)
    ensures |r| == |s|
  {
    seq(|s|, i requires 0 <= i < |s| => LowerChar(s[i]))
  }

  /** Lowered text has no upper-case letter; other characters are kept and
      each upper-case letter becomes its lower-case partner. */
  lemma LowerFacts(s: string)
    ensures IsLower(Lower(s))
    ensures forall i :: 0 <= i < |s| && !('A' <= s[i] <= 'Z') ==> Lower(s)[i] == s[i]
    ensures forall i :: 0 <= i < |s| && 'A' <= s[i] <= 'Z' ==> Lower(s)[i] as int == s[i] as int + 32
  {
  }

  /** Text already in lower case is left as it is. */
  lemma LowerKeeps(s: string)
    requires IsLower(s)
    ensures Lower(s) == s
  {
    LowerFacts(s);
  }

  /** Python's `s.replace(a, b)` for single characters. */
  function Replace(s: string, a: char, b: char): (r: string)
    ensures |r| == |s|
    ensures a != b ==> a !in r
    ensures forall i :: 0 <= i < |s| ==> r[i] == (if s[i] == a then b else s[i])
  {
    seq(|s|, i requires 0 <= i < |s| => if s[i] == a then b else s[i])
  }
}
