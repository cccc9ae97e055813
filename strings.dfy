/**
 * The JavaScript string operations the router relies on:
 * `String.prototype.split` with a one-character separator and
 * `String.prototype.replace` with a string pattern and an empty replacement.
 */
module Strings {
  import opened Wrappers

  /**
   * `s.split(c)`: the pieces of `s` between occurrences of `c`, in order;
   * there is always at least one piece, and `"".split(c)` is `[""]`.
   */
  function Split(s: string, c: char): (parts: seq<string>)
    ensures |parts| > 0
    ensures forall i :: 0 <= i < |parts| ==> c !in parts[i]
  {
    if s == [] then [""]
    else
      var rest := Split(s[1..], c);
      if s[0] == c then [""] + rest
      else [[s[0]] + rest[0]] + rest[1..]
  }

  /** `parts.join(c)`. */
  function Join(parts: seq<string>, c: char): (r: string)
    ensures |parts| > 0 ==> parts[0] <= r
    ensures |r| >= |parts| - 1
  {
    if parts == [] then ""
    else if |parts| == 1 then parts[0]
    else parts[0] + [c] + Join(parts[1..], c)
  }

  /** Splitting and joining again gives the string back. */
  lemma {:induction false} JoinSplit(s: string, c: char)
    ensures Join(Split(s, c), c) == s
  {
    if s != [] {
      var rest := Split(s[1..], c);
      JoinSplit(s[1..], c);
      if s[0] == c {
        assert Split(s, c) == [""] + rest;
      } else {
        var parts := Split(s, c);
        assert parts == [[s[0]] + rest[0]] + rest[1..];
        if |rest| == 1 {
          assert Join(rest, c) == rest[0];
        } else {
          assert Join(rest, c) == rest[0] + [c] + Join(rest[1..], c);
          assert parts[1..] == rest[1..];
        }
      }
    }
  }

  /** Joining pieces free of the separator and splitting again gives the pieces back. */
  lemma {:induction false} SplitJoin(parts: seq<string>, c: char)
    requires |parts| > 0
    requires forall i :: 0 <= i < |parts| ==> c !in parts[i]
    ensures Split(Join(parts, c), c) == parts
  {
    if |parts| == 1 {
      SplitPiece(parts[0], c);
    } else {
      SplitJoin(parts[1..], c);
      SplitAfter(parts[0], c, Join(parts[1..], c));
    }
  }

  /** A string without the separator is one piece. */
  lemma {:induction false} SplitPiece(p: string, c: char)
    requires c !in p
    ensures Split(p, c) == [p]
  {
    if p != [] {
      assert c !in p[1..] by {
        forall x | x in p[1..] ensures x != c { assert x in p; }
      }
      SplitPiece(p[1..], c);
      assert [p[0]] + p[1..] == p;
    }
  }

  /** A separator-free prefix followed by the separator is the first piece. */
  lemma {:induction false} SplitAfter(p: string, c: char, s: string)
    requires c !in p
    ensures Split(p + [c] + s, c) == [p] + Split(s, c)
  {
    if p == [] {
      assert p + [c] + s == [c] + s;
      assert ([c] + s)[1..] == s;
    } else {
      assert c !in p[1..] by {
        forall x | x in p[1..] ensures x != c { assert x in p; }
      }
      SplitAfter(p[1..], c, s);
      assert (p + [c] + s)[0] == p[0] && (p + [c] + s)[1..] == p[1..] + [c] + s;
      assert [p[0]] + p[1..] == p;
    }
  }

  /**
   * The first piece is the text before the first `c`: a prefix of `s` free
   * of `c` that is either all of `s` or followed by `c`.
   */
  lemma {:induction false} SplitHead(s: string, c: char)
    ensures Split(s, c)[0] <= s
    ensures |Split(s, c)[0]| == |s| || s[|Split(s, c)[0]|] == c
  {
    if s != [] && s[0] != c {
      SplitHead(s[1..], c);
    }
  }

  /** Every character of a piece is a character of the string split. */
  lemma {:induction false} SplitChars(s: string, c: char, i: nat, x: char)
    requires i < |Split(s, c)| && x in Split(s, c)[i]
    ensures x in s
  {
    if s != [] {
      var rest := Split(s[1..], c);
      if s[0] == c {
        if i > 0 {
          assert Split(s, c)[i] == rest[i - 1];
          SplitChars(s[1..], c, i - 1, x);
        }
      } else if i > 0 {
        assert Split(s, c)[i] == rest[i];
        SplitChars(s[1..], c, i, x);
      } else if x != s[0] {
        assert x in rest[0];
        SplitChars(s[1..], c, 0, x);
      }
    }
  }

  /** `pat` occurs in `s` starting at index `i`. */
  predicate OccursAt(s: string, pat: string, i: nat) {
    i + |pat| <= |s| && s[i..i + |pat|] == pat
  }

  /** `s.indexOf(pat, k)`: the first place at or after `k` where `pat` occurs. */
  function IndexFrom(s: string, pat: string, k: nat): (r: Option<nat>)
    requires k <= |s|
    ensures r.Some? ==> k <= r.value && OccursAt(s, pat, r.value)
    ensures r.Some? ==> forall i :: k <= i < r.value ==> !OccursAt(s, pat, i)
    ensures r.None? ==> forall i :: k <= i ==> !OccursAt(s, pat, i)
    decreases |s| - k
  {
    if k + |pat| > |s| then None
    else if OccursAt(s, pat, k) then Some(k)
    else IndexFrom(s, pat, k + 1)
  }

  /**
   * `s.replace(pat, "")`: the first occurrence of `pat` is cut out; a string
   * without one is returned unchanged.  The empty pattern occurs at 0.
   */
  function RemoveFirst(s: string, pat: string): (r: string)
    ensures (forall i: nat :: !OccursAt(s, pat, i)) ==> r == s
    ensures forall i: nat :: OccursAt(s, pat, i) && (forall j: nat :: j < i ==> !OccursAt(s, pat, j)) ==>
      r == s[..i] + s[i + |pat|..]
  {
    match IndexFrom(s, pat, 0)
    case None => s
    case Some(i) => s[..i] + s[i + |pat|..]
  }

  /** A leading occurrence is the one that is cut. */
  lemma RemoveLeading(s: string, pat: string)
    requires pat <= s
    ensures RemoveFirst(s, pat) == s[|pat|..]
  {
    assert OccursAt(s, pat, 0);
  }
}
