/**
 Text operations the listener applies to tweet text: the ASCII filter and
 lower-casing of `text.encode('ascii', 'ignore').lower()` (Python 2 byte
 strings, so only ASCII letters change case), and the substring test of
 Python's `a in b` on strings.
 */
module Text {

  predicate IsAscii(c: char) {
    c as int < 128
  }

  predicate IsAsciiUpper(c: char) {
    'A' <= c <= 'Z'
  }

  predicate IsAsciiLowerLetter(c: char) {
    'a' <= c <= 'z'
  }

  /** `str.lower()` on one byte: only `A`..`Z` change. */
  function AsciiLower(c: char): (r: char)
    ensures !IsAsciiUpper(r)
    ensures IsAscii(r) <==> IsAscii(c)
    ensures IsAsciiLowerLetter(r) <==> IsAsciiUpper(c) || IsAsciiLowerLetter(c)
    ensures !IsAsciiUpper(c) ==> r == c
  {
    if IsAsciiUpper(c) then (c as int + 32) as char else c
  }

  /** `str.upper()` on one byte: only `a`..`z` change. */
  function AsciiUpper(c: char): (r: char)
    ensures !IsAsciiLowerLetter(r)
    ensures IsAsciiUpper(r) <==> IsAsciiUpper(c) || IsAsciiLowerLetter(c)
    ensures !IsAsciiLowerLetter(c) ==> r == c
  {
    if IsAsciiLowerLetter(c) then (c as int - 32) as char else c
  }

  /** Every character is ASCII and none is an upper-case letter. */
  predicate IsNormalized(s: string) {
    forall i :: 0 <= i < |s| ==> IsAscii(s[i]) && !IsAsciiUpper(s[i])
  }

  /** The dedup text: non-ASCII characters dropped, then ASCII letters lower-cased. */
  function Normalize(s: string): (r: string)
    ensures |r| <= |s|
    ensures (forall i :: 0 <= i < |s| ==> IsAscii(s[i])) ==> |r| == |s|
  {
    if s == [] then []
    else (if IsAscii(s[0]) then [AsciiLower(s[0])] else []) + Normalize(s[1..])
  }

  /** The dedup text has no non-ASCII and no upper-case character. */
  lemma {:induction false} NormalizeIsNormalized(s: string)
    ensures IsNormalized(Normalize(s))
  {
    if s != [] {
      NormalizeIsNormalized(s[1..]);
    }
  }

  /** Normalisation works character by character, so it distributes over concatenation. */
  lemma {:induction false} NormalizeAppend(a: string, b: string)
    ensures Normalize(a + b) == Normalize(a) + Normalize(b)
  {
    if a == [] {
      assert a + b == b;
    } else {
      var head := if IsAscii(a[0]) then [AsciiLower(a[0])] else [];
      assert (a + b)[0] == a[0];
      assert (a + b)[1..] == a[1..] + b;
      assert Normalize(a + b) == head + Normalize(a[1..] + b);
      NormalizeAppend(a[1..], b);
      assert Normalize(a) == head + Normalize(a[1..]);
      assert head + (Normalize(a[1..]) + Normalize(b)) == (head + Normalize(a[1..])) + Normalize(b);
    }
  }

  /** Text that is already ASCII and lower-case is left exactly as it is. */
  lemma {:induction false} NormalizeFixesNormalized(s: string)
    requires IsNormalized(s)
    ensures Normalize(s) == s
  {
    if s != [] {
      assert IsNormalized(s[1..]) by {
        forall i | 0 <= i < |s[1..]|
          ensures IsAscii(s[1..][i]) && !IsAsciiUpper(s[1..][i])
        {
          assert s[1..][i] == s[i + 1];
        }
      }
      NormalizeFixesNormalized(s[1..]);
      assert s == [s[0]] + s[1..];
    }
  }

  /** Normalising twice gives the same text as normalising once. */
  lemma NormalizeIdempotent(s: string)
    ensures Normalize(Normalize(s)) == Normalize(s)
  {
    NormalizeIsNormalized(s);
    NormalizeFixesNormalized(Normalize(s));
  }

  /**
   Normalisation works left to right: extending the input by one character
   extends the result by that character lower-cased when it is ASCII, and by
   nothing otherwise. So the result keeps the input's ASCII characters in order.
   */
  lemma NormalizeExtend(s: string, i: nat)
    requires i < |s|
    ensures Normalize(s[..i + 1]) == Normalize(s[..i]) + (if IsAscii(s[i]) then [AsciiLower(s[i])] else [])
  {
    assert s[..i + 1] == s[..i] + [s[i]];
    NormalizeAppend(s[..i], [s[i]]);
    assert Normalize([s[i]]) == (if IsAscii(s[i]) then [AsciiLower(s[i])] else []) + Normalize([]);
  }

  /** Every ASCII character of the input appears, lower-cased, in the normalised text. */
  lemma {:induction false} NormalizeKeepsAscii(s: string, i: nat)
    requires i < |s| && IsAscii(s[i])
    ensures AsciiLower(s[i]) in Normalize(s)
  {
    if i == 0 {
      assert Normalize(s)[0] == AsciiLower(s[0]);
    } else {
      NormalizeKeepsAscii(s[1..], i - 1);
      assert s[1..][i - 1] == s[i];
      var head := if IsAscii(s[0]) then [AsciiLower(s[0])] else [];
      assert Normalize(s) == head + Normalize(s[1..]);
    }
  }

  /** `a` occurs in `b` starting at index `i`. */
  predicate OccursAt(a: string, b: string, i: int) {
    0 <= i && i + |a| <= |b| && b[i..i + |a|] == a
  }

  /** Python's `a in b` on strings: `a` occurs as a contiguous block of `b`. */
  ghost predicate IsSubstring(a: string, b: string) {
    exists i :: OccursAt(a, b, i)
  }

  /** Left-to-right search for `a` in `b`, the way `a in b` is evaluated. */
  function Occurs(a: string, b: string): (r: bool)
    decreases |b|
    ensures r <==> IsSubstring(a, b)
  {
    if |a| > |b| then false
    else if b[..|a|] == a then
      assert OccursAt(a, b, 0);
      true
    else
      var r := Occurs(a, b[1..]);
      if r then
        var i :| OccursAt(a, b[1..], i);
        assert b[i + 1..i + 1 + |a|] == b[1..][i..i + |a|];
        assert OccursAt(a, b, i + 1);
        true
      else
        assert forall i :: OccursAt(a, b, i) ==> i == 0 || OccursAt(a, b[1..], i - 1) by {
          forall i | OccursAt(a, b, i) && i != 0
            ensures OccursAt(a, b[1..], i - 1)
          {
            assert b[1..][i - 1..i - 1 + |a|] == b[i..i + |a|];
          }
        }
        false
  }

  /** `any(a in item for item in items)`. */
  function AnyContains(a: string, items: seq<string>): (r: bool)
    ensures r <==> exists i :: 0 <= i < |items| && IsSubstring(a, items[i])
  {
    if items == [] then false
    else if Occurs(a, items[0]) then true
    else
      var r := AnyContains(a, items[1..]);
      assert forall i :: 1 <= i < |items| ==> items[i] == items[1..][i - 1];
      r
  }

  /** Every text is a substring of itself. */
  lemma SubstringReflexive(a: string)
    ensures IsSubstring(a, a)
  {
    assert OccursAt(a, a, 0);
  }

  /** A text is never a substring of a shorter one. */
  lemma LongerNotSubstring(a: string, b: string)
    requires |a| > |b|
    ensures !IsSubstring(a, b)
  {
  }
}
