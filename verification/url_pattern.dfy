/**
 The dedup key pattern `URL_REGEX` of settings.py, applied with `re.match`
 and the flags IGNORECASE and DOTALL. The pattern is a captured greedy `.*`,
 one literal space, and a lookahead for `http://` or `https://` followed by one
 character of a fixed group (or a `%` escape with two hex digits).

 `re.match` anchors the match at index 0. Under DOTALL, `.` matches every
 character, newlines included. The link sits in the lookahead, so it is never
 part of the matched text. Python 2 byte-string patterns fold case on ASCII
 letters only.
 */
module UrlPattern {
  import opened Wrappers
  import opened Text

  /** Membership in the character group after `://`, alternative by alternative. */
  predicate InLinkClass(c: char) {
    || 'a' <= c <= 'z'
    || '0' <= c <= '9'
    || '$' <= c <= '_'                                  // `$-_` is a range
    || c == '@' || c == '.' || c == '&' || c == '+'
    || c == '!' || c == '*' || c == '(' || c == ')' || c == ','
  }

  /** IGNORECASE: a character matches the group when it or its other-case letter is in it. */
  predicate LinkCharIgnoreCase(c: char) {
    InLinkClass(c) || InLinkClass(AsciiLower(c)) || InLinkClass(AsciiUpper(c))
  }

  /** `[0-9a-f]` under IGNORECASE. */
  predicate IsHexDigitIgnoreCase(c: char) {
    '0' <= c <= '9' || 'a' <= AsciiLower(c) <= 'f'
  }

  /** Case-insensitive equality of two texts (ASCII case folding). */
  predicate EqualIgnoreCase(s: string, lit: string) {
    |s| == |lit| && forall i :: 0 <= i < |s| ==> AsciiLower(s[i]) == AsciiLower(lit[i])
  }

  /** The first link character at `q`: one group character, or the `%hh` escape. */
  predicate LinkStartsAt(t: string, q: nat)
    requires q < |t|
  {
    || LinkCharIgnoreCase(t[q])
    || (t[q] == '%' && q + 2 < |t| && IsHexDigitIgnoreCase(t[q + 1]) && IsHexDigitIgnoreCase(t[q + 2]))
  }

  /** `scheme` (compared ignoring case) begins at `p` and a link character follows it. */
  predicate SchemeAt(t: string, p: nat, scheme: string) {
    && p + |scheme| < |t|
    && EqualIgnoreCase(t[p..p + |scheme|], scheme)
    && LinkStartsAt(t, p + |scheme|)
  }

  /** The lookahead `(?=http[s]?://...)` succeeds at index `p`. */
  predicate LinkAt(t: string, p: nat) {
    SchemeAt(t, p, "http://") || SchemeAt(t, p, "https://")
  }

  /** `t[..k]` is a candidate match: it ends in a space and a link starts right after it. */
  predicate KeyEndsAt(t: string, k: int) {
    1 <= k <= |t| && t[k - 1] == ' ' && LinkAt(t, k)
  }

  /**
   The greedy `.*` backtracks from the longest candidate: the first prefix
   length `k <= n` tried that qualifies is the largest one.
   */
  function MatchUpTo(t: string, n: nat): (r: Option<string>)
    requires n <= |t|
    decreases n
    ensures r.Some? ==> |r.value| <= n && r.value <= t && KeyEndsAt(t, |r.value|)
    ensures r.Some? ==> forall k :: |r.value| < k <= n ==> !KeyEndsAt(t, k)
    ensures r.None? <==> forall k :: 0 <= k <= n ==> !KeyEndsAt(t, k)
  {
    if KeyEndsAt(t, n) then Some(t[..n])
    else if n == 0 then None
    else MatchUpTo(t, n - 1)
  }

  /**
   `URL.match(t)`: the key is the longest prefix of `t` that ends in a space
   immediately followed by `http://` or `https://` and one link character;
   `None` when no prefix qualifies.
   */
  function UrlMatch(t: string): (r: Option<string>)
    ensures r.Some? ==> |r.value| < |t| && r.value <= t
    ensures r.Some? ==> |r.value| > 0 && r.value[|r.value| - 1] == ' '
    ensures r.Some? ==> LinkAt(t, |r.value|)
    ensures r.Some? ==> forall k :: |r.value| < k <= |t| ==> !KeyEndsAt(t, k)
    ensures r.None? <==> forall k :: 0 <= k <= |t| ==> !KeyEndsAt(t, k)
  {
    MatchUpTo(t, |t|)
  }

  /** A qualifying prefix length with no longer one after it determines the match. */
  lemma UrlMatchIsLongestKey(t: string, k: int)
    requires KeyEndsAt(t, k)
    requires forall j :: k < j <= |t| ==> !KeyEndsAt(t, j)
    ensures UrlMatch(t) == Some(t[..k])
  {
    var r := UrlMatch(t);
    assert !(forall j :: 0 <= j <= |t| ==> !KeyEndsAt(t, j));
    assert KeyEndsAt(t, |r.value|);
    assert |r.value| == k;
    PrefixIsTake(r.value, t);
  }

  /** A prefix of `t` is the first `|p|` characters of `t`. */
  lemma PrefixIsTake(p: string, t: string)
    requires p <= t
    ensures p == t[..|p|]
  {
  }

  /** The group characters are exactly: ASCII letters, `!`, and every character from `$` to `_`. */
  lemma LinkCharCharacterization(c: char)
    ensures LinkCharIgnoreCase(c) <==> IsAsciiUpper(c) || IsAsciiLowerLetter(c) || c == '!' || '$' <= c <= '_'
  {
  }

  /** The `%hh` alternative adds nothing: `%` is already in the `$-_` range. */
  lemma PercentEscapeAddsNothing(t: string, q: nat)
    requires q < |t|
    ensures LinkStartsAt(t, q) <==> LinkCharIgnoreCase(t[q])
  {
  }

  /** Without any space in the text there is no match. */
  lemma {:induction false} NoSpaceNoMatch(t: string)
    requires forall i :: 0 <= i < |t| ==> t[i] != ' '
    ensures UrlMatch(t) == None
  {
    forall k | 0 <= k <= |t|
      ensures !KeyEndsAt(t, k)
    {
      if 1 <= k {
        assert t[k - 1] != ' ';
      }
    }
  }

  /** The leading part may be empty: `" http://x"` yields the key `" "`. */
  lemma EmptyLeadingPart()
    ensures UrlMatch(" http://x") == Some(" ")
  {
    var t := " http://x";
    assert t[1..8] == "http://";
    assert KeyEndsAt(t, 1);
    UrlMatchIsLongestKey(t, 1);
    assert t[..1] == " ";
  }

  /**
   A link at index 0 has no space before it, so it ends no key: a text whose
   only links start at index 0 has no match.
   */
  lemma LeadingLinkNoMatch(t: string)
    requires forall k :: 0 < k <= |t| ==> !LinkAt(t, k)
    ensures UrlMatch(t) == None
  {
    assert !KeyEndsAt(t, 0);
  }

  /** `http://t.co/x` opens with its only link and has no match. */
  lemma LeadingLinkExample()
    ensures UrlMatch("http://t.co/x") == None
  {
    NoSpaceNoMatch("http://t.co/x");
  }

  /** A space, `"`, `#` or `~` right after `://` is outside the group, so no match. */
  lemma DisallowedLinkCharNoMatch(c: char)
    requires c == ' ' || c == '"' || c == '#' || c == '~'
    ensures UrlMatch("a http://" + [c]) == None
  {
    var t := "a http://" + [c];
    assert t[9] == c && !LinkCharIgnoreCase(c);
    forall k | 0 <= k <= |t|
      ensures !KeyEndsAt(t, k)
    {
      if k == 2 {
        assert !LinkStartsAt(t, 9);
      }
    }
  }

  /**
   A link whose first character is outside the group, and is not the `%` of an
   escape, ends no key: the space before it does not qualify.
   */
  lemma DisallowedLinkCharEndsNoKey(t: string, k: nat)
    requires k + 7 < |t| && t[k..k + 7] == "http://"
    requires !LinkCharIgnoreCase(t[k + 7]) && t[k + 7] != '%'
    ensures !KeyEndsAt(t, k)
  {
    assert t[k + 4] == t[k..k + 7][4] == ':';
    if k + 8 < |t| {
      assert t[k..k + 8][4] == ':';
      assert !EqualIgnoreCase(t[k..k + 8], "https://");
    }
  }

  /**
   Of two qualifying links, the later one wins: the key reaches at least the
   later one, so the shorter candidate key is a prefix of the match.
   */
  lemma LaterLinkExtendsKey(t: string, i: int, j: int)
    requires i < j && KeyEndsAt(t, i) && KeyEndsAt(t, j)
    ensures UrlMatch(t).Some? && j <= |UrlMatch(t).value|
    ensures t[..i] <= UrlMatch(t).value
  {
    var r := UrlMatch(t);
    assert !(forall k :: 0 <= k <= |t| ==> !KeyEndsAt(t, k));
    PrefixIsTake(r.value, t);
  }

  /**
   The pattern ignores case: two texts that agree once lower-cased have the
   same key ends, so both match or neither does, and their keys have the same
   length.
   */
  lemma SchemeIgnoresCase(t: string, u: string)
    requires |t| == |u| && forall i :: 0 <= i < |t| ==> AsciiLower(t[i]) == AsciiLower(u[i])
    ensures forall k :: KeyEndsAt(t, k) <==> KeyEndsAt(u, k)
    ensures UrlMatch(t).Some? <==> UrlMatch(u).Some?
    ensures UrlMatch(t).Some? ==> |UrlMatch(t).value| == |UrlMatch(u).value|
  {
    forall k
      ensures KeyEndsAt(t, k) <==> KeyEndsAt(u, k)
    {
      if 1 <= k <= |t| {
        assert AsciiLower(t[k - 1]) == AsciiLower(u[k - 1]);
      }
    }
  }

  /** `HTTPS://` qualifies like `https://`: the key of `News HTTPS://t.co` is `News `. */
  lemma UpperCaseSchemeExample()
    ensures UrlMatch("News HTTPS://t.co") == Some("News ")
  {
    var t := "News HTTPS://t.co";
    assert t[5..13] == "HTTPS://";
    assert SchemeAt(t, 5, "https://");
    assert KeyEndsAt(t, 5);
    UrlMatchIsLongestKey(t, 5);
    assert t[..5] == "News ";
  }

  /** Greedy `.*`: the key runs up to the last qualifying link and keeps earlier links. */
  lemma GreedyTakesLastLink()
    ensures UrlMatch("a http://x b https://y") == Some("a http://x b ")
  {
    var t := "a http://x b https://y";
    assert t[13..21] == "https://";
    assert KeyEndsAt(t, 13);
    UrlMatchIsLongestKey(t, 13);
    assert t[..13] == "a http://x b ";
  }

  /** DOTALL: the key may span lines. */
  lemma KeyMaySpanLines()
    ensures UrlMatch("one\ntwo http://t.co") == Some("one\ntwo ")
  {
    var t := "one\ntwo http://t.co";
    assert t[8..15] == "http://";
    assert KeyEndsAt(t, 8);
    UrlMatchIsLongestKey(t, 8);
    assert t[..8] == "one\ntwo ";
  }
}
