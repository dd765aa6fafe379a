/**
 * The two regular expressions the validators use, written as string predicates:
 *   email:     ^[^\s@]+@[^\s@]+\.[^\s@]+$
 *   image URL: ^https?:\/\/.+            (no end anchor)
 */
module Patterns {
  import opened Text

  /** A member of the class `[^\s@]`. */
  predicate IsAtomChar(c: char) {
    !IsSpace(c) && c != '@'
  }

  /** Every character of `s` is in `[^\s@]`. */
  predicate AtomChars(s: string) {
    forall i :: 0 <= i < |s| ==> IsAtomChar(s[i])
  }

  predicate NoAt(s: string) {
    forall i :: 0 <= i < |s| ==> s[i] != '@'
  }

  /** One way the email expression can match `s`: the literal `@` sits at `a`,
      the literal `.` at `b`, and the three runs around them are non-empty
      runs of `[^\s@]`. */
  predicate EmailMatchAt(s: string, a: int, b: int) {
    && 0 < a && a + 1 < b && b + 1 < |s|
    && s[a] == '@' && s[b] == '.'
    && AtomChars(s[..a]) && AtomChars(s[a + 1..b]) && AtomChars(s[b + 1..])
  }

  /** `/^[^\s@]+@[^\s@]+\.[^\s@]+$/.test(s)` */
  predicate EmailRegex(s: string) {
    exists a, b | 0 < a < b < |s| :: EmailMatchAt(s, a, b)
  }

  /** The domain has a `.` that is neither its first nor its last character. */
  predicate HasInnerDot(d: string) {
    exists j :: 0 < j < |d| - 1 && d[j] == '.'
  }

  /** `s` splits at its `@` into a non-empty local part and a dotted domain,
      neither of which holds another `@`. */
  predicate SplitsAt(s: string, a: int) {
    && 0 < a < |s| && s[a] == '@'
    && NoAt(s[..a]) && NoAt(s[a + 1..]) && HasInnerDot(s[a + 1..])
  }

  /** The plain reading of the email expression: no white space, exactly one
      `@` with something before it, and a domain with an inner dot. */
  predicate EmailShape(s: string) {
    NoSpace(s) && exists a | 0 < a < |s| :: SplitsAt(s, a)
  }

  /** The expression and its plain reading accept the same strings. */
  lemma EmailRegexIsShape(s: string)
    ensures EmailRegex(s) <==> EmailShape(s)
  {
    if EmailRegex(s) {
      var a: int, b: int :| EmailMatchAt(s, a, b);
      assert EmailMatchAt(s, a, b);
      var d := s[a + 1..];
      assert d[b - (a + 1)] == '.';
      forall i | 0 <= i < |s|
        ensures !IsSpace(s[i]) && (i != a ==> s[i] != '@')
      {
        if i < a {
          assert s[i] == s[..a][i];
        } else if a < i < b {
          assert s[i] == s[a + 1..b][i - (a + 1)];
        } else if b < i {
          assert s[i] == s[b + 1..][i - (b + 1)];
        }
      }
      assert SplitsAt(s, a);
    }
    if EmailShape(s) {
      var a: int :| SplitsAt(s, a);
      assert SplitsAt(s, a);
      var d := s[a + 1..];
      var j :| 0 < j < |d| - 1 && d[j] == '.';
      var b := a + 1 + j;
      forall i | 0 <= i < |s| && i != a
        ensures IsAtomChar(s[i])
      {
        if i < a {
          assert s[..a][i] == s[i];
        } else {
          assert d[i - (a + 1)] == s[i];
        }
      }
      assert EmailMatchAt(s, a, b);
    }
  }

  /** `/^https?:\/\/.+/.test(s)`: a scheme prefix followed by at least one
      character other than a line terminator; anything may follow that. */
  predicate UrlRegex(s: string) {
    || (IsPrefix("http://", s) && |s| > 7 && !IsLineTerminator(s[7]))
    || (IsPrefix("https://", s) && |s| > 8 && !IsLineTerminator(s[8]))
  }

  /** The URL expression has no end anchor: what follows a match is never examined. */
  lemma UrlRegexIgnoresTail(s: string, tail: string)
    ensures UrlRegex(s) ==> UrlRegex(s + tail)
  {
    if UrlRegex(s) {
      assert (s + tail)[..|s|] == s;
    }
  }

  /** The URL expression is anchored at the start: a leading space defeats it. */
  lemma UrlRegexRejectsLeadingSpace(s: string)
    requires |s| > 0 && IsSpace(s[0])
    ensures !UrlRegex(s)
  {
    if |s| >= 7 {
      assert s[..7][0] == s[0];
    }
  }

  /** A bare scheme matches nothing: `.+` needs one more character. */
  lemma UrlRegexNeedsHost()
    ensures !UrlRegex("https://") && !UrlRegex("http://")
    ensures forall c :: !IsLineTerminator(c) ==> UrlRegex("http://" + [c]) && UrlRegex("https://" + [c])
  {
    assert "https://"[..7][4] != "http://"[4];
    forall c | !IsLineTerminator(c)
      ensures UrlRegex("http://" + [c]) && UrlRegex("https://" + [c])
    {
      assert ("http://" + [c])[..7] == "http://";
      assert ("https://" + [c])[..8] == "https://";
    }
  }
}
