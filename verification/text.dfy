/**
 * String helpers with the meaning JavaScript gives them: `String.prototype.trim`,
 * the regular-expression classes `\s` and `.`, truthiness of an optional string,
 * and a plain ASCII case-insensitive substring test.
 */
module Text {
  import opened Wrappers

  /** The code points JavaScript counts as white space or line terminators;
      both `trim()` and the class `\s` use exactly this set. Among ASCII it is
      the space and TAB through CR, and it includes every line terminator. */
  predicate IsSpace(c: char)
    ensures c as int < 0x80 ==> (IsSpace(c) <==> c == ' ' || '\t' <= c <= '\r')
    ensures IsLineTerminator(c) ==> IsSpace(c)
  {
    var n := c as int;
    n == 0x09 || n == 0x0A || n == 0x0B || n == 0x0C || n == 0x0D || n == 0x20
    || n == 0xA0 || n == 0x1680 || (0x2000 <= n <= 0x200A) || n == 0x2028
    || n == 0x2029 || n == 0x202F || n == 0x205F || n == 0x3000 || n == 0xFEFF
  }

  /** The code points the regular-expression `.` refuses to match. */
  predicate IsLineTerminator(c: char) {
    var n := c as int;
    n == 0x0A || n == 0x0D || n == 0x2028 || n == 0x2029
  }

  predicate AllSpace(s: string) {
    forall i :: 0 <= i < |s| ==> IsSpace(s[i])
  }

  predicate NoSpace(s: string) {
    forall i :: 0 <= i < |s| ==> !IsSpace(s[i])
  }

  /** JavaScript's `!x` for a body field: absent, or the empty string. */
  predicate Falsy(x: Option<string>) {
    x.None? || x.value == ""
  }

  /** Drops leading white space: the result is a suffix of `s`, everything
      dropped is white space, and what is kept does not start with any. */
  function TrimStart(s: string): (r: string)
    ensures |r| <= |s| && r == s[|s| - |r|..]
    ensures forall i :: 0 <= i < |s| - |r| ==> IsSpace(s[i])
    ensures r == [] || !IsSpace(r[0])
  {
    if |s| > 0 && IsSpace(s[0]) then TrimStart(s[1..]) else s
  }

  /** Drops trailing white space: the result is a prefix of `s`, everything
      dropped is white space, and what is kept does not end with any. */
  function TrimEnd(s: string): (r: string)
    ensures |r| <= |s| && r == s[..|r|]
    ensures forall i :: |r| <= i < |s| ==> IsSpace(s[i])
    ensures r == [] || !IsSpace(r[|r| - 1])
  {
    if |s| > 0 && IsSpace(s[|s| - 1]) then TrimEnd(s[..|s| - 1]) else s
  }

  /** `t` occurs in `s` as a contiguous run. */
  ghost predicate IsInfix(t: string, s: string) {
    exists k :: OccursAt(t, s, k)
  }

  /** `t` occurs in `s` starting at index `k`. */
  predicate OccursAt(t: string, s: string, k: int) {
    0 <= k <= |s| - |t| && s[k..k + |t|] == t
  }

  /** `r` occurs in `s` at `k` with nothing but white space before and after it. */
  predicate PaddedAt(r: string, s: string, k: int) {
    OccursAt(r, s, k) && AllSpace(s[..k]) && AllSpace(s[k + |r|..])
  }

  /** What `trim()` promises: `r` is `s` with white space, and only white
      space, removed at both ends, and none is left at either end of `r`. */
  ghost predicate IsTrimOf(r: string, s: string) {
    && (r == [] || (!IsSpace(r[0]) && !IsSpace(r[|r| - 1])))
    && exists k :: PaddedAt(r, s, k)
  }

  /** `s.trim()`: the infix of `s` left once white space is dropped at both ends.
      It is empty exactly when `s` is all white space. */
  function Trim(s: string): (r: string)
    ensures |r| <= |s|
    ensures IsInfix(r, s)
    ensures IsTrimOf(r, s)
    ensures r == [] <==> AllSpace(s)
    ensures r != [] ==> !IsSpace(r[0]) && !IsSpace(r[|r| - 1])
  {
    var t := TrimStart(s);
    TrimPartsPadded(s, t, TrimEnd(t));
    TrimPartsEmpty(s);
    TrimEnd(t)
  }

  /** Whatever `TrimStart` and then `TrimEnd` keep of `s` lies in `s` at the
      offset where `TrimStart` stopped, padded by white space on both sides. */
  lemma TrimPartsPadded(s: string, t: string, r: string)
    requires |t| <= |s| && t == s[|s| - |t|..]
    requires forall i :: 0 <= i < |s| - |t| ==> IsSpace(s[i])
    requires |r| <= |t| && r == t[..|r|]
    requires forall i :: |r| <= i < |t| ==> IsSpace(t[i])
    ensures PaddedAt(r, s, |s| - |t|)
    ensures r != [] ==> r[0] == t[0]
  {
    var k := |s| - |t|;
    LeadingPadding(s, k);
    PrefixOfSuffix(s, t, r, k);
    TrailingPadding(s, t, r, k);
  }

  lemma LeadingPadding(s: string, k: int)
    requires 0 <= k <= |s| && forall i :: 0 <= i < k ==> IsSpace(s[i])
    ensures AllSpace(s[..k])
  {
  }

  /** A prefix of the suffix of `s` at `k` occurs in `s` at `k`. */
  lemma PrefixOfSuffix(s: string, t: string, r: string, k: int)
    requires 0 <= k <= |s| && t == s[k..] && |r| <= |t| && r == t[..|r|]
    ensures OccursAt(r, s, k)
    ensures r != [] ==> r[0] == t[0]
  {
    assert s[k..][..|r|] == s[k..k + |r|];
  }

  /** What `TrimEnd` drops from a suffix of `s` is white space at the end of `s`. */
  lemma TrailingPadding(s: string, t: string, r: string, k: int)
    requires 0 <= k <= |s| && t == s[k..]
    requires |r| <= |t| && forall i :: |r| <= i < |t| ==> IsSpace(t[i])
    ensures AllSpace(s[k + |r|..])
  {
    var tail := s[k + |r|..];
    forall i | 0 <= i < |tail|
      ensures IsSpace(tail[i])
    {
      assert tail[i] == t[|r| + i];
    }
  }

  /** `Trim` is empty exactly when `s` is all white space. */
  lemma TrimPartsEmpty(s: string)
    ensures TrimEnd(TrimStart(s)) == [] <==> AllSpace(s)
  {
    var t := TrimStart(s);
    if t != [] {
      assert t[0] == s[|s| - |t|];
      assert !IsSpace(t[0]);
    }
  }

  /** `IsTrimOf` pins the result down: whatever satisfies it is `Trim(s)`. */
  lemma TrimIsUnique(r: string, s: string)
    requires IsTrimOf(r, s)
    ensures r == Trim(s)
  {
    var k :| PaddedAt(r, s, k);
    assert s == s[..k] + r + s[k + |r|..];
    if r == [] {
      forall i | 0 <= i < |s|
        ensures IsSpace(s[i])
      {
        if i >= k {
          assert s[i] == s[k..][i - k];
        }
      }
    } else {
      TrimPadded(s[..k], r, s[k + |r|..]);
    }
  }

  /** Trimming twice is trimming once. */
  lemma TrimIdempotent(s: string)
    ensures Trim(Trim(s)) == Trim(s)
  {
    var r := Trim(s);
    if r != [] {
      assert TrimStart(r) == r;
      assert TrimEnd(r) == r;
    }
  }

  lemma TrimEmpty()
    ensures Trim("") == ""
  {
  }

  /** Leading white space before a string that does not start with any is
      exactly what `TrimStart` drops. */
  lemma {:induction false} TrimStartPadding(pad: string, x: string)
    requires AllSpace(pad) && (x == [] || !IsSpace(x[0]))
    ensures TrimStart(pad + x) == x
    decreases |pad|
  {
    if pad == [] {
      assert pad + x == x;
    } else {
      assert (pad + x)[0] == pad[0];
      assert (pad + x)[1..] == pad[1..] + x;
      TrimStartPadding(pad[1..], x);
    }
  }

  /** Trailing white space after a string that does not end with any is
      exactly what `TrimEnd` drops. */
  lemma {:induction false} TrimEndPadding(x: string, pad: string)
    requires AllSpace(pad) && (x == [] || !IsSpace(x[|x| - 1]))
    ensures TrimEnd(x + pad) == x
    decreases |pad|
  {
    if pad == [] {
      assert x + pad == x;
    } else {
      var n := |x + pad|;
      assert (x + pad)[n - 1] == pad[|pad| - 1];
      assert (x + pad)[..n - 1] == x + pad[..|pad| - 1];
      TrimEndPadding(x, pad[..|pad| - 1]);
    }
  }

  /** `trim()` removes exactly the white space padding around a non-empty
      string that neither starts nor ends with white space. */
  lemma TrimPadded(before: string, x: string, after: string)
    requires AllSpace(before) && AllSpace(after)
    requires x != [] && !IsSpace(x[0]) && !IsSpace(x[|x| - 1])
    ensures Trim(before + x + after) == x
  {
    assert before + x + after == before + (x + after);
    TrimStartPadding(before, x + after);
    TrimEndPadding(x, after);
  }

  /** A string whose first and last characters are not white space is its own trim. */
  lemma TrimOfTrimmed(s: string)
    requires s == [] || (!IsSpace(s[0]) && !IsSpace(s[|s| - 1]))
    ensures Trim(s) == s
  {
  }

  /** ASCII-only lower-casing (no locale rules). */
  function LowerChar(c: char): char {
    if 'A' <= c <= 'Z' then (c as int + 32) as char else c
  }

  predicate IsUpper(c: char) {
    'A' <= c <= 'Z'
  }

  /** Lower-casing leaves no ASCII capital behind, moves each capital to its
      small letter, and leaves every other character as it was. */
  function Lower(s: string): (r: string)
    ensures |r| == |s|
    ensures forall i :: 0 <= i < |r| ==> !IsUpper(r[i])
    ensures forall i :: 0 <= i < |s| ==> !IsUpper(s[i]) ==> r[i] == s[i]
    ensures forall i :: 0 <= i < |s| ==> IsUpper(s[i]) ==> r[i] as int == s[i] as int + 32
  {
    seq(|s|, i requires 0 <= i < |s| => LowerChar(s[i]))
  }

  /** Lower-casing twice is lower-casing once. */
  lemma LowerIdempotent(s: string)
    ensures Lower(Lower(s)) == Lower(s)
  {
    var r := Lower(s);
    assert forall i :: 0 <= i < |r| ==> Lower(r)[i] == r[i];
  }

  /** Lower-casing the search text or the searched text first does not change
      a case-insensitive search. */
  lemma SearchIgnoresCase(s: string, t: string)
    ensures ContainsIgnoringCase(s, t) <==> ContainsIgnoringCase(s, Lower(t))
    ensures ContainsIgnoringCase(s, t) <==> ContainsIgnoringCase(Lower(s), t)
  {
    LowerIdempotent(s);
    LowerIdempotent(t);
  }

  /** A case-insensitive search finds the lower-cased text at some position of
      the lower-cased subject. */
  lemma SearchIsInfix(s: string, t: string)
    ensures ContainsIgnoringCase(s, t) <==> IsInfix(Lower(t), Lower(s))
  {
    ContainsIsInfix(Lower(s), Lower(t));
  }

  predicate IsPrefix(t: string, s: string) {
    |t| <= |s| && s[..|t|] == t
  }

  /** Substring search, written as a left-to-right scan. */
  predicate Contains(s: string, t: string)
    decreases |s|
  {
    IsPrefix(t, s) || (|s| > 0 && Contains(s[1..], t))
  }

  /** The scan agrees with the positional definition of "occurs in". */
  lemma {:induction false} ContainsIsInfix(s: string, t: string)
    ensures Contains(s, t) <==> IsInfix(t, s)
    decreases |s|
  {
    if IsPrefix(t, s) {
      assert OccursAt(t, s, 0);
    } else if |s| > 0 {
      ContainsIsInfix(s[1..], t);
      if IsInfix(t, s) {
        var k :| OccursAt(t, s, k);
        assert k != 0;
        assert s[1..][k - 1..k - 1 + |t|] == s[k..k + |t|];
        assert OccursAt(t, s[1..], k - 1);
      }
      if IsInfix(t, s[1..]) {
        var k :| OccursAt(t, s[1..], k);
        assert s[1..][k..k + |t|] == s[k + 1..k + 1 + |t|];
        assert OccursAt(t, s, k + 1);
      }
    } else {
      assert |t| > |s|;
    }
  }

  /** The empty string occurs in every string. */
  lemma EmptyContained(s: string)
    ensures Contains(s, "")
  {
  }

  /** Case-insensitive substring test, ASCII letters only. */
  predicate ContainsIgnoringCase(s: string, t: string) {
    Contains(Lower(s), Lower(t))
  }
}
