/**
 * The JavaScript string operations the plugin relies on:
 * `String.prototype.trim`, `toLowerCase`, `split` with a one-character
 * separator and `startsWith`, over strings as sequences of characters.
 */
module Text {

  /**
   * The characters `trim` removes: ECMAScript WhiteSpace (tab, vertical tab,
   * form feed, space, no-break space, zero-width no-break space and the
   * Unicode "Zs" category) and LineTerminator (LF, CR, LS, PS).
   */
  predicate IsSpace(ch: char)
  {
    || ch == '\t' || ch == '\n' || ch == '\U{B}' || ch == '\U{C}' || ch == '\r'
    || ch == ' ' || ch == '\U{A0}' || ch == '\U{1680}'
    || '\U{2000}' <= ch <= '\U{200A}'
    || ch == '\U{2028}' || ch == '\U{2029}' || ch == '\U{202F}'
    || ch == '\U{205F}' || ch == '\U{3000}' || ch == '\U{FEFF}'
  }

  predicate AllSpace(s: string)
  {
    forall i | 0 <= i < |s| :: IsSpace(s[i])
  }

  /** The number of white-space characters `s` starts with. */
  function LeadingSpaces(s: string): (n: nat)
    ensures n <= |s|
  {
    if s != [] && IsSpace(s[0]) then 1 + LeadingSpaces(s[1..]) else 0
  }

  /** The number of white-space characters `s` ends with. */
  function TrailingSpaces(s: string): (n: nat)
    ensures n <= |s|
  {
    if s != [] && IsSpace(s[|s| - 1]) then 1 + TrailingSpaces(s[..|s| - 1]) else 0
  }

  /** `s.trim()`: `s` without the white space at either end. */
  function Trim(s: string): (r: string)
    ensures |r| <= |s|
  {
    var t := s[LeadingSpaces(s)..];
    t[..|t| - TrailingSpaces(t)]
  }

  /** `toLowerCase` on one character, for the ASCII letters. */
  function LowerChar(ch: char): char
  {
    if 'A' <= ch <= 'Z' then (ch as int - 'A' as int + 'a' as int) as char else ch
  }

  predicate IsLower(s: string)
  {
    forall i | 0 <= i < |s| :: !('A' <= s[i] <= 'Z')
  }

  /** `s.toLowerCase()`: each character lowered in place. */
  function ToLower(s: string): (r: string)
    ensures |r| == |s| && IsLower(r)
  {
    seq(|s|, i requires 0 <= i < |s| => LowerChar(s[i]))
  }

  /** The position of the first `c` in `s`, or `|s|` when there is none. */
  function FirstIndex(s: string, c: char): (r: nat)
    ensures r <= |s|
  {
    if s == [] || s[0] == c then 0 else 1 + FirstIndex(s[1..], c)
  }

  /**
   * `s.split(c)` for a one-character separator: the pieces between
   * successive occurrences of `c`; always at least one piece.
   */
  function Split(s: string, c: char): (r: seq<string>)
    ensures |r| >= 1
    decreases |s|
  {
    var i := FirstIndex(s, c);
    if i == |s| then [s] else [s[..i]] + Split(s[i + 1..], c)
  }

  /** `parts.join(c)`, the inverse of `Split`. */
  function Join(parts: seq<string>, c: char): string
    requires |parts| >= 1
  {
    if |parts| == 1 then parts[0] else parts[0] + [c] + Join(parts[1..], c)
  }

  /** `s.startsWith(p)`. */
  predicate StartsWith(s: string, p: string)
  {
    |p| <= |s| && s[..|p|] == p
  }

  // ---------------------------------------------------------------- trim

  /** `LeadingSpaces` counts the white space up to the first other character. */
  lemma {:induction false} LeadingSpacesSpec(s: string)
    ensures AllSpace(s[..LeadingSpaces(s)])
    ensures LeadingSpaces(s) < |s| ==> !IsSpace(s[LeadingSpaces(s)])
  {
    if s != [] && IsSpace(s[0]) {
      LeadingSpacesSpec(s[1..]);
      var n := LeadingSpaces(s);
      assert s[..n] == [s[0]] + s[1..][..n - 1];
    }
  }

  /** `TrailingSpaces` counts the white space after the last other character. */
  lemma {:induction false} TrailingSpacesSpec(s: string)
    ensures AllSpace(s[|s| - TrailingSpaces(s)..])
    ensures TrailingSpaces(s) < |s| ==> !IsSpace(s[|s| - 1 - TrailingSpaces(s)])
  {
    if s != [] && IsSpace(s[|s| - 1]) {
      var init := s[..|s| - 1];
      TrailingSpacesSpec(init);
      var n := TrailingSpaces(s);
      assert s[|s| - n..] == init[|init| - (n - 1)..] + [s[|s| - 1]];
    }
  }

  /**
   * `Trim(s)` is the infix of `s` between a white-space prefix and a
   * white-space suffix, and neither starts nor ends with white space.
   */
  lemma TrimSpec(s: string)
    ensures var a, r := LeadingSpaces(s), Trim(s);
      && a + |r| <= |s|
      && r == s[a..a + |r|]
      && AllSpace(s[..a])
      && AllSpace(s[a + |r|..])
      && (r != [] ==> !IsSpace(r[0]) && !IsSpace(r[|r| - 1]))
  {
    TrimInfix(s);
    LeadingSpacesSpec(s);
    TrailingSpacesSpec(s[LeadingSpaces(s)..]);
    TrimEnds(s);
  }

  /** `Trim(s)` is the infix of `s` that follows its leading white space. */
  lemma TrimInfix(s: string)
    ensures var a, r := LeadingSpaces(s), Trim(s);
      && a + |r| <= |s|
      && r == s[a..a + |r|]
      && s[a + |r|..] == s[a..][|s[a..]| - TrailingSpaces(s[a..])..]
  {
  }

  /** `Trim(s)` neither starts nor ends with white space. */
  lemma TrimEnds(s: string)
    ensures var r := Trim(s);
      r != [] ==> !IsSpace(r[0]) && !IsSpace(r[|r| - 1])
  {
    var a := LeadingSpaces(s);
    var t := s[a..];
    LeadingSpacesSpec(s);
    TrailingSpacesSpec(t);
    var r := Trim(s);
    if r != [] {
      assert r[0] == s[a];
      assert r[|r| - 1] == t[|t| - 1 - TrailingSpaces(t)];
    }
  }


  /** A string without white space at its ends is its own trim. */
  lemma TrimNoop(s: string)
    requires s == [] || (!IsSpace(s[0]) && !IsSpace(s[|s| - 1]))
    ensures Trim(s) == s
  {
    assert s[0..] == s;
  }

  /** Trimming is idempotent. */
  lemma TrimIdempotent(s: string)
    ensures Trim(Trim(s)) == Trim(s)
  {
    TrimSpec(s);
    TrimNoop(Trim(s));
  }

  /** Trimming yields the empty string exactly when `s` is all white space. */
  lemma TrimEmptyIff(s: string)
    ensures Trim(s) == [] <==> AllSpace(s)
  {
    TrimSpec(s);
    var a := LeadingSpaces(s);
    if Trim(s) == [] {
      assert s == s[..a] + s[a..];
    } else {
      assert s[a] == Trim(s)[0];
    }
  }

  /** Trimming keeps a prefix that neither starts nor ends with white space. */
  lemma TrimKeepsPrefix(s: string, p: string)
    requires StartsWith(s, p) && p != []
    requires !IsSpace(p[0]) && !IsSpace(p[|p| - 1])
    ensures StartsWith(Trim(s), p)
  {
    TrimSpec(s);
    assert s[0] == p[0];
    var r := Trim(s);
    assert LeadingSpaces(s) == 0;
    assert r[..|p|] == s[..|p|];
  }

  /** White space before a non-space character is counted exactly. */
  lemma {:induction false} LeadingSpacesBefore(p: string, t: string)
    requires AllSpace(p) && t != [] && !IsSpace(t[0])
    ensures LeadingSpaces(p + t) == |p|
  {
    if p != [] {
      assert (p + t)[0] == p[0];
      assert (p + t)[1..] == p[1..] + t;
      LeadingSpacesBefore(p[1..], t);
    }
  }

  /** White space after a non-space character is counted exactly. */
  lemma {:induction false} TrailingSpacesAfter(t: string, q: string)
    requires AllSpace(q) && t != [] && !IsSpace(t[|t| - 1])
    ensures TrailingSpaces(t + q) == |q|
  {
    if q != [] {
      var s := t + q;
      assert s[|s| - 1] == q[|q| - 1];
      assert s[..|s| - 1] == t + q[..|q| - 1];
      TrailingSpacesAfter(t, q[..|q| - 1]);
    }
  }

  /**
   * `Trim` is determined by its specification: whatever lies between a
   * white-space prefix and a white-space suffix, and neither starts nor ends
   * with white space, is the trim.
   */
  lemma TrimUnique(p: string, r: string, q: string)
    requires AllSpace(p) && AllSpace(q)
    requires r == [] || (!IsSpace(r[0]) && !IsSpace(r[|r| - 1]))
    ensures Trim(p + r + q) == r
  {
    var s := p + r + q;
    if r == [] {
      assert s == p + q;
      TrimEmptyIff(s);
    } else {
      assert s == p + (r + q);
      LeadingSpacesBefore(p, r + q);
      assert s[|p|..] == r + q;
      TrailingSpacesAfter(r, q);
    }
  }

  /** White space added around a string does not change its trim. */
  lemma TrimPadded(a: string, s: string, b: string)
    requires AllSpace(a) && AllSpace(b)
    ensures Trim(a + s + b) == Trim(s)
  {
    TrimSpec(s);
    var n, r := LeadingSpaces(s), Trim(s);
    var before, after := a + s[..n], s[n + |r|..] + b;
    assert s == s[..n] + r + s[n + |r|..];
    assert a + s + b == before + r + after;
    TrimUnique(before, r, after);
  }

  // ---------------------------------------------------------------- lower case

  /** Lowering keeps white space white space and everything else not. */
  lemma LowerCharSpace(ch: char)
    ensures IsSpace(LowerChar(ch)) <==> IsSpace(ch)
  {
  }

  /** Lowering a string that has no capitals changes nothing. */
  lemma ToLowerNoop(s: string)
    requires IsLower(s)
    ensures ToLower(s) == s
  {
  }

  /** Lowering does not move the ends of the white space. */
  lemma {:induction false} LeadingSpacesToLower(s: string)
    ensures LeadingSpaces(ToLower(s)) == LeadingSpaces(s)
  {
    if s != [] {
      LowerCharSpace(s[0]);
      assert ToLower(s)[1..] == ToLower(s[1..]);
      LeadingSpacesToLower(s[1..]);
    }
  }

  lemma {:induction false} TrailingSpacesToLower(s: string)
    ensures TrailingSpaces(ToLower(s)) == TrailingSpaces(s)
  {
    if s != [] {
      LowerCharSpace(s[|s| - 1]);
      assert ToLower(s)[..|s| - 1] == ToLower(s[..|s| - 1]);
      TrailingSpacesToLower(s[..|s| - 1]);
    }
  }

  /** Lowering and trimming commute: `toLowerCase().trim()` equals `trim().toLowerCase()`. */
  lemma TrimToLowerCommute(s: string)
    ensures Trim(ToLower(s)) == ToLower(Trim(s))
  {
    var a := LeadingSpaces(s);
    LeadingSpacesToLower(s);
    assert ToLower(s)[a..] == ToLower(s[a..]);
    var t := s[a..];
    TrailingSpacesToLower(t);
    var b := TrailingSpaces(t);
    assert ToLower(t)[..|t| - b] == ToLower(t[..|t| - b]);
  }

  // ---------------------------------------------------------------- split

  /** `FirstIndex` stops at the first `c`, and only there. */
  lemma {:induction false} FirstIndexSpec(s: string, c: char)
    ensures c !in s[..FirstIndex(s, c)]
    ensures FirstIndex(s, c) < |s| <==> c in s
    ensures FirstIndex(s, c) < |s| ==> s[FirstIndex(s, c)] == c
  {
    if s != [] && s[0] != c {
      FirstIndexSpec(s[1..], c);
      var n := FirstIndex(s, c);
      assert s[..n] == [s[0]] + s[1..][..n - 1];
      assert s == [s[0]] + s[1..];
    }
  }

  /** No piece holds the separator. */
  lemma {:induction false} SplitPiecesFree(s: string, c: char)
    ensures forall i | 0 <= i < |Split(s, c)| :: c !in Split(s, c)[i]
    decreases |s|
  {
    FirstIndexSpec(s, c);
    var i := FirstIndex(s, c);
    if i < |s| {
      SplitPiecesFree(s[i + 1..], c);
      assert forall k | 1 <= k < |Split(s, c)| :: Split(s, c)[k] == Split(s[i + 1..], c)[k - 1];
    } else {
      assert s[..i] == s;
    }
  }

  /** Splitting and joining again with the same separator restores the string. */
  lemma {:induction false} SplitJoin(s: string, c: char)
    ensures Join(Split(s, c), c) == s
    decreases |s|
  {
    FirstIndexSpec(s, c);
    var i := FirstIndex(s, c);
    if i < |s| {
      SplitJoin(s[i + 1..], c);
      assert Split(s, c)[1..] == Split(s[i + 1..], c);
      assert s == s[..i] + [c] + s[i + 1..];
    }
  }

  /** A string without the separator is one piece. */
  lemma SplitNone(s: string, c: char)
    requires c !in s
    ensures Split(s, c) == [s]
  {
    FirstIndexSpec(s, c);
  }

  /** The first piece ends at the first separator; the rest is split further. */
  lemma SplitAt(a: string, c: char, b: string)
    requires c !in a
    ensures Split(a + [c] + b, c) == [a] + Split(b, c)
  {
    var s := a + [c] + b;
    FirstIndexSpec(s, c);
    var i := FirstIndex(s, c);
    assert s[..|a|] == a && s[|a|] == c;
    assert i == |a|;
    assert s[..i] == a && s[i + 1..] == b;
  }

  /** There is a second piece exactly when the separator occurs. */
  lemma SplitHasSecond(s: string, c: char)
    ensures |Split(s, c)| >= 2 <==> c in s
  {
    FirstIndexSpec(s, c);
  }

  /** A prefix free of the separator stays a prefix of the first piece. */
  lemma SplitFirstStartsWith(s: string, c: char, p: string)
    requires StartsWith(s, p) && c !in p
    ensures StartsWith(Split(s, c)[0], p)
  {
    FirstIndexSpec(s, c);
    assert s[..|p|] == p;
  }

  /** Splitting the join of separator-free pieces gives the pieces back. */
  lemma {:induction false} JoinSplit(parts: seq<string>, c: char)
    requires |parts| >= 1
    requires forall k | 0 <= k < |parts| :: c !in parts[k]
    ensures Split(Join(parts, c), c) == parts
    decreases |parts|
  {
    if |parts| == 1 {
      SplitNone(parts[0], c);
    } else {
      JoinSplit(parts[1..], c);
      SplitAt(parts[0], c, Join(parts[1..], c));
      assert parts == [parts[0]] + parts[1..];
    }
  }
}
