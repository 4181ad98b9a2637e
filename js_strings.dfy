/**
 * The JavaScript string built-ins the service, middleware and form rely on,
 * over `seq<char>`:
 * `trim`, `split` with a one-character separator (and its inverse, a join),
 * `toLowerCase` on ASCII letters and `includes`.
 */
module JsStrings {

  /** The ECMAScript WhiteSpace and LineTerminator code points, which `String.prototype.trim` strips. */
  predicate IsJsWhitespace(c: char) {
    || c == '\t' || c == '\n' || c == '\U{000B}' || c == '\U{000C}' || c == '\r'
    || c == ' ' || c == '\U{00A0}' || c == '\U{1680}'
    || ('\U{2000}' <= c <= '\U{200A}')
    || c == '\U{2028}' || c == '\U{2029}' || c == '\U{202F}' || c == '\U{205F}'
    || c == '\U{3000}' || c == '\U{FEFF}'
  }

  /** Every character of `s` satisfies `p`. */
  predicate AllSatisfy(s: string, p: char -> bool) {
    forall i :: 0 <= i < |s| ==> p(s[i])
  }

  /** `s` is empty or neither starts nor ends with a character satisfying `p`. */
  predicate NoEdge(s: string, p: char -> bool) {
    s == [] || (!p(s[0]) && !p(s[|s| - 1]))
  }

  /** The number of leading characters of `s` that satisfy `p`. */
  function LeadingCount(s: string, p: char -> bool): (n: nat)
    ensures n <= |s|
    ensures forall i :: 0 <= i < n ==> p(s[i])
    ensures n == |s| || !p(s[n])
    decreases |s|
  {
    if |s| > 0 && p(s[0]) then
      var n := LeadingCount(s[1..], p);
      assert forall i :: 1 <= i < |s| ==> s[1..][i - 1] == s[i];
      n + 1
    else 0
  }

  /** The number of trailing characters of `s` that satisfy `p`. */
  function TrailingCount(s: string, p: char -> bool): (n: nat)
    ensures n <= |s|
    ensures forall i :: |s| - n <= i < |s| ==> p(s[i])
    ensures n == |s| || !p(s[|s| - n - 1])
    decreases |s|
  {
    if |s| > 0 && p(s[|s| - 1]) then
      var n := TrailingCount(s[..|s| - 1], p);
      assert forall i :: 0 <= i < |s| - 1 ==> s[..|s| - 1][i] == s[i];
      n + 1
    else 0
  }

  /** `s` with its leading characters that satisfy `p` removed. */
  function StripStart(s: string, p: char -> bool): string {
    s[LeadingCount(s, p)..]
  }

  /** `s` with its trailing characters that satisfy `p` removed. */
  function StripEnd(s: string, p: char -> bool): string {
    s[..|s| - TrailingCount(s, p)]
  }

  /** `s` with the characters that satisfy `p` removed from both ends. */
  function Strip(s: string, p: char -> bool): string {
    StripEnd(StripStart(s, p), p)
  }

  /** `String.prototype.trim`: strip ECMAScript whitespace from both ends. */
  function Trim(s: string): string {
    Strip(s, IsJsWhitespace)
  }

  /** The string holds nothing but whitespace (`!s.trim()` holds exactly for these). */
  predicate AllWhitespace(s: string) {
    AllSatisfy(s, IsJsWhitespace)
  }

  /**
   * Stripping keeps one contiguous slice of its input, starting after the
   * leading characters that satisfy `p`, and removes only such characters
   * around it.
   */
  lemma StripSlice(s: string, p: char -> bool)
    ensures var k := LeadingCount(s, p);
      && k + |Strip(s, p)| <= |s|
      && Strip(s, p) == s[k..k + |Strip(s, p)|]
      && AllSatisfy(s[..k], p)
      && AllSatisfy(s[k + |Strip(s, p)|..], p)
  {
    var k := LeadingCount(s, p);
    var t := s[k..];
    var r := t[..|t| - TrailingCount(t, p)];
    assert Strip(s, p) == r;
    PrefixOfSuffix(s, k, t, r);
    SatisfyingAfterPrefix(s, k, t, r, p);
  }

  /** The stripped string neither starts nor ends with a character satisfying `p`. */
  lemma StripHasNoEdge(s: string, p: char -> bool)
    ensures NoEdge(Strip(s, p), p)
  {
    var k := LeadingCount(s, p);
    var t := s[k..];
    if t != [] {
      assert t[0] == s[k];
    }
    NoEdgeOfSlice(t, TrailingCount(t, p), p);
  }

  /** A prefix `r` of the suffix `t` of `s` starting at `k` is the slice of `s` from `k`. */
  lemma PrefixOfSuffix(s: string, k: int, t: string, r: string)
    requires 0 <= k <= |s| && t == s[k..] && |r| <= |t| && r == t[..|r|]
    ensures k + |r| <= |s| && r == s[k..k + |r|]
  {
    forall i | 0 <= i < |r| ensures s[k + i] == r[i] {
      assert t[i] == s[k + i];
    }
  }

  /** When the suffix `t` of `s` from `k` satisfies `p` after its prefix `r`, so does `s` after `k + |r|`. */
  lemma SatisfyingAfterPrefix(s: string, k: int, t: string, r: string, p: char -> bool)
    requires 0 <= k <= |s| && t == s[k..] && |r| <= |t|
    requires forall i :: |r| <= i < |t| ==> p(t[i])
    ensures k + |r| <= |s| && AllSatisfy(s[k + |r|..], p)
  {
    var tail := s[k + |r|..];
    forall i | 0 <= i < |tail| ensures p(tail[i]) {
      assert tail[i] == t[|r| + i];
    }
  }

  /** What is left of `t` once its trailing run of `p` characters is cut has no `p` edge, when `t` has none at the start. */
  lemma NoEdgeOfSlice(t: string, m: nat, p: char -> bool)
    requires m == TrailingCount(t, p)
    requires t == [] || !p(t[0])
    ensures NoEdge(t[..|t| - m], p)
  {
    var r := t[..|t| - m];
    if r != [] {
      assert r[0] == t[0];
      assert r[|r| - 1] == t[|t| - m - 1];
    }
  }

  /** A string is stripped to nothing exactly when all its characters satisfy `p`. */
  lemma StripEmptyIff(s: string, p: char -> bool)
    ensures Strip(s, p) == [] <==> AllSatisfy(s, p)
  {
    var k := LeadingCount(s, p);
    var t := s[k..];
    if k < |s| {
      assert t[0] == s[k];
      assert TrailingCount(t, p) < |t|;
      assert !p(s[k]);
    } else {
      assert t == [];
    }
  }

  /** A string that neither starts nor ends with a character satisfying `p` is its own strip. */
  lemma StripNoEdge(s: string, p: char -> bool)
    requires NoEdge(s, p)
    ensures Strip(s, p) == s
  {
    assert LeadingCount(s, p) == 0;
    assert s[0..] == s;
    assert TrailingCount(s, p) == 0;
  }

  /** Stripping twice is stripping once. */
  lemma StripIdempotent(s: string, p: char -> bool)
    ensures Strip(Strip(s, p), p) == Strip(s, p)
  {
    StripHasNoEdge(s, p);
    StripNoEdge(Strip(s, p), p);
  }

  /** `ToLowerCase` restricted to ASCII: `A`..`Z` become `a`..`z`, every other character is kept. */
  function LowerChar(c: char): (l: char)
    ensures 'A' <= c <= 'Z' ==> 'a' <= l <= 'z' && l as int - c as int == 32
    ensures !('A' <= c <= 'Z') ==> l == c
  {
    if 'A' <= c <= 'Z' then (c as int + 32) as char else c
  }

  function ToLowerAscii(s: string): (r: string)
    ensures |r| == |s|
    ensures forall i :: 0 <= i < |s| ==> r[i] == LowerChar(s[i])
    decreases |s|
  {
    if s == [] then [] else [LowerChar(s[0])] + ToLowerAscii(s[1..])
  }

  /** Lower-casing commutes with concatenation. */
  lemma ToLowerAsciiConcat(s: string, t: string)
    ensures ToLowerAscii(s + t) == ToLowerAscii(s) + ToLowerAscii(t)
  {
  }

  /** Lower-casing twice is lower-casing once. */
  lemma ToLowerAsciiIdempotent(s: string)
    ensures ToLowerAscii(ToLowerAscii(s)) == ToLowerAscii(s)
  {
    var l := ToLowerAscii(s);
    assert forall i :: 0 <= i < |l| ==> LowerChar(l[i]) == l[i];
  }

  /** `w` occurs in `s` starting at index `i`. */
  predicate OccursAt(s: string, w: string, i: int) {
    0 <= i && i + |w| <= |s| && s[i..i + |w|] == w
  }

  /** `String.prototype.includes`, as a scan from the left. */
  predicate Contains(s: string, w: string)
    decreases |s|
  {
    if |w| > |s| then false
    else if s[..|w|] == w then true
    else Contains(s[1..], w)
  }

  /** The scan finds `w` exactly when `w` occurs at some index of `s`. */
  lemma {:induction false} ContainsIff(s: string, w: string)
    ensures Contains(s, w) <==> exists i :: OccursAt(s, w, i)
    decreases |s|
  {
    if |w| > |s| {
      forall i | OccursAt(s, w, i) ensures false { }
    } else if s[..|w|] == w {
      assert OccursAt(s, w, 0);
    } else {
      ContainsIff(s[1..], w);
      if Contains(s[1..], w) {
        var i :| OccursAt(s[1..], w, i);
        assert s[i + 1..i + 1 + |w|] == s[1..][i..i + |w|];
        assert OccursAt(s, w, i + 1);
      } else {
        forall i | OccursAt(s, w, i) ensures false {
          assert s[1..][i - 1..i - 1 + |w|] == s[i..i + |w|];
          assert OccursAt(s[1..], w, i - 1);
        }
      }
    }
  }

  /** An occurrence stays an occurrence when text is added on either side. */
  lemma ContainsExtend(s: string, w: string, before: string, after: string)
    requires Contains(s, w)
    ensures Contains(before + s + after, w)
  {
    ContainsIff(s, w);
    var i :| OccursAt(s, w, i);
    var t := before + s + after;
    assert t[|before| + i..|before| + i + |w|] == s[i..i + |w|];
    assert OccursAt(t, w, |before| + i);
    ContainsIff(t, w);
  }

  /** `s.split(sep)` for a one-character separator: the maximal separator-free pieces, empty ones included. */
  function Split(s: string, sep: char): (parts: seq<string>)
    ensures |parts| >= 1
    ensures forall i :: 0 <= i < |parts| ==> sep !in parts[i]
    decreases |s|
  {
    if s == [] then [[]]
    else
      var rest := Split(s[1..], sep);
      if s[0] == sep then [[]] + rest
      else [[s[0]] + rest[0]] + rest[1..]
  }

  /** `parts.join(sep)`. */
  function Join(parts: seq<string>, sep: char): string
    requires |parts| >= 1
    decreases |parts|
  {
    if |parts| == 1 then parts[0] else parts[0] + [sep] + Join(parts[1..], sep)
  }

  /** Joining the pieces of a split gives back the original string. */
  lemma {:induction false} JoinSplit(s: string, sep: char)
    ensures Join(Split(s, sep), sep) == s
    decreases |s|
  {
    if s != [] {
      var rest := Split(s[1..], sep);
      JoinSplit(s[1..], sep);
      if s[0] == sep {
        assert Split(s, sep)[1..] == rest;
      } else if |rest| == 1 {
        assert Split(s, sep) == [[s[0]] + rest[0]];
      } else {
        var parts := Split(s, sep);
        assert parts[1..] == rest[1..];
        calc {
          Join(parts, sep);
          ([s[0]] + rest[0]) + [sep] + Join(rest[1..], sep);
          [s[0]] + (rest[0] + [sep] + Join(rest[1..], sep));
          [s[0]] + Join(rest, sep);
          s;
        }
      }
    }
  }

  /** Splitting a separator-free string followed by a separator peels off that string as the first piece. */
  lemma {:induction false} SplitPeel(p: string, sep: char, t: string)
    requires sep !in p
    ensures Split(p + [sep] + t, sep) == [p] + Split(t, sep)
    decreases |p|
  {
    var s := p + [sep] + t;
    if p != [] {
      SplitPeel(p[1..], sep, t);
      assert s[0] == p[0] && p[0] != sep;
      assert s[1..] == p[1..] + [sep] + t;
      var rest := Split(s[1..], sep);
      assert rest == [p[1..]] + Split(t, sep);
      assert [p[0]] + p[1..] == p;
    } else {
      assert s[1..] == t;
    }
  }

  /** Splitting a separator-free string yields that string alone. */
  lemma {:induction false} SplitNoSeparator(p: string, sep: char)
    requires sep !in p
    ensures Split(p, sep) == [p]
    decreases |p|
  {
    if p != [] {
      SplitNoSeparator(p[1..], sep);
      assert [p[0]] + p[1..] == p;
    }
  }

  /** Splitting a join of separator-free pieces gives back the pieces. */
  lemma {:induction false} SplitJoin(parts: seq<string>, sep: char)
    requires |parts| >= 1
    requires forall i :: 0 <= i < |parts| ==> sep !in parts[i]
    ensures Split(Join(parts, sep), sep) == parts
    decreases |parts|
  {
    if |parts| == 1 {
      SplitNoSeparator(parts[0], sep);
    } else {
      SplitJoin(parts[1..], sep);
      SplitPeel(parts[0], sep, Join(parts[1..], sep));
      assert [parts[0]] + parts[1..] == parts;
    }
  }

  /** The first piece of a split is the prefix before the first separator: the whole string when there is none. */
  lemma FirstPieceIsPrefix(s: string, sep: char)
    ensures var p := Split(s, sep)[0];
      && sep !in p
      && |p| <= |s| && s[..|p|] == p
      && (|p| == |s| || s[|p|] == sep)
  {
    var parts := Split(s, sep);
    JoinSplit(s, sep);
    if |parts| > 1 {
      assert s == parts[0] + [sep] + Join(parts[1..], sep);
    }
  }

  /** Every character of a join is the separator or a character of one of the pieces. */
  lemma {:induction false} JoinChars(parts: seq<string>, sep: char, c: char)
    requires |parts| >= 1
    requires c in Join(parts, sep)
    ensures c == sep || exists i :: 0 <= i < |parts| && c in parts[i]
    decreases |parts|
  {
    if |parts| > 1 && c !in parts[0] && c != sep {
      JoinChars(parts[1..], sep, c);
      var i :| 0 <= i < |parts[1..]| && c in parts[1..][i];
      assert c in parts[i + 1];
    }
  }

  /** The length of a join is the pieces' lengths plus one separator between each two of them. */
  lemma {:induction false} JoinLengthBounds(parts: seq<string>, sep: char, lo: nat, hi: nat)
    requires |parts| >= 1
    requires forall i :: 0 <= i < |parts| ==> lo <= |parts[i]| <= hi
    ensures |parts| * (lo + 1) - 1 <= |Join(parts, sep)| <= |parts| * (hi + 1) - 1
    decreases |parts|
  {
    if |parts| > 1 {
      JoinLengthBounds(parts[1..], sep, lo, hi);
    }
  }

  /** Two adjacent separators leave an empty piece between them, and it is never the first piece. */
  lemma {:induction false} AdjacentSeparatorsEmptyPiece(s: string, sep: char, i: int)
    requires 0 <= i && i + 1 < |s| && s[i] == sep && s[i + 1] == sep
    ensures exists k :: 1 <= k < |Split(s, sep)| && Split(s, sep)[k] == []
    decreases |s|
  {
    var rest := Split(s[1..], sep);
    if i == 0 {
      assert s[1..][0] == sep;
      assert rest[0] == [];
      assert Split(s, sep)[1] == [];
    } else {
      AdjacentSeparatorsEmptyPiece(s[1..], sep, i - 1);
      var k :| 1 <= k < |rest| && rest[k] == [];
      if s[0] == sep {
        assert Split(s, sep)[k + 1] == [];
      } else {
        assert Split(s, sep)[k] == [];
      }
    }
  }
}
