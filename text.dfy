/** The string primitives the collection code relies on: `String.prototype.trim`,
    `toLowerCase` (ASCII letters only), `includes`, and the order used in place
    of `localeCompare(..., 'ko')` (code-point lexicographic order). */
module Text {

  /** The characters `trim` removes: the ECMAScript WhiteSpace and
      LineTerminator code points (Unicode category Zs written out). */
  predicate IsWhitespace(c: char) {
    c == '\t' || c == '\n' || c == '\U{B}' || c == '\U{C}' || c == '\r' || c == ' ' ||
    c == '\U{A0}' || c == '\U{1680}' || ('\U{2000}' <= c <= '\U{200A}') ||
    c == '\U{2028}' || c == '\U{2029}' || c == '\U{202F}' || c == '\U{205F}' ||
    c == '\U{3000}' || c == '\U{FEFF}'
  }

  /** `s` without its leading whitespace. */
  function TrimStart(s: string): (r: string)
    ensures |r| <= |s| && r == s[|s| - |r|..]
    ensures forall k :: 0 <= k < |s| - |r| ==> IsWhitespace(s[k])
    ensures r != [] ==> !IsWhitespace(r[0])
    decreases |s|
  {
    if s != [] && IsWhitespace(s[0]) then TrimStart(s[1..]) else s
  }

  /** `s` without its trailing whitespace. */
  function TrimEnd(s: string): (r: string)
    ensures |r| <= |s| && r == s[..|r|]
    ensures forall k :: |r| <= k < |s| ==> IsWhitespace(s[k])
    ensures r != [] ==> !IsWhitespace(r[|r| - 1])
    decreases |s|
  {
    if s != [] && IsWhitespace(s[|s| - 1]) then TrimEnd(s[..|s| - 1]) else s
  }

  /** `s.trim()`: the longest slice of `s` that neither starts nor ends with
      whitespace, everything cut away on either side being whitespace. */
  function Trim(s: string): (r: string)
    ensures r == [] || (!IsWhitespace(r[0]) && !IsWhitespace(r[|r| - 1]))
    ensures var i := |s| - |TrimStart(s)|;
      i + |r| <= |s| && r == s[i..i + |r|] &&
      (forall k :: 0 <= k < i ==> IsWhitespace(s[k])) &&
      (forall k :: i + |r| <= k < |s| ==> IsWhitespace(s[k]))
  {
    TrimEnd(TrimStart(s))
  }

  /** A trimmed string is empty exactly when the input is all whitespace,
      which is what makes a blank form field count as missing. */
  lemma TrimEmptyIff(s: string)
    ensures Trim(s) == [] <==> forall k :: 0 <= k < |s| ==> IsWhitespace(s[k])
  {
    if Trim(s) != [] {
      var i := |s| - |TrimStart(s)|;
      assert s[i] == Trim(s)[0];
    }
  }

  /** Trimming twice is trimming once. */
  lemma TrimIdempotent(s: string)
    ensures Trim(Trim(s)) == Trim(s)
  {
    var t := Trim(s);
    if t != [] {
      assert TrimStart(t) == t;
      assert TrimEnd(t) == t;
    }
  }

  function LowerChar(c: char): char {
    if 'A' <= c <= 'Z' then (c as int + 32) as char else c
  }

  /** `s.toLowerCase()` restricted to ASCII: every letter A-Z becomes its
      lower-case form and every other character is kept. */
  function ToLower(s: string): (r: string)
    ensures |r| == |s|
    ensures forall i :: 0 <= i < |s| ==> !('A' <= r[i] <= 'Z')
    ensures forall i :: 0 <= i < |s| ==> r[i] == s[i] || ('A' <= s[i] <= 'Z' && r[i] as int == s[i] as int + 32)
  {
    seq(|s|, i requires 0 <= i < |s| => LowerChar(s[i]))
  }

  /** Lower-casing is idempotent, so a term lowered by the caller and lowered
      again behaves the same. */
  lemma ToLowerIdempotent(s: string)
    ensures ToLower(ToLower(s)) == ToLower(s)
  {
  }

  /** `s.includes(t)`: `t` occurs in `s` starting at some position. */
  predicate Includes(s: string, t: string)
    decreases |s|
  {
    t <= s || (s != [] && Includes(s[1..], t))
  }

  /** `t` occurs in `s` at position `i`. */
  ghost predicate OccursAt(s: string, t: string, i: int) {
    0 <= i <= |s| - |t| && s[i..i + |t|] == t
  }

  /** `Includes` agrees with the positional definition of a substring. */
  lemma {:induction false} IncludesIff(s: string, t: string)
    ensures Includes(s, t) <==> exists i :: OccursAt(s, t, i)
    decreases |s|
  {
    if Includes(s, t) {
      if t <= s {
        assert OccursAt(s, t, 0);
      } else {
        IncludesIff(s[1..], t);
        var i :| OccursAt(s[1..], t, i);
        assert s[i + 1..i + 1 + |t|] == s[1..][i..i + |t|];
        assert OccursAt(s, t, i + 1);
      }
    }
    if exists i :: OccursAt(s, t, i) {
      var i :| OccursAt(s, t, i);
      if i == 0 {
        assert t <= s;
      } else {
        assert s[1..][i - 1..i - 1 + |t|] == s[i..i + |t|];
        assert OccursAt(s[1..], t, i - 1);
        IncludesIff(s[1..], t);
      }
    }
  }

  /** The empty search string occurs in every string. */
  lemma IncludesEmpty(s: string)
    ensures Includes(s, [])
  {
  }

  /** A non-empty string occurs only in a string that holds its first
      character. */
  lemma {:induction false} IncludesFirstChar(s: string, t: string)
    requires t != []
    ensures Includes(s, t) ==> t[0] in s
    decreases |s|
  {
    if s != [] && !(t <= s) {
      IncludesFirstChar(s[1..], t);
    }
  }

  /** Code-point lexicographic order: `a` is a proper prefix of `b`, or the
      first differing character of `a` is smaller. */
  predicate Less(a: string, b: string)
    decreases |a|
  {
    if b == [] then false
    else if a == [] then true
    else if a[0] != b[0] then a[0] < b[0]
    else Less(a[1..], b[1..])
  }

  lemma {:induction false} LessIrreflexive(a: string)
    ensures !Less(a, a)
    decreases |a|
  {
    if a != [] {
      LessIrreflexive(a[1..]);
    }
  }

  lemma {:induction false} LessTransitive(a: string, b: string, c: string)
    requires Less(a, b) && Less(b, c)
    ensures Less(a, c)
    decreases |a|
  {
    if a != [] && a[0] == b[0] && b[0] == c[0] {
      LessTransitive(a[1..], b[1..], c[1..]);
    }
  }

  /** Any two distinct strings are ordered one way or the other. */
  lemma {:induction false} LessTotal(a: string, b: string)
    ensures a == b || Less(a, b) || Less(b, a)
    decreases |a|
  {
    if a != [] && b != [] && a[0] == b[0] {
      LessTotal(a[1..], b[1..]);
      if a[1..] == b[1..] {
        assert a == [a[0]] + a[1..] && b == [b[0]] + b[1..];
      }
    }
  }

  lemma {:induction false} LessAsymmetric(a: string, b: string)
    requires Less(a, b)
    ensures !Less(b, a)
    decreases |a|
  {
    if a != [] && a[0] == b[0] {
      LessAsymmetric(a[1..], b[1..]);
    }
  }

  /** Ordering by "the second argument is smaller than the first", as the
      title and category comparators do, is a strict weak order. */
  lemma LessStrictWeakOrder(a: string, b: string, c: string)
    ensures Less(b, a) ==> !Less(a, b)
    ensures Less(c, a) ==> Less(b, a) || Less(c, b)
  {
    if Less(b, a) { LessAsymmetric(b, a); }
    if Less(c, a) && !Less(b, a) && !Less(c, b) {
      LessTotal(a, b);
      LessTotal(b, c);
      if Less(a, b) && Less(b, c) {
        LessTransitive(a, b, c);
        LessAsymmetric(c, a);
      } else if Less(a, b) {
        LessAsymmetric(c, a);
      } else if Less(b, c) {
        LessAsymmetric(c, a);
      } else {
        LessIrreflexive(a);
      }
    }
  }
}
