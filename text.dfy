// Text primitives of the store's SQL dialect: SQLite's ASCII-only LOWER,
// the LIKE pattern match (without an ESCAPE clause), the BINARY collation
// used by ORDER BY on TEXT columns, and the decimal reading of an all-digit
// search term.
module Text {

  /** SQLite's built-in LOWER folds only the ASCII letters A-Z. */
  function AsciiLowerChar(c: char): (d: char)
    ensures 'A' <= c <= 'Z' ==> d as int == c as int + 32
    ensures !('A' <= c <= 'Z') ==> d == c
    ensures !('A' <= d <= 'Z')
  {
    if 'A' <= c <= 'Z' then (c as int + 32) as char else c
  }

  predicate NoAsciiUpper(s: string) {
    forall i :: 0 <= i < |s| ==> !('A' <= s[i] <= 'Z')
  }

  /** LOWER(s): every character folded by AsciiLowerChar, nothing else changed. */
  function Lower(s: string): (r: string)
    ensures |r| == |s|
    ensures forall i :: 0 <= i < |s| ==> r[i] == AsciiLowerChar(s[i])
    ensures NoAsciiUpper(r)
  {
    if s == [] then [] else [AsciiLowerChar(s[0])] + Lower(s[1..])
  }

  /** SQL `s LIKE p` with no ESCAPE clause: '%' matches any run of characters
      (possibly empty), '_' matches exactly one character, every other
      pattern character matches itself. The store lower-cases both sides
      before matching, so LIKE's own ASCII case folding changes nothing and
      is not modelled. A pattern without wildcards matches only itself.
      Both operands are taken as LIKE reads them, see UpToNul. */
  predicate Like(p: string, s: string): (r: bool)
    ensures NoWildcards(p) ==> (r <==> s == p)
    decreases |p| + |s|
  {
    if p == [] then s == []
    else if p[0] == '%' then Like(p[1..], s) || (s != [] && Like(p, s[1..]))
    else s != [] && (p[0] == '_' || p[0] == s[0]) && Like(p[1..], s[1..])
  }

  predicate NoWildcards(t: string) {
    forall i :: 0 <= i < |t| ==> t[i] != '%' && t[i] != '_'
  }

  /** t occurs as a contiguous block somewhere in s. */
  predicate IsSubstring(t: string, s: string) {
    exists k :: 0 <= k <= |s| && t <= s[k..]
  }

  lemma {:induction false} LikePercentMatchesAll(s: string)
    ensures Like("%", s)
    decreases |s|
  {
    assert "%"[1..] == "";
    if s != [] {
      LikePercentMatchesAll(s[1..]);
    }
  }

  /** A wildcard-free pattern followed by '%' matches exactly the strings it prefixes. */
  lemma {:induction false} LikeTrailingPercent(t: string, s: string)
    requires NoWildcards(t)
    ensures Like(t + "%", s) <==> t <= s
    decreases |t|
  {
    if t == [] {
      assert t + "%" == "%";
      LikePercentMatchesAll(s);
    } else {
      var p := t + "%";
      assert p[0] == t[0] && p[0] != '%' && p[0] != '_';
      assert p[1..] == t[1..] + "%";
      assert NoWildcards(t[1..]) by {
        forall i | 0 <= i < |t[1..]| ensures t[1..][i] != '%' && t[1..][i] != '_' {
          assert t[1..][i] == t[i + 1];
        }
      }
      if s != [] {
        LikeTrailingPercent(t[1..], s[1..]);
        assert t <= s <==> t[0] == s[0] && t[1..] <= s[1..];
      }
    }
  }

  /** A leading '%' lets the rest of the pattern match any suffix. */
  lemma {:induction false} LikeLeadingPercent(q: string, s: string)
    ensures Like("%" + q, s) <==> exists k :: 0 <= k <= |s| && Like(q, s[k..])
    decreases |s|
  {
    var p := "%" + q;
    assert p[0] == '%' && p[1..] == q;
    assert s[0..] == s;
    if s != [] {
      LikeLeadingPercent(q, s[1..]);
      if Like(p, s) && !Like(q, s) {
        var k :| 0 <= k <= |s[1..]| && Like(q, s[1..][k..]);
        assert s[1..][k..] == s[k + 1..];
      }
      if exists k :: 0 <= k <= |s| && Like(q, s[k..]) {
        var k :| 0 <= k <= |s| && Like(q, s[k..]);
        if k > 0 {
          assert s[1..][k - 1..] == s[k..];
        }
      }
    }
  }

  /** The store's search pattern '%' + t + '%' is a plain substring test
      whenever the term holds no wildcard character. */
  lemma LikeContains(t: string, s: string)
    requires NoWildcards(t)
    ensures Like("%" + t + "%", s) <==> IsSubstring(t, s)
  {
    assert "%" + t + "%" == "%" + (t + "%");
    LikeLeadingPercent(t + "%", s);
    forall k | 0 <= k <= |s|
      ensures Like(t + "%", s[k..]) <==> t <= s[k..]
    {
      LikeTrailingPercent(t, s[k..]);
    }
  }

  // ---- text operands as C strings -----------------------------------------

  predicate NoNul(s: string) {
    forall i :: 0 <= i < |s| ==> s[i] != '\0'
  }

  /** LOWER keeps every NUL where it was and makes none. */
  lemma LowerNoNul(s: string)
    ensures NoNul(Lower(s)) <==> NoNul(s)
  {
    forall i | 0 <= i < |s| ensures Lower(s)[i] == '\0' <==> s[i] == '\0' {
      assert Lower(s)[i] == AsciiLowerChar(s[i]);
    }
  }

  /** t is a tail of s. */
  predicate IsSuffix(t: string, s: string) {
    exists k :: 0 <= k <= |s| && s[k..] == t
  }

  /** A text operand as SQLite's LIKE reads it: a NUL-terminated C string,
      so a value holding a NUL ends at its first NUL, and a value without
      one is read whole. */
  function UpToNul(s: string): (r: string)
    ensures r <= s
    ensures NoNul(r)
    ensures |r| < |s| ==> s[|r|] == '\0'
    ensures NoNul(s) ==> r == s
  {
    if s == [] || s[0] == '\0' then [] else [s[0]] + UpToNul(s[1..])
  }

  /** Reading a concatenation as a C string: either the first part holds
      the NUL that ends it, or the first part is read whole. */
  lemma {:induction false} UpToNulConcat(a: string, b: string)
    ensures UpToNul(a + b) == if NoNul(a) then a + UpToNul(b) else UpToNul(a)
    decreases |a|
  {
    if a != [] {
      assert (a + b)[0] == a[0] && (a + b)[1..] == a[1..] + b;
      assert NoNul(a) <==> a[0] != '\0' && NoNul(a[1..]) by {
        if a[0] != '\0' && NoNul(a[1..]) {
          forall i | 0 <= i < |a| ensures a[i] != '\0' {
            if i > 0 { assert a[i] == a[1..][i - 1]; }
          }
        }
      }
      if a[0] != '\0' {
        UpToNulConcat(a[1..], b);
        assert UpToNul(a + b) == [a[0]] + UpToNul(a[1..] + b);
        if NoNul(a) {
          assert a + UpToNul(b) == [a[0]] + (a[1..] + UpToNul(b));
        } else {
          assert UpToNul(a) == [a[0]] + UpToNul(a[1..]);
        }
      } else {
        assert !NoNul(a) && UpToNul(a + b) == [] == UpToNul(a);
      }
    } else {
      assert a + b == b;
    }
  }

  /** The store's search pattern '%' + t + '%', both operands read as C
      strings. For a wildcard-free t without NUL it is a substring test on
      s up to its first NUL; a NUL in t cuts off the closing '%', and what
      is left is a suffix test. */
  lemma LikeContainsUpToNul(t: string, s: string)
    requires NoWildcards(t)
    ensures NoNul(t) ==> (Like(UpToNul("%" + t + "%"), UpToNul(s)) <==> IsSubstring(t, UpToNul(s)))
    ensures !NoNul(t) ==> (Like(UpToNul("%" + t + "%"), UpToNul(s)) <==> IsSuffix(UpToNul(t), UpToNul(s)))
  {
    var u := UpToNul(s);
    assert "%" + t + "%" == "%" + (t + "%");
    UpToNulConcat("%", t + "%");
    UpToNulConcat(t, "%");
    if NoNul(t) {
      LikeContains(t, u);
    } else {
      var q := UpToNul(t);
      assert UpToNul("%" + t + "%") == "%" + q;
      assert NoWildcards(q) by {
        forall i | 0 <= i < |q| ensures q[i] != '%' && q[i] != '_' {
          assert q[i] == t[i];
        }
      }
      LikeLeadingPercent(q, u);
      forall k | 0 <= k <= |u| ensures Like(q, u[k..]) <==> u[k..] == q {
      }
    }
  }

  // ---- decimal digits ------------------------------------------------------

  predicate IsAsciiDigit(c: char) {
    '0' <= c <= '9'
  }

  /** Python's str.isdigit() restricted to ASCII: non-empty, digits only. */
  predicate AllDigits(t: string) {
    |t| > 0 && forall i :: 0 <= i < |t| ==> IsAsciiDigit(t[i])
  }

  /** int(t) for a string of ASCII digits (leading zeros allowed). */
  function DigitsValue(t: string): (n: nat)
    requires forall i :: 0 <= i < |t| ==> IsAsciiDigit(t[i])
    decreases |t|
  {
    if t == [] then 0
    else
      assert IsAsciiDigit(t[|t| - 1]);
      DigitsValue(t[..|t| - 1]) * 10 + (t[|t| - 1] as int - '0' as int)
  }

  function DigitChar(d: nat): (c: char)
    requires d < 10
    ensures IsAsciiDigit(c) && c as int - '0' as int == d
  {
    ('0' as int + d) as char
  }

  /** The decimal numeral of n, without leading zeros, as str(n) writes it. */
  function Decimal(n: nat): (t: string)
    ensures AllDigits(t)
    ensures DigitsValue(t) == n
    decreases n
  {
    if n < 10 then [DigitChar(n)]
    else
      var t := Decimal(n / 10) + [DigitChar(n % 10)];
      assert t[..|t| - 1] == Decimal(n / 10);
      t
  }

  // ---- BINARY collation ----------------------------------------------------

  /** ORDER BY on a TEXT column with SQLite's default BINARY collation:
      lexicographic by code point (UTF-8 byte order is code-point order),
      a proper prefix sorting first. */
  predicate StrLe(a: string, b: string): (r: bool)
    ensures a <= b ==> r
    ensures b < a ==> !r
    decreases |a|
  {
    if a == [] then true
    else if b == [] then false
    else if a[0] != b[0] then a[0] < b[0]
    else StrLe(a[1..], b[1..])
  }

  lemma {:induction false} StrLeTotal(a: string, b: string)
    ensures StrLe(a, b) || StrLe(b, a)
    decreases |a|
  {
    if a != [] && b != [] && a[0] == b[0] {
      StrLeTotal(a[1..], b[1..]);
    }
  }

  lemma {:induction false} StrLeTransitive(a: string, b: string, c: string)
    requires StrLe(a, b) && StrLe(b, c)
    ensures StrLe(a, c)
    decreases |a|
  {
    if a != [] && b != [] && c != [] && a[0] == b[0] && b[0] == c[0] {
      StrLeTransitive(a[1..], b[1..], c[1..]);
    }
  }

  lemma {:induction false} StrLeAntisymmetric(a: string, b: string)
    requires StrLe(a, b) && StrLe(b, a)
    ensures a == b
    decreases |a|
  {
    if a != [] && b != [] {
      StrLeAntisymmetric(a[1..], b[1..]);
      assert a == [a[0]] + a[1..] && b == [b[0]] + b[1..];
    }
  }
}
