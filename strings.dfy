/** String predicates the store applies to text columns: substring
    containment, SQL `LIKE` matching and lexicographic comparison. */
module Strings {

  predicate IsPrefix(p: string, s: string)
  {
    |p| <= |s| && s[..|p|] == p
  }

  /** `needle` occurs as a contiguous part of `s`. */
  predicate Contains(s: string, needle: string)
  {
    exists i | 0 <= i <= |s| :: IsPrefix(needle, s[i..])
  }

  /** `needle` holds neither of the `LIKE` wildcards `%` and `_`. */
  predicate NoWildcards(needle: string)
  {
    forall i | 0 <= i < |needle| :: needle[i] != '%' && needle[i] != '_'
  }

  /** SQL `s LIKE p` without an escape character: `%` matches any run of
      characters, `_` any one character, every other character itself. */
  function Like(s: string, p: string): bool
    decreases |s| + |p|
  {
    if p == [] then s == []
    else if p[0] == '%' then Like(s, p[1..]) || (s != [] && Like(s[1..], p))
    else s != [] && (p[0] == '_' || s[0] == p[0]) && Like(s[1..], p[1..])
  }

  /** The pattern the query binds for a substring condition. */
  function SubstringPattern(needle: string): string
  {
    "%" + needle + "%"
  }

  lemma {:induction false} LikeTrailingPercent(s: string)
    ensures Like(s, "%")
    decreases |s|
  {
    assert "%"[1..] == [];
    if s != [] {
      LikeTrailingPercent(s[1..]);
    }
  }

  /** Without wildcards, `t LIKE x%` means `x` is a prefix of `t`. */
  lemma {:induction false} LikePrefix(t: string, x: string)
    requires NoWildcards(x)
    ensures Like(t, x + "%") <==> IsPrefix(x, t)
    decreases |x|
  {
    if x == [] {
      assert x + "%" == "%";
      LikeTrailingPercent(t);
    } else {
      var p := x + "%";
      assert p[0] == x[0] && p[1..] == x[1..] + "%";
      assert NoWildcards(x[1..]) by {
        forall i | 0 <= i < |x[1..]| ensures x[1..][i] != '%' && x[1..][i] != '_' {
          assert x[1..][i] == x[i + 1];
        }
      }
      assert x[0] != '%' && x[0] != '_';
      if t != [] {
        LikePrefix(t[1..], x[1..]);
        assert IsPrefix(x, t) <==> t[0] == x[0] && IsPrefix(x[1..], t[1..]) by {
          if IsPrefix(x, t) {
            assert t[1..][..|x| - 1] == t[..|x|][1..];
          }
          if t[0] == x[0] && IsPrefix(x[1..], t[1..]) {
            assert t[..|x|] == [t[0]] + t[1..][..|x| - 1];
          }
        }
      }
    }
  }

  /** `Contains` looks at the first position, then at the rest. */
  lemma ContainsUnfold(s: string, x: string)
    ensures Contains(s, x) <==> IsPrefix(x, s) || (s != [] && Contains(s[1..], x))
  {
    if Contains(s, x) && !IsPrefix(x, s) {
      var i :| 0 <= i <= |s| && IsPrefix(x, s[i..]);
      assert i != 0;
      assert s[1..][i - 1..] == s[i..];
    }
    if s != [] && Contains(s[1..], x) {
      var i :| 0 <= i <= |s[1..]| && IsPrefix(x, s[1..][i..]);
      assert s[1..][i..] == s[i + 1..];
    }
    if IsPrefix(x, s) {
      assert s[0..] == s;
    }
  }

  /** The bound pattern `%x%` of a wildcard-free `x` matches exactly the
      strings that contain `x`. */
  lemma {:induction false} LikeSubstring(s: string, x: string)
    requires NoWildcards(x)
    ensures Like(s, SubstringPattern(x)) <==> Contains(s, x)
    decreases |s|
  {
    var p := SubstringPattern(x);
    assert p[0] == '%' && p[1..] == x + "%";
    LikePrefix(s, x);
    ContainsUnfold(s, x);
    if s != [] {
      LikeSubstring(s[1..], x);
    }
  }

  /** Lexicographic comparison by character code, as `String.compareTo`
      orders strings; the result is only its sign. */
  function StrCmp(a: string, b: string): (r: int)
    ensures -1 <= r <= 1
  {
    if a == [] then (if b == [] then 0 else -1)
    else if b == [] then 1
    else if a[0] < b[0] then -1
    else if a[0] > b[0] then 1
    else StrCmp(a[1..], b[1..])
  }

  lemma {:induction false} StrCmpAntisymmetric(a: string, b: string)
    ensures StrCmp(a, b) == -StrCmp(b, a)
  {
    if a != [] && b != [] && a[0] == b[0] {
      StrCmpAntisymmetric(a[1..], b[1..]);
    }
  }

  lemma {:induction false} StrCmpZero(a: string, b: string)
    ensures StrCmp(a, b) == 0 <==> a == b
  {
    if a != [] && b != [] && a[0] == b[0] {
      StrCmpZero(a[1..], b[1..]);
      assert a == [a[0]] + a[1..] && b == [b[0]] + b[1..];
    }
  }

  lemma {:induction false} StrCmpTransitive(a: string, b: string, c: string)
    requires StrCmp(a, b) < 0 && StrCmp(b, c) < 0
    ensures StrCmp(a, c) < 0
  {
    if a != [] && b != [] && c != [] && a[0] == b[0] && b[0] == c[0] {
      StrCmpTransitive(a[1..], b[1..], c[1..]);
    }
  }
}
