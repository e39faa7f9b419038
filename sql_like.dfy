/** The `ilike` filter of the book search as SQLite evaluates it:
    `lower(x) LIKE lower(p)`, where `lower` folds only the ASCII letters and
    `%` and `_` in the pattern are wildcards (no escape character is set). */
module SqlLike {

  /** SQLite's `lower()` on one character. */
  function Lower(c: char): (d: char)
    ensures 'A' <= c <= 'Z' ==> d as int == c as int + 32
    ensures !('A' <= c <= 'Z') ==> d == c
  {
    if 'A' <= c <= 'Z' then (c as int + 32) as char else c
  }

  /** `s LIKE p`: `%` matches any run of characters, `_` any single
      character, and every other character itself, letters in either case. */
  function Like(s: string, p: string): bool
    decreases |s| + |p|
  {
    if p == [] then s == []
    else if p[0] == '%' then Like(s, p[1..]) || (s != [] && Like(s[1..], p))
    else if s == [] then false
    else if p[0] == '_' then Like(s[1..], p[1..])
    else Lower(s[0]) == Lower(p[0]) && Like(s[1..], p[1..])
  }

  predicate NoWildcards(n: string)
  {
    forall i :: 0 <= i < |n| ==> n[i] != '%' && n[i] != '_'
  }

  /** `n` occurs in `h` at position `k`, letters compared in either case. */
  predicate MatchesAt(h: string, n: string, k: nat)
  {
    k + |n| <= |h| && forall i :: 0 <= i < |n| ==> Lower(h[k + i]) == Lower(n[i])
  }

  /** `n` is a substring of `h`, ignoring the case of ASCII letters. */
  predicate ContainsIgnoringCase(h: string, n: string)
  {
    exists k: nat :: k <= |h| && MatchesAt(h, n, k)
  }

  /** A lone `%` matches every string. */
  lemma {:induction false} LikeAnything(s: string)
    ensures Like(s, "%")
    decreases |s|
  {
    assert "%"[1..] == [];
    if s != [] {
      LikeAnything(s[1..]);
    }
  }

  /** For a term `n` without `%` or `_`, `n%` matches exactly the strings
      that begin with `n`, ignoring ASCII case. */
  lemma {:induction false} LikePrefix(s: string, n: string)
    requires NoWildcards(n)
    ensures Like(s, n + "%") <==> MatchesAt(s, n, 0)
    decreases |n|
  {
    if n == [] {
      assert n + "%" == "%";
      LikeAnything(s);
    } else {
      var p := n + "%";
      assert p[0] == n[0] && p[1..] == n[1..] + "%";
      assert NoWildcards(n[1..]) by {
        forall i | 0 <= i < |n[1..]| ensures n[1..][i] != '%' && n[1..][i] != '_' {
          assert n[1..][i] == n[i + 1];
        }
      }
      if s != [] {
        LikePrefix(s[1..], n[1..]);
        if MatchesAt(s[1..], n[1..], 0) && Lower(s[0]) == Lower(n[0]) {
          forall i | 0 <= i < |n| ensures Lower(s[i]) == Lower(n[i]) {
            if i > 0 {
              assert s[1..][i - 1] == s[i] && n[1..][i - 1] == n[i];
            }
          }
        }
        if MatchesAt(s, n, 0) {
          assert Lower(s[0 + 0]) == Lower(n[0]);
          forall i | 0 <= i < |n[1..]| ensures Lower(s[1..][0 + i]) == Lower(n[1..][i]) {
            assert Lower(s[0 + (i + 1)]) == Lower(n[i + 1]);
          }
        }
      }
    }
  }

  /** `%q` matches `s` exactly when `q` matches some suffix of `s`. */
  lemma {:induction false} LikeSuffix(s: string, q: string)
    ensures Like(s, "%" + q) <==> exists k :: 0 <= k <= |s| && Like(s[k..], q)
    decreases |s|
  {
    var p := "%" + q;
    assert p[0] == '%' && p[1..] == q;
    assert s[0..] == s;
    if s != [] {
      LikeSuffix(s[1..], q);
      if exists k :: 0 <= k <= |s| && Like(s[k..], q) {
        var k :| 0 <= k <= |s| && Like(s[k..], q);
        if k > 0 {
          assert s[1..][k - 1..] == s[k..];
        }
      }
      if exists k :: 0 <= k <= |s[1..]| && Like(s[1..][k..], q) {
        var k :| 0 <= k <= |s[1..]| && Like(s[1..][k..], q);
        assert s[1..][k..] == s[k + 1..];
      }
    }
  }

  /** The search pattern `%term%` of a term without wildcards matches
      exactly the strings that contain the term, ignoring case. */
  lemma LikeContains(s: string, n: string)
    requires NoWildcards(n)
    ensures Like(s, "%" + n + "%") <==> ContainsIgnoringCase(s, n)
  {
    assert "%" + n + "%" == "%" + (n + "%");
    LikeSuffix(s, n + "%");
    if ContainsIgnoringCase(s, n) {
      var k: nat :| k <= |s| && MatchesAt(s, n, k);
      LikePrefix(s[k..], n);
      assert MatchesAt(s[k..], n, 0) by {
        forall i | 0 <= i < |n| ensures Lower(s[k..][0 + i]) == Lower(n[i]) {
          assert s[k..][i] == s[k + i];
        }
      }
    }
    if exists k :: 0 <= k <= |s| && Like(s[k..], n + "%") {
      var k :| 0 <= k <= |s| && Like(s[k..], n + "%");
      LikePrefix(s[k..], n);
      assert MatchesAt(s, n, k) by {
        forall i | 0 <= i < |n| ensures Lower(s[k + i]) == Lower(n[i]) {
          assert Lower(s[k..][0 + i]) == Lower(n[i]);
        }
      }
    }
  }
}
