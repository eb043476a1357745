/** SQLite's built-in LIKE operator, with no ESCAPE clause: '%' matches any run of
    characters, '_' matches exactly one, and every other character matches itself
    ignoring the case of the ASCII letters A-Z (SQLite folds no other letter). */
module SqlLike {

  function FoldChar(c: char): (r: char)
    ensures 'A' <= c <= 'Z' ==> r as int == c as int + 32
    ensures !('A' <= c <= 'Z') ==> r == c
  {
    if 'A' <= c <= 'Z' then (c as int + 32) as char else c
  }

  predicate IsWildcard(c: char) { c == '%' || c == '_' }

  predicate NoWildcards(v: string) { forall i :: 0 <= i < |v| ==> !IsWildcard(v[i]) }

  /** Does pattern p match the whole of s? */
  function Like(p: string, s: string): bool
    decreases |p| + |s|
  {
    if p == [] then s == []
    else if p[0] == '%' then Like(p[1..], s) || (s != [] && Like(p, s[1..]))
    else s != [] && (p[0] == '_' || FoldChar(p[0]) == FoldChar(s[0])) && Like(p[1..], s[1..])
  }

  /** s begins with v, comparing ASCII letters without regard to case. */
  predicate StartsWithFolded(s: string, v: string)
  {
    |v| <= |s| && forall i :: 0 <= i < |v| ==> FoldChar(s[i]) == FoldChar(v[i])
  }

  /** v occurs somewhere inside s, comparing ASCII letters without regard to case. */
  predicate ContainsFolded(s: string, v: string)
  {
    exists k :: 0 <= k <= |s| && StartsWithFolded(s[k..], v)
  }

  /** A lone '%' matches every string. */
  lemma {:induction false} LikeAnything(s: string)
    ensures Like("%", s)
    decreases |s|
  {
    if s != [] {
      LikeAnything(s[1..]);
    }
  }

  /** A pattern that is a literal followed by '%' is a case-folded prefix test. */
  lemma {:induction false} LikePrefix(v: string, s: string)
    requires NoWildcards(v)
    ensures Like(v + "%", s) <==> StartsWithFolded(s, v)
    decreases |v|
  {
    if v == [] {
      assert v + "%" == "%";
      LikeAnything(s);
    } else {
      var p := v + "%";
      assert p[0] == v[0] && p[1..] == v[1..] + "%";
      if s != [] {
        LikePrefix(v[1..], s[1..]);
        if StartsWithFolded(s, v) {
          assert StartsWithFolded(s[1..], v[1..]) by {
            forall i | 0 <= i < |v[1..]| ensures FoldChar(s[1..][i]) == FoldChar(v[1..][i]) {
              assert s[1..][i] == s[i + 1] && v[1..][i] == v[i + 1];
            }
          }
        }
        if Like(p, s) {
          assert StartsWithFolded(s, v) by {
            forall i | 0 <= i < |v| ensures FoldChar(s[i]) == FoldChar(v[i]) {
              if i > 0 {
                assert s[1..][i - 1] == s[i] && v[1..][i - 1] == v[i];
              }
            }
          }
        }
      }
    }
  }

  /** A leading '%' lets the rest of the pattern match any suffix. */
  lemma {:induction false} LikeSuffix(x: string, s: string)
    ensures Like("%" + x, s) <==> exists k :: 0 <= k <= |s| && Like(x, s[k..])
    decreases |s|
  {
    var p := "%" + x;
    assert p[0] == '%' && p[1..] == x;
    assert s[0..] == s;
    if s != [] {
      LikeSuffix(x, s[1..]);
      if Like(p, s[1..]) {
        var k :| 0 <= k <= |s[1..]| && Like(x, s[1..][k..]);
        assert s[1..][k..] == s[k + 1..];
      }
      if exists k :: 0 <= k <= |s| && Like(x, s[k..]) {
        var k :| 0 <= k <= |s| && Like(x, s[k..]);
        if k > 0 {
          assert s[1..][k - 1..] == s[k..];
        }
      }
    }
  }

  /** LIKE '%v%' is case-folded substring containment when v holds no wildcard. */
  lemma LikeContains(v: string, s: string)
    requires NoWildcards(v)
    ensures Like("%" + v + "%", s) <==> ContainsFolded(s, v)
  {
    assert "%" + v + "%" == "%" + (v + "%");
    LikeSuffix(v + "%", s);
    forall k | 0 <= k <= |s| ensures Like(v + "%", s[k..]) <==> StartsWithFolded(s[k..], v) {
      LikePrefix(v, s[k..]);
    }
  }

  /** Prefixing pattern and subject with the same text preserves a match, whatever
      wildcards that text holds (each wildcard matches the character it stands beside). */
  lemma {:induction false} LikeExtend(t: string, q: string, s: string)
    requires Like(q, s)
    ensures Like(t + q, t + s)
    decreases |t|
  {
    if t != [] {
      LikeExtend(t[1..], q, s);
      var p, u := t + q, t + s;
      assert p != [] && p[0] == t[0] && p[1..] == t[1..] + q;
      assert u != [] && u[0] == t[0] && u[1..] == t[1..] + s;
      assert Like(p[1..], u[1..]);
      if t[0] == '%' {
        // the '%' matches the empty string, leaving the rest of the pattern on u[1..]
        assert Like(p, u[1..]) by {
          assert Like(p[1..], u[1..]);
        }
        assert Like(p, u) by {
          assert u != [] && Like(p, u[1..]);
        }
      } else {
        assert FoldChar(p[0]) == FoldChar(u[0]);
        assert Like(p, u);
      }
    } else {
      assert t + q == q && t + s == s;
    }
  }

  /** Filtering by a value that is itself the whole string always matches it. */
  lemma LikeSelfContains(t: string)
    ensures Like("%" + t + "%", t)
  {
    LikeAnything([]);
    LikeExtend(t, "%", []);
    assert t + [] == t;
    LikeSuffix(t + "%", t);
    assert t[0..] == t;
    assert "%" + t + "%" == "%" + (t + "%");
  }

  /** A '_' in a filter value is a wildcard, not a literal: "a_c" selects "abc". */
  lemma UnderscoreIsWildcard()
    ensures Like("%a_c%", "abc")
    ensures !ContainsFolded("abc", "a_c")
  {
    LikeAnything([]);
    assert !StartsWithFolded("abc", "a_c") by {
      assert "abc"[1] == 'b' && "a_c"[1] == '_';
      assert FoldChar('b') != FoldChar('_');
    }
    forall k | 0 < k <= 3 ensures !StartsWithFolded("abc"[k..], "a_c") {
      assert |"abc"[k..]| < 3;
    }
    assert "abc"[1..] == "bc" && "abc"[2..] == "c" && "abc"[3..] == [];
  }
}
