/**
 * SQLite's built-in `x LIKE p` without an ESCAPE clause: `%` matches any
 * run of characters, `_` matches exactly one character, and every other
 * pattern character matches itself with ASCII letters compared without
 * regard to case (SQLite's default; other letters are compared exactly).
 */
module SqlLike {

  /** SQLite's case folding for LIKE: ASCII upper-case letters to lower case. */
  function Fold(c: char): (d: char)
    ensures 'A' <= c <= 'Z' ==> 'a' <= d <= 'z' && d as int - c as int == 32
    ensures !('A' <= c <= 'Z') ==> d == c
  {
    if 'A' <= c <= 'Z' then (c as int + 32) as char else c
  }

  /**
   * `s LIKE p`. A pattern without wildcards matches exactly the strings equal
   * to it up to ASCII case.
   */
  function Like(p: string, s: string): (r: bool)
    ensures NoWildcards(p) ==> (r <==> FoldedEqual(p, s))
    decreases |p| + |s|
  {
    if p == [] then s == []
    else if p[0] == '%' then Like(p[1..], s) || (s != [] && Like(p, s[1..]))
    else if p[0] == '_' then s != [] && Like(p[1..], s[1..])
    else
      assert NoWildcards(p) ==> NoWildcards(p[1..]) by {
        if NoWildcards(p) {
          forall i | 0 <= i < |p[1..]| ensures p[1..][i] != '%' && p[1..][i] != '_' {
            assert p[1..][i] == p[i + 1];
          }
        }
      }
      assert s != [] ==> (FoldedEqual(p, s) <==> Fold(p[0]) == Fold(s[0]) && FoldedEqual(p[1..], s[1..])) by {
        if s != [] && |p| == |s| {
          assert forall i :: 0 < i < |p| ==> p[i] == p[1..][i - 1] && s[i] == s[1..][i - 1];
        }
      }
      s != [] && Fold(p[0]) == Fold(s[0]) && Like(p[1..], s[1..])
  }

  /** A filter text in which neither `%` nor `_` occurs. */
  predicate NoWildcards(f: string)
  {
    forall i :: 0 <= i < |f| ==> f[i] != '%' && f[i] != '_'
  }

  /** `a` and `b` are equal once ASCII letters are folded to lower case. */
  predicate FoldedEqual(a: string, b: string)
  {
    |a| == |b| && forall i :: 0 <= i < |a| ==> Fold(a[i]) == Fold(b[i])
  }

  /** `f` occurs in `s` starting at position `k`, up to ASCII case. */
  predicate OccursAt(f: string, s: string, k: int)
  {
    0 <= k && k + |f| <= |s| && FoldedEqual(f, s[k..k + |f|])
  }

  /** `f` is a contiguous substring of `s`, up to ASCII case. */
  predicate ContainsFolded(s: string, f: string)
  {
    exists k :: 0 <= k <= |s| && OccursAt(f, s, k)
  }

  /** The pattern `%` matches every string. */
  lemma {:induction false} PercentMatchesAll(s: string)
    ensures Like("%", s)
    decreases |s|
  {
    if s != [] {
      PercentMatchesAll(s[1..]);
    }
  }

  /** A wildcard-free pattern followed by `%` matches exactly the strings it begins, up to case. */
  lemma {:induction false} LiteralThenPercent(f: string, t: string)
    requires NoWildcards(f)
    ensures Like(f + "%", t) <==> |f| <= |t| && FoldedEqual(f, t[..|f|])
    decreases |f|
  {
    if f == [] {
      assert f + "%" == "%";
      PercentMatchesAll(t);
    } else {
      var p := f + "%";
      assert p[0] == f[0] && p[1..] == f[1..] + "%";
      assert NoWildcards(f[1..]) by {
        forall i | 0 <= i < |f[1..]| ensures f[1..][i] != '%' && f[1..][i] != '_' {
          assert f[1..][i] == f[i + 1];
        }
      }
      if t != [] {
        LiteralThenPercent(f[1..], t[1..]);
        if |f| <= |t| {
          assert t[1..][..|f| - 1] == t[..|f|][1..];
          if FoldedEqual(f, t[..|f|]) {
            assert FoldedEqual(f[1..], t[1..][..|f| - 1]) by {
              forall i | 0 <= i < |f| - 1 ensures Fold(f[1..][i]) == Fold(t[1..][..|f| - 1][i]) {
                assert f[1..][i] == f[i + 1];
                assert t[1..][..|f| - 1][i] == t[..|f|][i + 1];
              }
            }
          }
          if Fold(f[0]) == Fold(t[0]) && FoldedEqual(f[1..], t[1..][..|f| - 1]) {
            forall i | 0 <= i < |f| ensures Fold(f[i]) == Fold(t[..|f|][i]) {
              if i > 0 {
                assert f[i] == f[1..][i - 1];
                assert t[..|f|][i] == t[1..][..|f| - 1][i - 1];
              }
            }
          }
        }
      }
    }
  }

  /** A leading `%` lets the rest of the pattern match any suffix. */
  lemma {:induction false} LeadingPercent(q: string, s: string)
    ensures Like("%" + q, s) <==> exists k :: 0 <= k <= |s| && Like(q, s[k..])
    decreases |s|
  {
    var p := "%" + q;
    assert p[0] == '%' && p[1..] == q;
    assert s[0..] == s;
    if s != [] {
      LeadingPercent(q, s[1..]);
      if Like(p, s[1..]) {
        var k :| 0 <= k <= |s[1..]| && Like(q, s[1..][k..]);
        assert s[1..][k..] == s[k + 1..];
      }
      if exists k :: 0 <= k <= |s| && Like(q, s[k..]) {
        var k :| 0 <= k <= |s| && Like(q, s[k..]);
        if k > 0 {
          assert s[1..][k - 1..] == s[k..];
        }
      }
    }
  }

  /**
   * The filter `'%' + f + '%'` used for a wildcard-free `f` selects exactly the
   * strings that contain `f`, with ASCII letters compared regardless of case.
   */
  lemma SubstringFilter(f: string, s: string)
    requires NoWildcards(f)
    ensures Like("%" + f + "%", s) <==> ContainsFolded(s, f)
  {
    assert "%" + f + "%" == "%" + (f + "%");
    LeadingPercent(f + "%", s);
    if Like("%" + f + "%", s) {
      var k :| 0 <= k <= |s| && Like(f + "%", s[k..]);
      LiteralThenPercent(f, s[k..]);
      assert s[k..][..|f|] == s[k..k + |f|];
      assert OccursAt(f, s, k);
    }
    if ContainsFolded(s, f) {
      var k :| 0 <= k <= |s| && OccursAt(f, s, k);
      LiteralThenPercent(f, s[k..]);
      assert s[k..][..|f|] == s[k..k + |f|];
    }
  }

  /** With wildcards allowed, `_` stands for one character: `'%_%'` matches every non-empty string. */
  lemma UnderscoreMatchesAnyCharacter(s: string)
    ensures Like("%_%", s) <==> s != []
  {
    LeadingPercent("_%", s);
    if s != [] {
      PercentMatchesAll(s[1..]);
      assert "_%"[1..] == "%";
      assert Like("_%", s[0..]);
    }
  }
}
