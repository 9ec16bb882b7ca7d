/** The SQL pattern-matching operators LIKE and ILIKE that the homepage
    search hands its free-text query to. */
module SqlLike {
  import opened Text

  /** `s LIKE p` as PostgreSQL reads a pattern without an ESCAPE clause:
      `%` matches any run of characters (possibly empty), `_` matches
      exactly one character, a backslash makes the character after it stand
      for itself, and every other character matches itself. PostgreSQL
      rejects a pattern that ends in a lone backslash; here such a pattern
      matches nothing. */
  predicate LikeMatch(s: string, p: string)
    decreases |s| + |p|
  {
    if p == [] then s == []
    else if p[0] == '\\' then
      |p| >= 2 && s != [] && s[0] == p[1] && LikeMatch(s[1..], p[2..])
    else if p[0] == '%' then LikeMatch(s, p[1..]) || (s != [] && LikeMatch(s[1..], p))
    else s != [] && (p[0] == '_' || p[0] == s[0]) && LikeMatch(s[1..], p[1..])
  }

  /** `s ILIKE p`: LIKE with both sides lower-cased. */
  predicate ILike(s: string, p: string) {
    LikeMatch(Lower(s), Lower(p))
  }

  /** p contains neither wildcard nor the escape character, so each of its
      characters stands for itself. */
  predicate NoWildcards(p: string) {
    forall k :: 0 <= k < |p| ==> p[k] != '%' && p[k] != '_' && p[k] != '\\'
  }

  /** The pattern "%" matches every string. */
  lemma {:induction false} PercentMatchesAll(s: string)
    ensures LikeMatch(s, "%")
  {
    if s != [] {
      PercentMatchesAll(s[1..]);
    }
  }

  /** A wildcard-free q followed by `%` matches exactly the strings that
      start with q. */
  lemma {:induction false} LiteralThenPercent(s: string, q: string)
    requires NoWildcards(q)
    ensures LikeMatch(s, q + "%") <==> |q| <= |s| && s[..|q|] == q
  {
    if q == [] {
      assert q + "%" == "%";
      PercentMatchesAll(s);
    } else {
      assert (q + "%")[0] == q[0] && (q + "%")[1..] == q[1..] + "%";
      if s != [] {
        LiteralThenPercent(s[1..], q[1..]);
        if |q| <= |s| && s[..|q|] == q {
          assert s[1..][..|q| - 1] == s[..|q|][1..];
        }
        if |q| - 1 <= |s| - 1 && s[1..][..|q| - 1] == q[1..] && s[0] == q[0] {
          assert s[..|q|] == [s[0]] + s[1..][..|q| - 1];
        }
      }
    }
  }

  /** A leading `%` lets the rest of the pattern match any suffix. */
  lemma {:induction false} PercentThen(s: string, r: string)
    ensures LikeMatch(s, "%" + r) <==> exists i :: 0 <= i <= |s| && LikeMatch(s[i..], r)
  {
    var p := "%" + r;
    assert p[0] == '%' && p[1..] == r;
    assert s[0..] == s;
    if s != [] {
      PercentThen(s[1..], r);
      if LikeMatch(s, p) && !LikeMatch(s, r) {
        var i :| 0 <= i <= |s| - 1 && LikeMatch(s[1..][i..], r);
        assert s[1..][i..] == s[i + 1..];
      }
      if exists i :: 0 <= i <= |s| && LikeMatch(s[i..], r) {
        var i :| 0 <= i <= |s| && LikeMatch(s[i..], r);
        if i > 0 {
          assert s[1..][i - 1..] == s[i..];
        }
      }
    }
  }

  /** For a wildcard-free q, `s LIKE '%' || q || '%'` is exactly "q occurs in s". */
  lemma SurroundedLiteralIsContains(s: string, q: string)
    requires NoWildcards(q)
    ensures LikeMatch(s, "%" + q + "%") <==> Contains(s, q)
  {
    assert "%" + q + "%" == "%" + (q + "%");
    PercentThen(s, q + "%");
    forall i | 0 <= i <= |s|
      ensures LikeMatch(s[i..], q + "%") <==> OccursAt(s, q, i)
    {
      LiteralThenPercent(s[i..], q);
      if |q| <= |s| - i {
        assert s[i..][..|q|] == s[i..i + |q|];
      }
    }
  }

  /** For a wildcard-free q, `s ILIKE '%' || q || '%'` is "q occurs in s,
      ignoring case". */
  lemma ILikeSurroundedIsContainsIgnoringCase(s: string, q: string)
    requires NoWildcards(q)
    ensures ILike(s, "%" + q + "%") <==> Contains(Lower(s), Lower(q))
  {
    var lq := Lower(q);
    assert Lower("%" + q + "%") == "%" + lq + "%";
    assert NoWildcards(lq) by {
      forall k | 0 <= k < |lq| ensures lq[k] != '%' && lq[k] != '_' && lq[k] != '\\' {
        assert lq[k] == LowerChar(q[k]);
      }
    }
    SurroundedLiteralIsContains(Lower(s), lq);
  }
}
