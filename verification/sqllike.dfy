/** MySQL's `LIKE` pattern match: `%` matches any run of characters, `_`
    exactly one, and a backslash makes the next pattern character literal. */
module SqlLike {
  import opened Strs

  function Like(s: string, p: string): bool
    decreases |p|, |s|
  {
    if p == [] then s == []
    else if p[0] == '%' then Like(s, p[1..]) || (s != [] && Like(s[1..], p))
    else if p[0] == '_' then s != [] && Like(s[1..], p[1..])
    else if p[0] == '\\' && |p| >= 2 then s != [] && s[0] == p[1] && Like(s[1..], p[2..])
    else s != [] && s[0] == p[0] && Like(s[1..], p[1..])
  }

  /** A keyword with no character that `LIKE` treats specially. */
  predicate NoWildcards(k: string) {
    forall i :: 0 <= i < |k| ==> k[i] != '%' && k[i] != '_' && k[i] != '\\'
  }

  /** The pattern `"%" + k + "%"` that `UserRepository.Search` builds. */
  function ContainsPattern(k: string): string {
    "%" + k + "%"
  }

  lemma {:induction false} LikeTrailingPercent(t: string)
    ensures Like(t, "%")
    decreases |t|
  {
    if t != [] {
      LikeTrailingPercent(t[1..]);
    }
  }

  lemma {:induction false} LikeLiteralThenPercent(t: string, k: string)
    requires NoWildcards(k)
    ensures Like(t, k + "%") <==> |k| <= |t| && t[..|k|] == k
    decreases |k|
  {
    if k == [] {
      assert k + "%" == "%";
      LikeTrailingPercent(t);
    } else {
      assert (k + "%")[1..] == k[1..] + "%";
      if t != [] {
        LikeLiteralThenPercent(t[1..], k[1..]);
        assert |k| <= |t| && t[..|k|] == k <==> t[0] == k[0] && |k[1..]| <= |t[1..]| && t[1..][..|k[1..]|] == k[1..] by {
          if |k| <= |t| && t[..|k|] == k {
            assert t[1..][..|k[1..]|] == t[..|k|][1..];
          }
          if t[0] == k[0] && |k[1..]| <= |t[1..]| && t[1..][..|k[1..]|] == k[1..] {
            assert t[..|k|] == [t[0]] + t[1..][..|k[1..]|];
            assert k == [k[0]] + k[1..];
          }
        }
      }
    }
  }

  lemma {:induction false} LikeLeadingPercent(s: string, q: string)
    ensures Like(s, "%" + q) <==> exists i :: 0 <= i <= |s| && Like(s[i..], q)
    decreases |s|
  {
    assert ("%" + q)[1..] == q;
    assert s[0..] == s;
    if s != [] {
      LikeLeadingPercent(s[1..], q);
      if Like(s[1..], "%" + q) {
        var i :| 0 <= i <= |s[1..]| && Like(s[1..][i..], q);
        assert s[1..][i..] == s[i + 1..];
      }
      if exists i :: 0 <= i <= |s| && Like(s[i..], q) {
        var i :| 0 <= i <= |s| && Like(s[i..], q);
        if i > 0 {
          assert s[1..][i - 1..] == s[i..];
        }
      }
    }
  }

  /** For a keyword without wildcards, `LIKE '%k%'` is exactly "contains `k`". */
  lemma ContainsPatternIsSubstring(s: string, k: string)
    requires NoWildcards(k)
    ensures Like(s, ContainsPattern(k)) <==> IsSubstring(k, s)
  {
    assert ContainsPattern(k) == "%" + (k + "%");
    LikeLeadingPercent(s, k + "%");
    if Like(s, ContainsPattern(k)) {
      var i :| 0 <= i <= |s| && Like(s[i..], k + "%");
      LikeLiteralThenPercent(s[i..], k);
      assert s[i..][..|k|] == s[i..i + |k|];
      assert OccursAt(k, s, i);
    }
    if IsSubstring(k, s) {
      var i :| 0 <= i <= |s| - |k| && OccursAt(k, s, i);
      LikeLiteralThenPercent(s[i..], k);
      assert s[i..][..|k|] == s[i..i + |k|];
    }
  }
}
