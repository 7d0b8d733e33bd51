/** SQLite's LIKE operator as searchItem uses it (`items.name LIKE ?` with the
    pattern "%" + keyword + "%"). The keyword is NOT escaped, so a '%' in it
    matches any run of characters and a '_' any one character; letters are
    compared with ASCII case folding only (SQLite's default LIKE). This module
    models all of that, and proves that for a keyword free of '%' and '_' the
    search is case-insensitive substring containment. */
module SqlLike {

  function LowerAscii(c: char): char {
    if 'A' <= c <= 'Z' then (c as int - 'A' as int + 'a' as int) as char else c
  }

  predicate FoldEq(a: char, b: char) {
    LowerAscii(a) == LowerAscii(b)
  }

  predicate NoWildcards(k: string) {
    forall i :: 0 <= i < |k| ==> k[i] != '%' && k[i] != '_'
  }

  /** `s` matches the LIKE pattern `p`. Without wildcards that is equality
      up to ASCII case. */
  predicate Like(p: string, s: string)
    ensures NoWildcards(p) ==>
      (Like(p, s) <==> |p| == |s| && forall i :: 0 <= i < |p| ==> FoldEq(p[i], s[i]))
    decreases |p| + |s|
  {
    if p == [] then s == []
    else if p[0] == '%' then Like(p[1..], s) || (s != [] && Like(p, s[1..]))
    else s != [] && (p[0] == '_' || FoldEq(p[0], s[0])) && Like(p[1..], s[1..])
  }

  /** The pattern searchItem binds for a keyword. */
  function ContainsPattern(keyword: string): string {
    "%" + keyword + "%"
  }

  /** `k` is, up to ASCII case, a prefix of `s`. */
  predicate FoldPrefix(k: string, s: string) {
    |k| <= |s| && forall i :: 0 <= i < |k| ==> FoldEq(k[i], s[i])
  }

  /** `k` occurs in `s`, up to ASCII case. */
  predicate ContainsFold(s: string, k: string) {
    exists i :: 0 <= i <= |s| && FoldPrefix(k, s[i..])
  }

  /** A lone '%' matches every string. */
  lemma {:induction false} PercentMatchesAll(s: string)
    ensures Like("%", s)
    decreases |s|
  {
    assert "%"[1..] == [];
    if s != [] {
      PercentMatchesAll(s[1..]);
    }
  }

  /** '_' matches exactly one character: a wildcard-free text followed by
      '_' matches exactly the strings one longer that it is a case-folded
      prefix of. */
  lemma {:induction false} TrailingUnderscore(k: string, s: string)
    requires NoWildcards(k)
    ensures Like(k + "_", s) <==> |s| == |k| + 1 && FoldPrefix(k, s)
    decreases |k|
  {
    var p := k + "_";
    if k == [] {
      assert p == "_" && p[1..] == [];
    } else {
      assert p[0] == k[0] && p[1..] == k[1..] + "_";
      assert NoWildcards(k[1..]) by {
        forall i | 0 <= i < |k[1..]| ensures k[1..][i] != '%' && k[1..][i] != '_' {
          assert k[1..][i] == k[i + 1];
        }
      }
      if s != [] {
        TrailingUnderscore(k[1..], s[1..]);
        if FoldPrefix(k, s) {
          forall i | 0 <= i < |k[1..]| ensures FoldEq(k[1..][i], s[1..][i]) {
            assert FoldEq(k[i + 1], s[i + 1]);
          }
        }
        if FoldEq(k[0], s[0]) && FoldPrefix(k[1..], s[1..]) {
          forall i | 0 <= i < |k| ensures FoldEq(k[i], s[i]) {
            if i > 0 { assert FoldEq(k[1..][i - 1], s[1..][i - 1]); }
          }
        }
      }
    }
  }

  /** A wildcard-free keyword followed by '%' matches exactly the strings it
      is a case-folded prefix of. */
  lemma {:induction false} PrefixPattern(k: string, s: string)
    requires NoWildcards(k)
    ensures Like(k + "%", s) <==> FoldPrefix(k, s)
    decreases |k|
  {
    if k == [] {
      assert k + "%" == "%";
      PercentMatchesAll(s);
    } else {
      var p := k + "%";
      assert p[0] == k[0] && p[1..] == k[1..] + "%";
      assert NoWildcards(k[1..]) by {
        forall i | 0 <= i < |k[1..]| ensures k[1..][i] != '%' && k[1..][i] != '_' {
          assert k[1..][i] == k[i + 1];
        }
      }
      if s != [] {
        PrefixPattern(k[1..], s[1..]);
        if FoldPrefix(k, s) {
          forall i | 0 <= i < |k[1..]| ensures FoldEq(k[1..][i], s[1..][i]) {
            assert FoldEq(k[i + 1], s[i + 1]);
          }
        }
        if FoldEq(k[0], s[0]) && FoldPrefix(k[1..], s[1..]) {
          forall i | 0 <= i < |k| ensures FoldEq(k[i], s[i]) {
            if i > 0 { assert FoldEq(k[1..][i - 1], s[1..][i - 1]); }
          }
        }
      }
    }
  }

  /** A pattern that starts with '%' matches `s` exactly when the rest of the
      pattern matches some suffix of `s`. */
  lemma {:induction false} LeadingPercent(q: string, s: string)
    ensures Like("%" + q, s) <==> exists i :: 0 <= i <= |s| && Like(q, s[i..])
    decreases |s|
  {
    var p := "%" + q;
    assert p[0] == '%' && p[1..] == q;
    assert s[0..] == s;
    if s != [] {
      LeadingPercent(q, s[1..]);
      if Like(p, s) && !Like(q, s) {
        var i :| 0 <= i <= |s| - 1 && Like(q, s[1..][i..]);
        assert s[1..][i..] == s[i + 1..];
      }
      if exists i :: 0 <= i <= |s| && Like(q, s[i..]) {
        var i :| 0 <= i <= |s| && Like(q, s[i..]);
        if i > 0 {
          assert s[1..][i - 1..] == s[i..];
        }
      }
    }
  }

  /** searchItem's pattern for a wildcard-free keyword is case-insensitive
      substring containment. */
  lemma KeywordContainment(keyword: string, s: string)
    requires NoWildcards(keyword)
    ensures Like(ContainsPattern(keyword), s) <==> ContainsFold(s, keyword)
  {
    assert ContainsPattern(keyword) == "%" + (keyword + "%");
    LeadingPercent(keyword + "%", s);
    forall i | 0 <= i <= |s|
      ensures Like(keyword + "%", s[i..]) <==> FoldPrefix(keyword, s[i..])
    {
      PrefixPattern(keyword, s[i..]);
    }
  }

  /** The empty keyword matches every name. */
  lemma EmptyKeywordMatchesAll(s: string)
    ensures Like(ContainsPattern(""), s)
  {
    assert ContainsPattern("") == "%" + "%";
    LeadingPercent("%", s);
    PercentMatchesAll(s);
    assert s[0..] == s;
  }
}
