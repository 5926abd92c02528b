/** The string operations the search queries run inside PostgreSQL:
    `LOWER(...)` and `... LIKE '%' || term || '%'`. */
module Text {

  /** `LOWER` on one character. Only the ASCII letters are folded: the
      database's locale-dependent Unicode case mapping is not modelled. */
  function LowerChar(c: char): char {
    if 'A' <= c <= 'Z' then (c as int + 32) as char else c
  }

  predicate IsLowerCase(c: char) {
    !('A' <= c <= 'Z')
  }

  /** `LOWER(s)`. */
  function Lower(s: string): (r: string)
    ensures |r| == |s|
    ensures forall i :: 0 <= i < |s| ==> r[i] == LowerChar(s[i]) && IsLowerCase(r[i])
  {
    seq(|s|, i requires 0 <= i < |s| => LowerChar(s[i]))
  }

  lemma LowerIdempotent(s: string)
    ensures Lower(Lower(s)) == Lower(s)
  {
  }

  lemma LowerConcat(a: string, b: string)
    ensures Lower(a + b) == Lower(a) + Lower(b)
  {
    assert forall i :: 0 <= i < |a + b| ==> Lower(a + b)[i] == (Lower(a) + Lower(b))[i];
  }

  /** `t` occurs in `s` as a contiguous substring. */
  predicate Contains(s: string, t: string) {
    exists k :: 0 <= k <= |s| && t <= s[k..]
  }

  /** The characters that `LIKE` gives a meaning: the two wildcards and the
      default escape character. */
  predicate IsLikeMeta(c: char) {
    c == '%' || c == '_' || c == '\\'
  }

  predicate NoLikeMeta(t: string) {
    forall i :: 0 <= i < |t| ==> !IsLikeMeta(t[i])
  }

  /** `s LIKE p` with `%` (any run of characters), `_` (any one character)
      and the default escape character `\`. A pattern ending in a lone
      escape character makes PostgreSQL raise an error; the patterns the
      queries build always end in `%`, so that case is read here as a
      literal backslash. */
  predicate Like(s: string, p: string)
    decreases |s| + |p|
  {
    if p == [] then s == []
    else if p[0] == '%' then Like(s, p[1..]) || (s != [] && Like(s[1..], p))
    else if p[0] == '_' then s != [] && Like(s[1..], p[1..])
    else if p[0] == '\\' && |p| >= 2 then s != [] && s[0] == p[1] && Like(s[1..], p[2..])
    else s != [] && s[0] == p[0] && Like(s[1..], p[1..])
  }

  /** The pattern `concat('%', term, '%')`. PostgreSQL's `concat` skips a
      NULL argument, so a null term gives `%%`. */
  function ContainsPattern(term: string): (p: string)
    ensures |p| == |term| + 2 && p[0] == '%' && p[|p| - 1] == '%'
    ensures p[1..|p| - 1] == term
  {
    "%" + term + "%"
  }

  lemma {:induction false} LikeTrailingPercent(s: string)
    ensures Like(s, "%")
  {
    if s != [] {
      LikeTrailingPercent(s[1..]);
    }
  }

  /** Against a pattern of literal characters followed by `%`, `LIKE` is a
      prefix test. */
  lemma {:induction false} LikeLiteralPrefix(s: string, t: string)
    requires NoLikeMeta(t)
    ensures Like(s, t + "%") <==> t <= s
  {
    if t == [] {
      assert t + "%" == "%";
      LikeTrailingPercent(s);
    } else {
      var p := t + "%";
      assert p[0] == t[0] && p[1..] == t[1..] + "%";
      assert !IsLikeMeta(t[0]);
      if s != [] {
        LikeLiteralPrefix(s[1..], t[1..]);
        assert t <= s <==> s[0] == t[0] && t[1..] <= s[1..];
      }
    }
  }

  /** A leading `%` lets the rest of the pattern match any suffix. */
  lemma {:induction false} LikeLeadingPercent(s: string, q: string)
    ensures Like(s, "%" + q) <==> exists k :: 0 <= k <= |s| && Like(s[k..], q)
  {
    var p := "%" + q;
    assert p[0] == '%' && p[1..] == q;
    assert s[0..] == s;
    if s != [] {
      LikeLeadingPercent(s[1..], q);
      if Like(s[1..], p) {
        var k :| 0 <= k <= |s[1..]| && Like(s[1..][k..], q);
        assert s[1..][k..] == s[k + 1..];
      }
      if k :| 0 < k <= |s| && Like(s[k..], q) {
        assert s[1..][k - 1..] == s[k..];
      }
    }
  }

  /** For a term free of `LIKE` meta-characters, `s LIKE '%term%'` holds
      exactly when the term is a substring of `s`. */
  lemma ContainsPatternMeaning(s: string, t: string)
    requires NoLikeMeta(t)
    ensures Like(s, ContainsPattern(t)) <==> Contains(s, t)
  {
    assert ContainsPattern(t) == "%" + (t + "%");
    LikeLeadingPercent(s, t + "%");
    forall k | 0 <= k <= |s|
      ensures Like(s[k..], t + "%") <==> t <= s[k..]
    {
      LikeLiteralPrefix(s[k..], t);
    }
  }

  /** Lower-casing the pattern `%term%` lower-cases only the term. */
  lemma LowerContainsPattern(t: string)
    ensures Lower(ContainsPattern(t)) == ContainsPattern(Lower(t))
  {
    LowerConcat("%" + t, "%");
    LowerConcat("%", t);
  }

  lemma LowerKeepsNoLikeMeta(t: string)
    requires NoLikeMeta(t)
    ensures NoLikeMeta(Lower(t))
  {
  }
}
