/** The SQL `LIKE` comparison that the title criterion is compiled to, and its
    relation to plain substring containment. `%` matches any run of characters,
    `_` matches exactly one character, every other character matches itself
    (case-sensitively: the collation of the database is not part of this
    model, and neither is an escape character: the backslash that several
    databases use as their default escape is excluded from `Literal`). */
module SqlLike {

  /** True iff `s` matches the pattern `pattern`. A pattern without
      wildcards matches exactly itself. */
  predicate Like(s: string, pattern: string): (r: bool)
    ensures Literal(pattern) ==> (r <==> s == pattern)
    decreases |s| + |pattern|
  {
    if pattern == [] then s == []
    else if pattern[0] == '%' then Like(s, pattern[1..]) || (s != [] && Like(s[1..], pattern))
    else
      LiteralTail(pattern);
      s != [] && (pattern[0] == '_' || s[0] == pattern[0]) && Like(s[1..], pattern[1..])
  }

  /** Dropping the first character of a literal leaves a literal. */
  lemma LiteralTail(p: string)
    requires p != []
    ensures Literal(p) ==> Literal(p[1..])
  {
    if Literal(p) {
      forall i | 0 <= i < |p[1..]| ensures p[1..][i] != '%' && p[1..][i] != '_' && p[1..][i] != '\\' {
        assert p[1..][i] == p[i + 1];
      }
    }
  }

  /** True iff `p` occurs in `s` as a contiguous substring. */
  predicate Contains(s: string, p: string)
  {
    p <= s || (s != [] && Contains(s[1..], p))
  }

  /** True iff `p` has no character that `LIKE` treats as a wildcard, nor
      the backslash that a database may treat as its default escape. */
  predicate Literal(p: string)
  {
    forall i :: 0 <= i < |p| ==> p[i] != '%' && p[i] != '_' && p[i] != '\\'
  }

  /** The pattern is a literal wrapped in one `%` on each side. */
  predicate WrapsLiteral(pattern: string)
  {
    && |pattern| >= 2 && pattern[0] == '%' && pattern[|pattern| - 1] == '%'
    && Literal(pattern[1..|pattern| - 1])
  }

  /** The pattern `"%" + p + "%"` that the title criterion builds. */
  function ContainsPattern(p: string): (pattern: string)
    ensures |pattern| == |p| + 2
    ensures pattern[0] == '%' && pattern[|pattern| - 1] == '%'
    ensures pattern[1..|pattern| - 1] == p
  {
    "%" + p + "%"
  }

  /** A lone `%` matches every string, including the empty one. */
  lemma {:induction false} PercentMatchesAll(s: string)
    ensures Like(s, "%")
  {
    if s != [] {
      PercentMatchesAll(s[1..]);
    }
  }

  /** A literal followed by `%` matches exactly the strings it is a prefix of. */
  lemma {:induction false} LikePrefix(s: string, p: string)
    requires Literal(p)
    ensures Like(s, p + "%") <==> p <= s
  {
    if p == [] {
      assert p + "%" == "%";
      PercentMatchesAll(s);
    } else {
      assert (p + "%")[1..] == p[1..] + "%";
      LiteralTail(p);
      if s != [] {
        LikePrefix(s[1..], p[1..]);
      }
    }
  }

  /** `"%" + p + "%"` with a literal `p` matches exactly the strings that
      contain `p`. */
  lemma {:induction false} LikeContains(s: string, p: string)
    requires Literal(p)
    ensures Like(s, ContainsPattern(p)) <==> Contains(s, p)
  {
    var pattern := ContainsPattern(p);
    assert pattern[0] == '%' && pattern[1..] == p + "%";
    LikePrefix(s, p);
    if s != [] {
      LikeContains(s[1..], p);
    }
  }

  /** A wrapped literal pattern matches exactly the strings that contain the
      literal. */
  lemma LikeWrapped(s: string, pattern: string)
    requires WrapsLiteral(pattern)
    ensures Like(s, pattern) <==> Contains(s, pattern[1..|pattern| - 1])
  {
    var p := pattern[1..|pattern| - 1];
    assert ContainsPattern(p) == pattern;
    LikeContains(s, p);
  }

  /** A string without the first character of `p` does not contain `p`. */
  lemma {:induction false} MissingFirstCharacter(s: string, p: string)
    requires p != [] && p[0] !in s
    ensures !Contains(s, p)
  {
    if s != [] {
      assert s[0] != p[0];
      assert forall c :: c in s[1..] ==> c in s;
      MissingFirstCharacter(s[1..], p);
    }
  }

  /** Containment does not need the literal condition to fail: `_` in a title
      criterion is a wildcard, so `"a_c"` selects the title `"abc"`, which
      does not contain it. */
  lemma UnderscoreIsAWildcard()
    ensures Like("abc", ContainsPattern("a_c")) && !Contains("abc", "a_c")
  {
    var pattern := ContainsPattern("a_c");
    assert pattern == "%a_c%";
    assert Like("", pattern[4..]);
    assert Like("c", pattern[3..]);
    assert Like("bc", pattern[2..]);
    assert Like("abc", pattern[1..]);
    assert !Contains("c", "a_c");
    assert !Contains("bc", "a_c");
  }
}
