/** SQL `ILIKE` as the repository uses it: the requested name (or
    `%keyword%`) is the pattern, so `%` (any run of characters), `_` (any
    one character) and `\` (escape) in client input are not taken
    literally. The model elsewhere uses the literal comparisons of module
    `Text`; this module states how the two relate and where they part. */
module LikePattern {
  import opened Text
  import opened Models
  import opened SpellRepository

  /** `s LIKE p` with the default escape character `\`. A lone `\` at the
      end of the pattern is taken literally. */
  predicate LikeMatch(s: string, p: string)
    decreases |s| + |p|
  {
    if p == [] then s == []
    else if p[0] == '%' then LikeMatch(s, p[1..]) || (s != [] && LikeMatch(s[1..], p))
    else if p[0] == '_' then s != [] && LikeMatch(s[1..], p[1..])
    else if p[0] == '\\' && |p| >= 2 then s != [] && s[0] == p[1] && LikeMatch(s[1..], p[2..])
    else s != [] && s[0] == p[0] && LikeMatch(s[1..], p[1..])
  }

  /** `s ILIKE p`, with ASCII case folding. */
  predicate Ilike(s: string, p: string)
  {
    LikeMatch(LowerStr(s), LowerStr(p))
  }

  /** Client text in which `LIKE` sees no special character. */
  predicate NoWildcards(p: string)
  {
    forall i :: 0 <= i < |p| ==> p[i] != '%' && p[i] != '_' && p[i] != '\\'
  }

  /** A wildcard-free pattern matches exactly itself. */
  lemma {:induction false} LiteralPattern(s: string, p: string)
    requires NoWildcards(p)
    ensures LikeMatch(s, p) <==> s == p
    decreases |p|
  {
    if p != [] {
      assert NoWildcards(p[1..]) by {
        forall i | 0 <= i < |p[1..]| ensures p[1..][i] == p[i + 1] { }
      }
      if s != [] {
        LiteralPattern(s[1..], p[1..]);
        assert s == p <==> s[0] == p[0] && s[1..] == p[1..] by {
          if s[0] == p[0] && s[1..] == p[1..] {
            assert s == [s[0]] + s[1..] && p == [p[0]] + p[1..];
          }
        }
      }
    }
  }

  /** `k%` matches exactly the strings that start with `k`. */
  lemma {:induction false} LiteralThenPercent(s: string, k: string)
    requires NoWildcards(k)
    ensures LikeMatch(s, k + "%") <==> k <= s
    decreases |k|
  {
    if k == [] {
      assert k + "%" == "%";
      PercentMatchesAll(s);
    } else {
      var p := k + "%";
      assert p[0] == k[0] && p[1..] == k[1..] + "%";
      assert NoWildcards(k[1..]) by {
        forall i | 0 <= i < |k[1..]| ensures k[1..][i] == k[i + 1] { }
      }
      if s != [] {
        LiteralThenPercent(s[1..], k[1..]);
        assert k <= s <==> k[0] == s[0] && k[1..] <= s[1..] by {
          if k[0] == s[0] && k[1..] <= s[1..] {
            assert k == [k[0]] + k[1..];
            assert s == [s[0]] + s[1..];
          }
        }
      }
    }
  }

  /** `%` matches every string. */
  lemma {:induction false} PercentMatchesAll(s: string)
    ensures LikeMatch(s, "%")
    decreases |s|
  {
    if s != [] {
      PercentMatchesAll(s[1..]);
    }
  }

  /** `%k%` matches exactly the strings containing `k`. */
  lemma {:induction false} SurroundedByPercent(s: string, k: string)
    requires NoWildcards(k)
    ensures LikeMatch(s, "%" + k + "%") <==> IsSubstring(k, s)
    decreases |s|
  {
    var p := "%" + k + "%";
    assert p[0] == '%' && p[1..] == k + "%";
    LiteralThenPercent(s, k);
    if s != [] {
      SurroundedByPercent(s[1..], k);
    }
  }

  /** Lower-casing creates no wildcard. */
  lemma LowerKeepsNoWildcards(p: string)
    requires NoWildcards(p)
    ensures NoWildcards(LowerStr(p))
  {
  }

  /** For a name without wildcards, `name ILIKE n` is the literal
      case-insensitive equality the rest of the model uses. */
  lemma IlikeLiteral(s: string, n: string)
    requires NoWildcards(n)
    ensures Ilike(s, n) <==> EqualsIgnoreCase(s, n)
  {
    LowerKeepsNoWildcards(n);
    LiteralPattern(LowerStr(s), LowerStr(n));
  }

  /** For a keyword without wildcards, `name ILIKE '%keyword%'` is the
      literal case-insensitive containment the rest of the model uses. */
  lemma IlikeContains(s: string, k: string)
    requires NoWildcards(k)
    ensures Ilike(s, "%" + k + "%") <==> ContainsIgnoreCase(s, k)
  {
    LowerKeepsNoWildcards(k);
    assert LowerStr("%" + k + "%") == "%" + LowerStr(k) + "%";
    SurroundedByPercent(LowerStr(s), LowerStr(k));
  }

  /** As written, the search keyword `_` (pattern `%_%`) finds every
      non-empty name, including names in which no `_` occurs, whereas the
      literal containment finds only names with an underscore. */
  lemma UnderscoreKeywordMatchesAll(s: string)
    requires |s| >= 1
    ensures Ilike(s, "%" + "_" + "%")
    ensures (forall i :: 0 <= i < |s| ==> s[i] != '_') ==> !ContainsIgnoreCase(s, "_")
  {
    var t := LowerStr(s);
    var p := "%" + "_" + "%";
    assert LowerStr(p) == p;
    assert p[1..] == "_%" && p[1..][1..] == "%";
    PercentMatchesAll(t[1..]);
    if forall i :: 0 <= i < |s| ==> s[i] != '_' {
      assert LowerStr("_") == "_";
      forall k ensures !OccursAt("_", t, k) {
        if 0 <= k < |t| {
          assert t[k..k + 1][0] == t[k] == AsciiLower(s[k]) != '_';
        }
      }
      IsSubstringIffOccurs("_", t);
    }
  }

  /** The row selection of `get_spell`, `is_published` and `publish_spell`
      as written: owner, and name matched against the request as a pattern. */
  predicate SelectsAsWritten(s: Spell, u: int, pattern: string)
  {
    s.userId == u && Ilike(s.name, pattern)
  }

  /** As written, the name `%` selects every spell of the caller, however
      many there are: `publish_spell` with it publishes them all. */
  lemma PercentSelectsEveryOwnedSpell(rows: seq<Spell>, u: int)
    ensures forall s :: s in rows && s.userId == u ==> SelectsAsWritten(s, u, "%")
  {
    assert LowerStr("%") == "%";
    forall s | s in rows && s.userId == u ensures SelectsAsWritten(s, u, "%") {
      PercentMatchesAll(LowerStr(s.name));
    }
  }

  /** As written, two spells of one owner that the unique index allows side
      by side are both selected by `%`, whereas the literal lookup selects
      at most one row (`SpellRepository.AtMostOneSelected`). */
  lemma WildcardSelectsTwo(a: Spell, b: Spell)
    requires a.userId == b.userId && Consistent([a, b])
    ensures SelectsAsWritten(a, a.userId, "%") && SelectsAsWritten(b, a.userId, "%")
    ensures |Filter([a, b], Selected(a.userId, NameLike("%")))| <= 1
  {
    PercentSelectsEveryOwnedSpell([a, b], a.userId);
    AtMostOneSelected([a, b], a.userId, NameLike("%"));
  }
}
