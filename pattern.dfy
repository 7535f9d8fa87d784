/** PostgreSQL's `ILIKE` as the event listing uses it: the search text is
    wrapped as `'%' || search || '%'` without escaping, so `%`, `_` and `\`
    typed by a visitor act as wildcards. `SearchAsWritten` is that test, and
    the event listing of this model uses it; `SearchLiteral` is the substring
    test the search box means, and the two agree on searches without
    wildcards. */
module Pattern {
  import opened Text

  /** `t LIKE p` with the default escape character `\`: `%` matches any run
      of characters, `_` any one character, and `\` makes the character after
      it literal. A pattern ending in a lone `\` matches nothing (PostgreSQL
      rejects it). */
  function Like(p: string, t: string): bool
    decreases |p| + |t|
  {
    if p == [] then t == []
    else if p[0] == '%' then Like(p[1..], t) || (t != [] && Like(p, t[1..]))
    else if p[0] == '_' then t != [] && Like(p[1..], t[1..])
    else if p[0] == '\\' then |p| >= 2 && t != [] && t[0] == p[1] && Like(p[2..], t[1..])
    else t != [] && t[0] == p[0] && Like(p[1..], t[1..])
  }

  /** `t ILIKE p`: `LIKE` after folding both sides to lower case. */
  function ILike(t: string, p: string): bool {
    Like(Lower(p), Lower(t))
  }

  /** `column ILIKE '%' || search || '%'`, the listing's search as written. */
  function SearchAsWritten(t: string, search: string): bool {
    ILike(t, "%" + search + "%")
  }

  /** `search` occurs in `t`, ignoring case: the search as intended. */
  function SearchLiteral(t: string, search: string): bool {
    Contains(Lower(t), Lower(search))
  }

  /** No character of `s` is special to `LIKE`. */
  predicate Plain(s: string) {
    forall i :: 0 <= i < |s| ==> s[i] != '%' && s[i] != '_' && s[i] != '\\'
  }

  /** A search for "_" finds every non-empty title; a search for "100%"
      finds "1000". Neither contains the text searched for. */
  lemma WildcardsLeak()
    ensures SearchAsWritten("a", "_") && !SearchLiteral("a", "_")
    ensures SearchAsWritten("1000", "100%") && !SearchLiteral("1000", "100%")
  {
    UnderscoreLeaks();
    PercentLeaks();
  }

  lemma UnderscoreLeaks()
    ensures SearchAsWritten("a", "_") && !SearchLiteral("a", "_")
  {
    assert "%" + "_" + "%" == "%_%";
    assert Lower("a") == "a";
    assert Lower("%_%") == "%_%";
    assert "%_%"[1..] == "_%" && "_%"[1..] == "%" && "a"[1..] == [];
    assert Like("%", []);
    assert Like("_%", "a");
    assert Like("%_%", "a");
    assert !OccursAt("a", "_", 0);
  }

  lemma PercentLeaks()
    ensures SearchAsWritten("1000", "100%") && !SearchLiteral("1000", "100%")
  {
    var p := "%100%%";
    assert SearchAsWritten("1000", "100%") by {
      assert "%" + "100%" + "%" == p;
      assert Lower("1000") == "1000";
      assert Lower(p) == p;
      assert p[1..] == "100%%" && "100%%"[1..] == "00%%" && "00%%"[1..] == "0%%";
      assert "0%%"[1..] == "%%" && "%%"[1..] == "%";
      assert "1000"[1..] == "000" && "000"[1..] == "00" && "00"[1..] == "0" && "0"[1..] == [];
      assert Like("%", []) && Like("%%", []);
      assert Like("%%", "0");
      assert Like("0%%", "00");
      assert Like("00%%", "000");
      assert Like("100%%", "1000");
      assert Like(p, "1000");
    }
    assert !SearchLiteral("1000", "100%") by {
      assert Lower("1000") == "1000";
      assert Lower("100%") == "100%";
      assert !OccursAt("1000", "100%", 0) by { assert "1000"[0..4][3] == '0'; }
    }
  }

  lemma {:induction false} LikeAnyRun(t: string)
    ensures Like("%", t)
    decreases |t|
  {
    if t != [] {
      LikeAnyRun(t[1..]);
    }
  }

  /** For a plain `s`, `s%` matches exactly the texts that start with `s`. */
  lemma {:induction false} LikePrefix(s: string, t: string)
    requires Plain(s)
    ensures Like(s + "%", t) <==> StartsWith(t, s)
    decreases |s|
  {
    if s == [] {
      assert s + "%" == "%";
      LikeAnyRun(t);
    } else {
      var p := s + "%";
      assert p[0] == s[0] && p[1..] == s[1..] + "%";
      assert Plain(s[1..]) by {
        forall i | 0 <= i < |s[1..]| ensures s[1..][i] != '%' && s[1..][i] != '_' && s[1..][i] != '\\' {
          assert s[1..][i] == s[i + 1];
        }
      }
      if t != [] {
        LikePrefix(s[1..], t[1..]);
        if StartsWith(t, s) {
          assert t[1..][..|s[1..]|] == t[..|s|][1..];
        }
        if StartsWith(t[1..], s[1..]) && t[0] == s[0] {
          assert t[..|s|] == [t[0]] + t[1..][..|s[1..]|];
        }
      }
    }
  }

  /** A leading `%` tries every suffix of the text. */
  lemma {:induction false} LikeLeadingRun(q: string, t: string)
    ensures Like("%" + q, t) <==> exists k :: 0 <= k <= |t| && Like(q, t[k..])
    decreases |t|
  {
    var p := "%" + q;
    assert p[0] == '%' && p[1..] == q;
    assert t[0..] == t;
    if t != [] {
      LikeLeadingRun(q, t[1..]);
      if exists k :: 0 <= k <= |t[1..]| && Like(q, t[1..][k..]) {
        var k :| 0 <= k <= |t[1..]| && Like(q, t[1..][k..]);
        assert t[1..][k..] == t[k + 1..];
      }
      if exists k :: 0 <= k <= |t| && Like(q, t[k..]) {
        var k :| 0 <= k <= |t| && Like(q, t[k..]);
        if k > 0 {
          assert t[1..][k - 1..] == t[k..];
        }
      }
    }
  }

  lemma LowerPlain(s: string)
    requires Plain(s)
    ensures Plain(Lower(s))
  {
  }

  /** When the search holds none of `%`, `_` and `\`, the query as written
      and the intended substring test agree. */
  lemma {:induction false} AgreeOnPlainSearch(t: string, search: string)
    requires Plain(search)
    ensures SearchAsWritten(t, search) == SearchLiteral(t, search)
  {
    var s := Lower(search);
    var lt := Lower(t);
    LowerPlain(search);
    LowerAppend("%" + search, "%");
    LowerAppend("%", search);
    assert Lower("%") == "%";
    assert Lower("%" + search + "%") == "%" + (s + "%");
    LikeLeadingRun(s + "%", lt);
    if SearchAsWritten(t, search) {
      var k :| 0 <= k <= |lt| && Like(s + "%", lt[k..]);
      LikePrefix(s, lt[k..]);
      assert lt[k..][..|s|] == lt[k..k + |s|];
      assert OccursAt(lt, s, k);
    }
    if SearchLiteral(t, search) {
      var k :| 0 <= k <= |lt| - |s| && OccursAt(lt, s, k);
      assert lt[k..][..|s|] == lt[k..k + |s|];
      LikePrefix(s, lt[k..]);
    }
  }
}
