/** The categories table: `slugify`, the insert that stores a name with its
    slug, and the listing ordered by name. The slug is computed by a string
    pipeline; each stage is its own function so that its laws can be stated
    one at a time. The input is taken to be already in Unicode compatibility
    decomposition (NFKD), so an accented letter arrives as the letter followed
    by combining marks. */
module CategoryRepository {
  import opened Store
  import opened Text
  import Sorting

  // ---------------------------------------------------------------------
  // The slug pipeline

  /** A combining diacritical mark, U+0300 to U+036F. */
  predicate IsMark(c: char) {
    0x300 <= c as int <= 0x36F
  }

  /** The characters a slug is made of: `[a-z0-9-]`. */
  predicate IsSlugChar(c: char) {
    IsLower(c) || IsDigit(c) || c == '-'
  }

  predicate AllSpace(s: string) {
    forall i :: 0 <= i < |s| ==> IsSpace(s[i])
  }

  /** Some character of `s` is not whitespace. */
  predicate HasText(s: string) {
    exists i :: 0 <= i < |s| && !IsSpace(s[i])
  }

  /** Some character of `s` survives accent stripping and trimming. */
  predicate Visible(s: string) {
    exists i :: 0 <= i < |s| && !IsSpace(s[i]) && !IsMark(s[i])
  }

  /** The accent-stripping stage: every combining mark is removed. */
  function StripMarks(s: string): string {
    Sorting.Filter(s, c => !IsMark(c))
  }

  /** The leading whitespace removed: what is left is a suffix of `s` that
      starts with a non-space character. */
  function TrimStart(s: string): (r: string)
    ensures |r| <= |s| && r == s[|s| - |r|..]
    ensures AllSpace(s[..|s| - |r|])
    ensures r != [] ==> !IsSpace(r[0])
    decreases |s|
  {
    if s != [] && IsSpace(s[0]) then
      var r := TrimStart(s[1..]);
      assert s[1..][..|s| - 1 - |r|] == s[1..|s| - |r|];
      assert s[..|s| - |r|] == [s[0]] + s[1..|s| - |r|];
      r
    else s
  }

  /** The trailing whitespace removed: what is left is a prefix of `s` that
      ends with a non-space character. */
  function TrimEnd(s: string): (r: string)
    ensures |r| <= |s| && r == s[..|r|]
    ensures AllSpace(s[|r|..])
    ensures r != [] ==> !IsSpace(r[|r| - 1])
    decreases |s|
  {
    if s != [] && IsSpace(s[|s| - 1]) then
      var r := TrimEnd(s[..|s| - 1]);
      assert s[..|s| - 1][|r|..] == s[|r|..|s| - 1];
      assert s[|r|..] == s[|r|..|s| - 1] + [s[|s| - 1]];
      r
    else s
  }

  /** `.trim()`. */
  function Trim(s: string): (r: string)
    ensures r != [] ==> !IsSpace(r[0]) && !IsSpace(r[|r| - 1])
  {
    TrimEnd(TrimStart(s))
  }

  /** `.replace(/\s+/g, '-')`: every maximal run of whitespace becomes a single
      `-`. */
  function Dashes(s: string): (r: string)
    ensures |r| <= |s|
    ensures forall i :: 0 <= i < |r| ==> !IsSpace(r[i])
    decreases |s|
  {
    if s == [] then []
    else if IsSpace(s[0]) then "-" + Dashes(TrimStart(s))
    else [s[0]] + Dashes(s[1..])
  }

  /** `.replace(/[^a-z0-9-]/g, '')`. */
  function KeepSlugChars(s: string): string {
    Sorting.Filter(s, IsSlugChar)
  }

  /** `slugify(str)` on a decomposed string: strip accents, lower-case, trim,
      turn whitespace runs into `-`, drop every other character. */
  function Slugify(s: string): (slug: string)
    ensures |slug| <= |s|
    ensures forall i :: 0 <= i < |slug| ==> IsSlugChar(slug[i])
  {
    KeepSlugChars(Dashes(Trim(Lower(StripMarks(s)))))
  }

  // ---------------------------------------------------------------------
  // Laws of the stages

  lemma LowerKeepsSpace(c: char)
    ensures IsSpace(LowerChar(c)) <==> IsSpace(c)
  {
  }

  /** Accent stripping and lower-casing act character by character. */
  lemma PrepAppend(a: string, b: string)
    ensures Lower(StripMarks(a + b)) == Lower(StripMarks(a)) + Lower(StripMarks(b))
  {
    Sorting.FilterAppend(a, b, c => !IsMark(c));
    LowerAppend(StripMarks(a), StripMarks(b));
  }

  /** Whitespace passes accent stripping and lower-casing unchanged. */
  lemma PrepSpaces(w: string)
    requires AllSpace(w)
    ensures Lower(StripMarks(w)) == w
  {
    Sorting.FilterAll(w, c => !IsMark(c));
  }

  lemma PrepVisible(s: string)
    requires Visible(s)
    ensures HasText(Lower(StripMarks(s)))
  {
    var i :| 0 <= i < |s| && !IsSpace(s[i]) && !IsMark(s[i]);
    var t := StripMarks(s);
    assert s[i] in t;
    var j :| 0 <= j < |t| && t[j] == s[i];
    LowerKeepsSpace(s[i]);
    assert Lower(t)[j] == LowerChar(s[i]);
  }

  /** Leading whitespace makes no difference to `TrimStart`. */
  lemma {:induction false} TrimStartSpaces(p: string, s: string)
    requires AllSpace(p)
    ensures TrimStart(p + s) == TrimStart(s)
    decreases |p|
  {
    if p == [] {
      assert p + s == s;
    } else {
      assert (p + s)[1..] == p[1..] + s;
      TrimStartSpaces(p[1..], s);
    }
  }

  /** Once text has been met, `TrimStart` keeps everything after it. */
  lemma {:induction false} TrimStartText(s: string, t: string)
    requires HasText(s)
    ensures TrimStart(s + t) == TrimStart(s) + t
    decreases |s|
  {
    var st := s + t;
    assert st[0] == s[0];
    if IsSpace(s[0]) {
      var r := s[1..];
      assert HasText(r) by {
        var i :| 0 <= i < |s| && !IsSpace(s[i]);
        assert i > 0 && r[i - 1] == s[i];
      }
      assert st[1..] == r + t;
      TrimStartText(r, t);
    }
  }

  /** Trailing whitespace makes no difference to `TrimEnd`. */
  lemma {:induction false} TrimEndSpaces(s: string, p: string)
    requires AllSpace(p)
    ensures TrimEnd(s + p) == TrimEnd(s)
    decreases |p|
  {
    if p == [] {
      assert s + p == s;
    } else {
      assert (s + p)[..|s + p| - 1] == s + p[..|p| - 1];
      TrimEndSpaces(s, p[..|p| - 1]);
    }
  }

  /** Before the last text, `TrimEnd` keeps everything. */
  lemma {:induction false} TrimEndText(t: string, s: string)
    requires HasText(s)
    ensures TrimEnd(t + s) == t + TrimEnd(s)
    decreases |s|
  {
    if IsSpace(s[|s| - 1]) {
      var i :| 0 <= i < |s| && !IsSpace(s[i]);
      assert !IsSpace(s[..|s| - 1][i]);
      assert (t + s)[..|t + s| - 1] == t + s[..|s| - 1];
      TrimEndText(t, s[..|s| - 1]);
    }
  }

  lemma TrimEndCons(c: char, r: string)
    requires !IsSpace(c)
    ensures TrimEnd([c] + r) == [c] + TrimEnd(r)
  {
    if HasText(r) {
      TrimEndText([c], r);
    } else {
      assert AllSpace(r);
      TrimEndSpaces([c], r);
      AllSpaceTrimmed(r);
    }
  }

  /** Trimming the end of a string that starts with text leaves it starting
      with that text. */
  lemma TrimEndStartsWithText(s: string)
    requires s != [] && !IsSpace(s[0])
    ensures TrimEnd(s) != [] && TrimStart(TrimEnd(s)) == TrimEnd(s)
  {
    assert s[0..] == s;
  }

  lemma AllSpaceTrimmed(s: string)
    requires AllSpace(s)
    ensures TrimStart(s) == [] && TrimEnd(s) == []
  {
  }

  /** Which end is trimmed first does not matter. */
  lemma TrimCommute(s: string)
    ensures TrimStart(TrimEnd(s)) == TrimEnd(TrimStart(s))
  {
    var f := TrimStart(s);
    var p := s[..|s| - |f|];
    assert s == p + f;
    if f == [] {
      AllSpaceTrimmed(s);
    } else {
      assert HasText(f) by { assert !IsSpace(f[0]); }
      TrimEndText(p, f);
      TrimEndStartsWithText(f);
      TrimStartSpaces(p, TrimEnd(f));
    }
  }

  /** A string without whitespace is left as it is by `Dashes`. */
  lemma {:induction false} DashesNoSpace(s: string)
    requires forall i :: 0 <= i < |s| ==> !IsSpace(s[i])
    ensures Dashes(s) == s
    decreases |s|
  {
    if s != [] {
      DashesNoSpace(s[1..]);
      assert s == [s[0]] + s[1..];
    }
  }

  lemma DashesCons(c: char, r: string)
    requires !IsSpace(c)
    ensures Dashes([c] + r) == [c] + Dashes(r)
  {
    assert ([c] + r)[1..] == r;
  }

  /** A whitespace run followed by text or by nothing becomes one `-`. */
  lemma DashesRun(p: string, t: string)
    requires p != [] && AllSpace(p)
    requires t == [] || !IsSpace(t[0])
    ensures Dashes(p + t) == "-" + Dashes(t)
  {
    assert (p + t)[0] == p[0];
    TrimStartSpaces(p, t);
  }

  /** A whitespace run between two parts becomes one `-`; the whitespace at
      the inner ends of the parts belongs to the same run. */
  lemma {:induction false} DashesJunction(x: string, w: string, y: string)
    requires w != [] && AllSpace(w)
    ensures Dashes(x + w + y) == Dashes(TrimEnd(x)) + "-" + Dashes(TrimStart(y))
    decreases |x|, 2
  {
    if x == [] {
      JunctionAllSpace(x, w, y);
    } else if !IsSpace(x[0]) {
      JunctionAfterText(x, w, y);
    } else {
      JunctionAfterSpace(x, w, y);
    }
  }

  lemma {:induction false} JunctionAfterText(x: string, w: string, y: string)
    requires w != [] && AllSpace(w)
    requires x != [] && !IsSpace(x[0])
    ensures Dashes(x + w + y) == Dashes(TrimEnd(x)) + "-" + Dashes(TrimStart(y))
    decreases |x|, 1
  {
    var c, r := x[0], x[1..];
    assert x == [c] + r;
    Regroup([c], r, w, y);
    DashesCons(c, r + w + y);
    DashesJunction(r, w, y);
    TrimEndCons(c, r);
    DashesCons(c, TrimEnd(r));
    Regroup([c], Dashes(TrimEnd(r)), "-", Dashes(TrimStart(y)));
  }

  lemma {:induction false} JunctionAfterSpace(x: string, w: string, y: string)
    requires w != [] && AllSpace(w)
    requires x != [] && IsSpace(x[0])
    ensures Dashes(x + w + y) == Dashes(TrimEnd(x)) + "-" + Dashes(TrimStart(y))
    decreases |x|, 1
  {
    var f := TrimStart(x);
    var p := x[..|x| - |f|];
    assert x == p + f;
    if f == [] {
      assert p == x;
      JunctionAllSpace(x, w, y);
    } else {
      assert f == TrimStart(x[1..]);
      JunctionSpaceThenText(p, f, w, y);
    }
  }

  lemma {:induction false} JunctionSpaceThenText(p: string, f: string, w: string, y: string)
    requires w != [] && AllSpace(w)
    requires p != [] && AllSpace(p)
    requires f != [] && !IsSpace(f[0])
    ensures Dashes(p + f + w + y) == Dashes(TrimEnd(p + f)) + "-" + Dashes(TrimStart(y))
    decreases |p| + |f|, 0
  {
    var r := f + w + y;
    RunBeforeText(p, r);
    Regroup(p, f, w, y);
    DashesJunction(f, w, y);
    RunBeforeTrimmedText(p, f);
    Regroup("-", Dashes(TrimEnd(f)), "-", Dashes(TrimStart(y)));
  }

  lemma Regroup(a: string, b: string, c: string, d: string)
    ensures a + (b + c + d) == a + b + c + d
  {
  }

  lemma RunBeforeText(p: string, r: string)
    requires p != [] && AllSpace(p)
    requires r != [] && !IsSpace(r[0])
    ensures Dashes(p + r) == "-" + Dashes(r)
  {
    DashesRun(p, r);
  }

  lemma RunBeforeTrimmedText(p: string, f: string)
    requires p != [] && AllSpace(p)
    requires f != [] && !IsSpace(f[0])
    ensures Dashes(TrimEnd(p + f)) == "-" + Dashes(TrimEnd(f))
  {
    var e := TrimEnd(f);
    assert TrimEnd(p + f) == p + e by {
      assert HasText(f) by { assert !IsSpace(f[0]); }
      TrimEndText(p, f);
    }
    assert e != [] && !IsSpace(e[0]) by {
      TrimEndStartsWithText(f);
      assert e[0] == f[0];
    }
    DashesRun(p, e);
  }

  lemma JunctionAllSpace(x: string, w: string, y: string)
    requires w != [] && AllSpace(w) && AllSpace(x)
    ensures Dashes(x + w + y) == Dashes(TrimEnd(x)) + "-" + Dashes(TrimStart(y))
  {
    AllSpaceAppend(x, w);
    DashesAfterRun(x + w, y);
    AllSpaceTrimmed(x);
    EmptyBeforeDash(Dashes(TrimEnd(x)), Dashes(TrimStart(y)));
  }

  lemma EmptyBeforeDash(e: string, d: string)
    requires e == []
    ensures e + "-" + d == "-" + d
  {
  }

  lemma AllSpaceAppend(a: string, b: string)
    requires AllSpace(a) && AllSpace(b)
    ensures AllSpace(a + b)
  {
    forall i | 0 <= i < |a + b| ensures IsSpace((a + b)[i]) {
      if i < |a| { assert (a + b)[i] == a[i]; } else { assert (a + b)[i] == b[i - |a|]; }
    }
  }

  /** A leading whitespace run becomes `-`, and the whitespace that starts
      what follows belongs to the same run. */
  lemma DashesAfterRun(p: string, y: string)
    requires p != [] && AllSpace(p)
    ensures Dashes(p + y) == "-" + Dashes(TrimStart(y))
  {
    var s := p + y;
    assert s[0] == p[0];
    DashesSpaceStart(s);
    TrimStartSpaces(p, y);
  }

  /** A string that starts with whitespace becomes `-` and the rest after
      the run. */
  lemma DashesSpaceStart(s: string)
    requires s != [] && IsSpace(s[0])
    ensures Dashes(s) == "-" + Dashes(TrimStart(s))
  {
  }

  // ---------------------------------------------------------------------
  // Laws of `slugify`

  /** A word of ASCII letters, digits and hyphens becomes its lower-case
      form: upper-case letters map to their lower-case counterparts and
      nothing else changes. */
  lemma SlugifyWord(w: string)
    requires forall i :: 0 <= i < |w| ==> IsUpper(w[i]) || IsSlugChar(w[i])
    ensures Slugify(w) == Lower(w)
  {
    assert StripMarks(w) == w by {
      Sorting.FilterAll(w, c => !IsMark(c));
    }
    var l := Lower(w);
    LowerWord(w);
    assert Trim(l) == l by {
      TrimNoSpace(l);
    }
    assert Dashes(l) == l by {
      DashesNoSpace(l);
    }
    assert KeepSlugChars(l) == l by {
      Sorting.FilterAll(l, IsSlugChar);
    }
  }

  lemma LowerWord(w: string)
    requires forall i :: 0 <= i < |w| ==> IsUpper(w[i]) || IsSlugChar(w[i])
    ensures forall i :: 0 <= i < |Lower(w)| ==> IsSlugChar(Lower(w)[i])
  {
  }

  lemma TrimNoSpace(s: string)
    requires forall i :: 0 <= i < |s| ==> !IsSpace(s[i])
    ensures Trim(s) == s
  {
    assert TrimStart(s) == s;
    if s != [] {
      assert !IsSpace(s[|s| - 1]);
    }
    assert TrimEnd(s) == s;
  }

  /** `slugify(slugify(s)) == slugify(s)`. */
  lemma SlugifyIdempotent(s: string)
    ensures Slugify(Slugify(s)) == Slugify(s)
  {
    var slug := Slugify(s);
    SlugifyWord(slug);
    LowerSlug(slug);
  }

  lemma LowerSlug(s: string)
    requires forall i :: 0 <= i < |s| ==> IsSlugChar(s[i])
    ensures Lower(s) == s
  {
    assert forall i :: 0 <= i < |s| ==> Lower(s)[i] == s[i];
  }

  /** The trimmed, lower-cased, accent-free form of `s`: the input of the
      last two stages. */
  function Trimmed(s: string): string {
    Trim(Lower(StripMarks(s)))
  }

  lemma SlugifyOfTrimmed(s: string)
    ensures Slugify(s) == KeepSlugChars(Dashes(Trimmed(s)))
  {
  }

  /** Whitespace around the name does not change its slug. */
  lemma SlugifyTrimmed(ws1: string, s: string, ws2: string)
    requires AllSpace(ws1) && AllSpace(ws2)
    ensures Slugify(ws1 + s + ws2) == Slugify(s)
  {
    PaddedTrimmed(ws1, s, ws2);
    SlugifyOfTrimmed(ws1 + s + ws2);
    SlugifyOfTrimmed(s);
  }

  lemma PaddedTrimmed(ws1: string, s: string, ws2: string)
    requires AllSpace(ws1) && AllSpace(ws2)
    ensures Trimmed(ws1 + s + ws2) == Trimmed(s)
  {
    var u := Lower(StripMarks(s));
    PrepAppend(ws1 + s, ws2);
    PrepAppend(ws1, s);
    PrepSpaces(ws1);
    PrepSpaces(ws2);
    assert Lower(StripMarks(ws1 + s + ws2)) == (ws1 + u) + ws2;
    Assoc(ws1, u, ws2);
    TrimPadded(ws1, u, ws2);
  }

  lemma TrimPadded(ws1: string, u: string, ws2: string)
    requires AllSpace(ws1) && AllSpace(ws2)
    ensures Trim(ws1 + (u + ws2)) == Trim(u)
  {
    TrimStartSpaces(ws1, u + ws2);
    if HasText(u) {
      TrimStartText(u, ws2);
      TrimEndSpaces(TrimStart(u), ws2);
    } else {
      assert AllSpace(u + ws2);
      AllSpaceTrimmed(u + ws2);
      AllSpaceTrimmed(u);
    }
  }

  /** Whitespace between two visible parts becomes exactly one `-`, before
      the other characters are dropped. */
  lemma SlugifyInteriorRun(a: string, ws: string, b: string)
    requires ws != [] && AllSpace(ws)
    requires Visible(a) && Visible(b)
    ensures Slugify(a + ws + b) == Slugify(a) + "-" + Slugify(b)
  {
    var u := Lower(StripMarks(a));
    var v := Lower(StripMarks(b));
    PrepJoined(a, ws, b);
    PrepVisible(a);
    PrepVisible(b);
    TrimJoined(u, ws, v);
    DashesJoined(u, ws, v);
    var d1 := Dashes(Trim(u));
    var d2 := Dashes(Trim(v));
    KeepJoined(d1, d2);
    SlugifyOfTrimmed(a + ws + b);
    SlugifyOfTrimmed(a);
    SlugifyOfTrimmed(b);
  }

  lemma PrepJoined(a: string, ws: string, b: string)
    requires AllSpace(ws)
    ensures Lower(StripMarks(a + ws + b)) == Lower(StripMarks(a)) + (ws + Lower(StripMarks(b)))
  {
    var pa, pb := Lower(StripMarks(a)), Lower(StripMarks(b));
    PrepAppend(a + ws, b);
    PrepAppend(a, ws);
    PrepSpaces(ws);
    assert Lower(StripMarks(a + ws + b)) == (pa + ws) + pb;
    Assoc(pa, ws, pb);
  }

  lemma Assoc(x: string, y: string, z: string)
    ensures x + y + z == x + (y + z)
  {
  }

  lemma TrimJoined(u: string, ws: string, v: string)
    requires AllSpace(ws) && HasText(u) && HasText(v)
    ensures Trim(u + (ws + v)) == TrimStart(u) + ws + TrimEnd(v)
  {
    TrimStartText(u, ws + v);
    assert TrimStart(u) + (ws + v) == (TrimStart(u) + ws) + v;
    TrimEndText(TrimStart(u) + ws, v);
  }

  lemma DashesJoined(u: string, ws: string, v: string)
    requires ws != [] && AllSpace(ws)
    ensures Dashes(TrimStart(u) + ws + TrimEnd(v)) == Dashes(Trim(u)) + "-" + Dashes(Trim(v))
  {
    DashesJunction(TrimStart(u), ws, TrimEnd(v));
    TrimCommute(v);
  }

  lemma KeepJoined(d1: string, d2: string)
    ensures KeepSlugChars(d1 + "-" + d2) == KeepSlugChars(d1) + "-" + KeepSlugChars(d2)
  {
    Sorting.FilterAppend(d1 + "-", d2, IsSlugChar);
    Sorting.FilterAppend(d1, "-", IsSlugChar);
    assert KeepSlugChars("-") == "-";
  }

  /** Two words joined by one space: the slug is the two lower-cased words
      joined by `-`. */
  lemma SlugifyTwoWords(a: string, b: string)
    requires a != [] && b != []
    requires forall i :: 0 <= i < |a| ==> IsUpper(a[i]) || IsLower(a[i])
    requires forall i :: 0 <= i < |b| ==> IsUpper(b[i]) || IsLower(b[i])
    ensures Slugify(a + " " + b) == Lower(a) + "-" + Lower(b)
  {
    SlugifySpaced(a, b);
    SlugifyWord(a);
    SlugifyWord(b);
  }

  lemma SlugifySpaced(a: string, b: string)
    requires a != [] && !IsSpace(a[0]) && !IsMark(a[0])
    requires b != [] && !IsSpace(b[0]) && !IsMark(b[0])
    ensures Slugify(a + " " + b) == Slugify(a) + "-" + Slugify(b)
  {
    assert Visible(a) && Visible(b);
    assert AllSpace(" ");
    SlugifyInteriorRun(a, " ", b);
  }

  lemma MarkLower(c: char)
    ensures IsMark(LowerChar(c)) <==> IsMark(c)
  {
  }

  lemma {:induction false} StripMarksLower(s: string)
    ensures StripMarks(Lower(s)) == Lower(StripMarks(s))
    decreases |s|
  {
    if s != [] {
      assert s == [s[0]] + s[1..];
      LowerAppend([s[0]], s[1..]);
      var l := Lower(s);
      assert l[0] == LowerChar(s[0]) && l[1..] == Lower(s[1..]);
      MarkLower(s[0]);
      StripMarksLower(s[1..]);
      if !IsMark(s[0]) {
        LowerAppend([s[0]], StripMarks(s[1..]));
      }
    }
  }

  lemma LowerTwice(s: string)
    ensures Lower(Lower(s)) == Lower(s)
  {
    assert forall i :: 0 <= i < |s| ==> Lower(Lower(s))[i] == Lower(s)[i];
  }

  /** Letter case makes no difference to the slug. */
  lemma SlugifyLower(s: string)
    ensures Slugify(Lower(s)) == Slugify(s)
  {
    StripMarksLower(s);
    LowerTwice(StripMarks(s));
    assert Trimmed(Lower(s)) == Trimmed(s);
    SlugifyOfTrimmed(Lower(s));
    SlugifyOfTrimmed(s);
  }

  // ---------------------------------------------------------------------
  // The table

  /** `slug TEXT NOT NULL UNIQUE`: inserting a slug already stored fails. */
  const SLUG_TAKEN := Failure("23505", "duplicate key value violates unique constraint \"categories_slug_key\"")

  predicate SlugTaken(categories: seq<Category>, slug: string) {
    exists i :: 0 <= i < |categories| && categories[i].slug == slug
  }

  /** No two stored categories share a slug. */
  predicate UniqueSlugs(categories: seq<Category>) {
    forall i, j :: 0 <= i < j < |categories| ==> categories[i].slug != categories[j].slug
  }

  /** `INSERT INTO categories (name, slug) VALUES ($1, $2) RETURNING *` under
      the id the sequence hands out: the result and the table afterwards. */
  function InsertRow(categories: seq<Category>, id: int, name: string, slug: string, now: int): (Result<Category>, seq<Category>) {
    if SlugTaken(categories, slug) then (Err(SLUG_TAKEN), categories)
    else
      var c := Category(id, name, slug, now, now);
      (Ok(c), categories + [c])
  }

  /** `createCategory({ name })` on the table: the name stored with its slug. */
  function CategoryInsert(categories: seq<Category>, id: int, name: string, now: int): (Result<Category>, seq<Category>) {
    InsertRow(categories, id, name, Slugify(name), now)
  }

  /** The `INSERT` statement. The sequence value is drawn before the
      constraint is checked, so a refused insert still uses up an id. */
  method ExecuteInsert(db: Database, name: string, slug: string, now: int) returns (r: Result<Category>)
    requires db.Valid()
    modifies db
    ensures db.Valid()
    ensures (r, db.categories) == InsertRow(old(db.categories), old(db.nextCategoryId), name, slug, now)
    ensures db.nextCategoryId == old(db.nextCategoryId) + 1
    ensures db.events == old(db.events) && db.nextEventId == old(db.nextEventId)
    ensures db.tickets == old(db.tickets) && db.nextTicketId == old(db.nextTicketId)
    ensures db.users == old(db.users) && db.nextUserId == old(db.nextUserId)
  {
    var id := db.nextCategoryId;
    db.nextCategoryId := id + 1;
    if SlugTaken(db.categories, slug) {
      return Err(SLUG_TAKEN);
    }
    var c := Category(id, name, slug, now, now);
    db.categories := db.categories + [c];
    r := Ok(c);
  }

  /** `createCategory({ name })`: the slug is computed, then the row is
      inserted. */
  method CreateCategory(db: Database, name: string, now: int) returns (r: Result<Category>)
    requires db.Valid()
    modifies db
    ensures db.Valid()
    ensures (r, db.categories) == CategoryInsert(old(db.categories), old(db.nextCategoryId), name, now)
    ensures db.nextCategoryId == old(db.nextCategoryId) + 1
    ensures db.events == old(db.events) && db.nextEventId == old(db.nextEventId)
    ensures db.tickets == old(db.tickets) && db.nextTicketId == old(db.nextTicketId)
    ensures db.users == old(db.users) && db.nextUserId == old(db.nextUserId)
  {
    var slug := Slugify(name);
    r := ExecuteInsert(db, name, slug, now);
  }

  /** An insert either appends one row holding the name and the slug, or
      fails because the slug is stored already and changes nothing; either
      way no two rows share a slug afterwards. */
  lemma InsertRowOutcome(categories: seq<Category>, id: int, name: string, slug: string, now: int)
    ensures var (r, after) := InsertRow(categories, id, name, slug, now);
            && (r.Ok? ==> && r.value.id == id && r.value.name == name && r.value.slug == slug
                          && r.value.createdAt == now && r.value.updatedAt == now
                          && after == categories + [r.value])
            && (r.Err? ==> r.failure == SLUG_TAKEN && after == categories
                           && exists i :: 0 <= i < |categories| && categories[i].slug == slug)
            && (UniqueSlugs(categories) ==> UniqueSlugs(after))
  {
  }

  /** An insert either appends one row holding the name and its slug, or
      fails because the slug is stored already and changes nothing; either
      way no two rows share a slug afterwards. */
  lemma CategoryInsertOutcome(categories: seq<Category>, id: int, name: string, now: int)
    ensures var (r, after) := CategoryInsert(categories, id, name, now);
            && (r.Ok? ==> && r.value.id == id && r.value.name == name && r.value.slug == Slugify(name)
                          && r.value.createdAt == now && r.value.updatedAt == now
                          && after == categories + [r.value])
            && (r.Err? ==> r.failure == SLUG_TAKEN && after == categories
                           && exists i :: 0 <= i < |categories| && categories[i].slug == Slugify(name))
            && (UniqueSlugs(categories) ==> UniqueSlugs(after))
  {
    InsertRowOutcome(categories, id, name, Slugify(name), now);
  }

  /** Once a name is stored, the same name in other letter case or with
      whitespace around it is refused: the slugs collide. */
  lemma SlugCollision(categories: seq<Category>, id1: int, id2: int, name: string,
                      ws1: string, ws2: string, now: int)
    requires AllSpace(ws1) && AllSpace(ws2)
    ensures var (_, after) := CategoryInsert(categories, id1, name, now);
            CategoryInsert(after, id2, ws1 + Lower(name) + ws2, now) == (Err(SLUG_TAKEN), after)
  {
    SlugifyTrimmed(ws1, Lower(name), ws2);
    SlugifyLower(name);
    var (r, after) := CategoryInsert(categories, id1, name, now);
    if r.Ok? {
      assert after[|categories|].slug == Slugify(name);
    }
  }

  /** The order of `ORDER BY name`. */
  predicate ByName(a: Category, b: Category) {
    StrLe(a.name, b.name)
  }

  lemma ByNameTotalPreorder()
    ensures Sorting.TotalPreorder(ByName)
  {
    forall a, b ensures ByName(a, b) || ByName(b, a) {
      StrLeTotal(a.name, b.name);
    }
    forall a, b, c | ByName(a, b) && ByName(b, c) ensures ByName(a, c) {
      StrLeTrans(a.name, b.name, c.name);
    }
  }

  /** `listCategories()`: every stored category, each once, by name. */
  function ListCategories(categories: seq<Category>): (r: seq<Category>)
    ensures multiset(r) == multiset(categories)
    ensures forall i, j :: 0 <= i < j < |r| ==> StrLe(r[i].name, r[j].name)
  {
    ByNameTotalPreorder();
    Sorting.SortSorted(categories, ByName);
    Sorting.Sort(categories, ByName)
  }
}
