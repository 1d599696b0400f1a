/** Search by category: the Flask `search_buttons` (Backend/main.py) and the
    Express `Linked.searchByCategory` with its `/api/search` route
    (Backend/models/mysql-models.js, Backend/server.js). Both keep the
    caller's linked rows whose button has a category whose name matches
    `'%q%'`, ignoring case, and order them by position. */
module Search {
  import opened Rows
  import LinkTable
  import FileUtils

  /** `needle` occurs somewhere in `hay`. */
  predicate Contains(hay: string, needle: string)
    decreases |hay|
  {
    (|needle| <= |hay| && hay[..|needle|] == needle) || (hay != [] && Contains(hay[1..], needle))
  }

  /** Every string contains the strings it is made of. */
  lemma {:induction false} ContainsPart(x: string, needle: string, y: string)
    ensures Contains(x + needle + y, needle)
    decreases |x|
  {
    var h := x + needle + y;
    if x == [] {
      assert h == needle + y;
      assert h[..|needle|] == needle;
    } else {
      assert h[1..] == x[1..] + needle + y;
      ContainsPart(x[1..], needle, y);
    }
  }

  /** SQL `LIKE`: `%` matches any run of characters, `_` any one
      character, and every other pattern character itself. */
  predicate LikeMatch(s: string, p: string)
    decreases |s| + |p|
  {
    if p == [] then s == []
    else if p[0] == '%' then LikeMatch(s, p[1..]) || (s != [] && LikeMatch(s[1..], p))
    else s != [] && (p[0] == '_' || s[0] == p[0]) && LikeMatch(s[1..], p[1..])
  }

  /** `LIKE '%q%'` under a case-insensitive collation, and `ilike`: the
      query is pasted into the pattern as it is, so its own `%` and `_` are
      wildcards. */
  predicate Like(name: string, q: string) {
    LikeMatch(FileUtils.Lower(name), "%" + FileUtils.Lower(q) + "%")
  }

  /** A query without `%` or `_`. */
  predicate NoWildcards(q: string) {
    forall i :: 0 <= i < |q| ==> q[i] != '%' && q[i] != '_'
  }

  /** A trailing `%` matches whatever is left. */
  lemma {:induction false} MatchAnyTail(s: string)
    ensures LikeMatch(s, "%")
    decreases |s|
  {
    if s != [] {
      MatchAnyTail(s[1..]);
    }
  }

  /** Every pattern matches its own text: a `%` there matches the `%`
      character, a `_` the `_` character. */
  lemma {:induction false} MatchSelf(q: string, rest: string, p: string)
    requires LikeMatch(rest, p)
    ensures LikeMatch(q + rest, q + p)
    decreases |q|
  {
    if q != [] {
      MatchSelf(q[1..], rest, p);
      var s, pat := q + rest, q + p;
      assert s[0] == pat[0] == q[0];
      assert s[1..] == q[1..] + rest;
      assert pat[1..] == q[1..] + p;
      if q[0] == '%' {
        // the pattern's `%` first takes the text's `%`, then nothing
        assert LikeMatch(s[1..], pat[1..]);
        assert LikeMatch(s[1..], pat);
      }
    } else {
      assert q + rest == rest && q + p == p;
    }
  }

  /** A leading `%` skips any prefix of the text. */
  lemma {:induction false} MatchSkip(x: string, s: string, p: string)
    requires LikeMatch(s, "%" + p)
    ensures LikeMatch(x + s, "%" + p)
    decreases |x|
  {
    if x != [] {
      MatchSkip(x[1..], s, p);
      var pat := "%" + p;
      assert pat[0] == '%';
      assert (x + s)[1..] == x[1..] + s;
      assert LikeMatch((x + s)[1..], pat);
    } else {
      assert x + s == s;
    }
  }

  /** `'%q%'` matches every text that holds q, whatever q holds. */
  lemma MatchInside(x: string, q: string, y: string)
    ensures LikeMatch(x + q + y, "%" + q + "%")
  {
    MatchAnyTail(y);
    MatchSelf(q, y, "%");
    assert ("%" + q + "%")[1..] == q + "%";
    assert "%" + q + "%" == "%" + (q + "%");
    MatchSkip(x, q + y, q + "%");
    assert x + (q + y) == x + q + y;
  }

  /** A text starting with a wildcard-free pattern's literal part starts
      with that part. */
  lemma {:induction false} PrefixOfMatch(s: string, q: string, p: string)
    requires NoWildcards(q) && LikeMatch(s, q + p)
    ensures |q| <= |s| && s[..|q|] == q
    decreases |q|
  {
    if q != [] {
      assert (q + p)[0] == q[0];
      assert (q + p)[1..] == q[1..] + p;
      assert NoWildcards(q[1..]) by {
        assert forall i :: 0 <= i < |q[1..]| ==> q[1..][i] == q[i + 1];
      }
      PrefixOfMatch(s[1..], q[1..], p);
    }
  }

  /** For a query without wildcards, `LIKE '%q%'` is exactly a substring
      test. */
  lemma {:induction false} LikeIsContains(s: string, q: string)
    requires NoWildcards(q)
    ensures LikeMatch(s, "%" + q + "%") <==> Contains(s, q)
    decreases |s|
  {
    var pat := "%" + q + "%";
    assert pat[1..] == q + "%";
    if LikeMatch(s, q + "%") {
      PrefixOfMatch(s, q, "%");
    }
    if s != [] {
      LikeIsContains(s[1..], q);
    }
    if |q| <= |s| && s[..|q|] == q {
      MatchInside([], q, s[|q|..]);
      assert [] + q + s[|q|..] == s;
    }
  }

  /** Lower-casing keeps `%` and `_` where they are. */
  lemma LowerNoWildcards(q: string)
    requires NoWildcards(q)
    ensures NoWildcards(FileUtils.Lower(q))
  {
  }

  /** A query without wildcards finds exactly the names that contain it,
      ignoring letter case. */
  lemma LikeLiteral(name: string, q: string)
    requires NoWildcards(q)
    ensures Like(name, q) <==> Contains(FileUtils.Lower(name), FileUtils.Lower(q))
  {
    LowerNoWildcards(q);
    LikeIsContains(FileUtils.Lower(name), FileUtils.Lower(q));
  }

  /** A query holding `_` matches a name that does not contain it. */
  lemma WildcardMatchesMore()
    ensures Like("pop", "p_p")
    ensures !Contains(FileUtils.Lower("pop"), FileUtils.Lower("p_p"))
  {
    assert FileUtils.Lower("pop") == "pop";
    assert FileUtils.Lower("p_p") == "p_p";
    MatchInside([], "pop", []);
    assert LikeMatch("pop", "%p_p%") by {
      MatchAnyTail([]);
      assert LikeMatch("p", "p%");
      assert LikeMatch("op", "_p%");
      assert LikeMatch("pop", "p_p%");
    }
    assert "%" + "p_p" + "%" == "%p_p%";
    assert !Contains("p", "p_p");
    assert !Contains("op", "p_p");
    assert "pop"[..3] != "p_p";
  }

  /** The name of a button's category, through the outer join. */
  function CategoryOf(t: Tables, b: Button): (r: Option<string>)
    ensures r.Some? <==> b.categoryId.Some? && b.categoryId.value in t.categories
  {
    if b.categoryId.Some? && b.categoryId.value in t.categories then Some(t.categories[b.categoryId.value].name)
    else None
  }

  /** A linked row the query returns: the caller's, joined with its button
      (and, in the Flask query, with its image file, an inner join there),
      whose category exists and matches: a NULL category name never passes
      `LIKE`. */
  predicate Hit(t: Tables, user: nat, q: string, needImage: bool, l: Link) {
    && l.user == user
    && l.uploaded in t.buttons
    && (needImage ==> t.buttons[l.uploaded].imageId in t.files)
    && CategoryOf(t, t.buttons[l.uploaded]).Some?
    && Like(CategoryOf(t, t.buttons[l.uploaded]).value, q)
  }

  /** The hits among `s`, in table order. */
  function Hits(t: Tables, user: nat, q: string, needImage: bool, s: seq<Link>): (r: seq<Link>)
    ensures forall l :: l in r <==> l in s && Hit(t, user, q, needImage, l)
    decreases |s|
  {
    if s == [] then []
    else (if Hit(t, user, q, needImage, s[0]) then [s[0]] else []) + Hits(t, user, q, needImage, s[1..])
  }

  /** The rows of the result, by position: exactly the hits, each as often
      as the table holds it. */
  function Matching(t: Tables, user: nat, q: string, needImage: bool): (r: seq<Link>)
    ensures LinkTable.SortedByTri(r)
    ensures multiset(r) == multiset(Hits(t, user, q, needImage, t.links))
    ensures forall l :: l in r <==> l in t.links && Hit(t, user, q, needImage, l)
  {
    var h := Hits(t, user, q, needImage, t.links);
    var r := LinkTable.SortByTri(h);
    assert forall l :: l in r <==> l in multiset(r);
    assert forall l :: l in h <==> l in multiset(h);
    r
  }

  /** One result row, as both back ends project it. */
  datatype Found = Found(imageId: nat, imageFilename: Option<string>, soundId: Option<nat>,
                         soundFilename: Option<string>, buttonName: string, tri: int,
                         category: string)

  function FileName(t: Tables, id: Option<nat>): Option<string> {
    if id.Some? && id.value in t.files then Some(t.files[id.value].filename) else None
  }

  /** The Flask projection: the sound id only when the sound file exists. */
  function FlaskRow(t: Tables, l: Link): Found
    requires l.uploaded in t.buttons && CategoryOf(t, t.buttons[l.uploaded]).Some?
  {
    var b := t.buttons[l.uploaded];
    var sound := if b.soundId.Some? && b.soundId.value in t.files then b.soundId else None;
    Found(b.imageId, FileName(t, Some(b.imageId)), sound, FileName(t, sound), b.name, l.tri,
          CategoryOf(t, b).value)
  }

  /** The Express projection: the button's own sound id, whatever the join found. */
  function ExpressRow(t: Tables, l: Link): Found
    requires l.uploaded in t.buttons && CategoryOf(t, t.buttons[l.uploaded]).Some?
  {
    var b := t.buttons[l.uploaded];
    Found(b.imageId, FileName(t, Some(b.imageId)), b.soundId, FileName(t, b.soundId), b.name, l.tri,
          CategoryOf(t, b).value)
  }

  /** Every row of `m` joins with a button that has a category. */
  predicate AllJoinable(t: Tables, m: seq<Link>) {
    forall i :: 0 <= i < |m| ==> m[i].uploaded in t.buttons && CategoryOf(t, t.buttons[m[i].uploaded]).Some?
  }

  lemma MatchingJoinable(t: Tables, user: nat, q: string, needImage: bool)
    ensures AllJoinable(t, Matching(t, user, q, needImage))
  {
    var m := Matching(t, user, q, needImage);
    assert forall i :: 0 <= i < |m| ==> m[i] in m && Hit(t, user, q, needImage, m[i]);
  }

  /** The projected rows, one per row of `m`, in the same order. */
  function Project(t: Tables, m: seq<Link>, flask: bool): (r: seq<Found>)
    requires AllJoinable(t, m)
    ensures |r| == |m|
    ensures forall i :: 0 <= i < |r| ==>
      var b := t.buttons[m[i].uploaded];
      && r[i].tri == m[i].tri
      && r[i].buttonName == b.name
      && r[i].imageId == b.imageId
      && r[i].category == CategoryOf(t, b).value
  {
    seq(|m|, i requires 0 <= i < |m| => if flask then FlaskRow(t, m[i]) else ExpressRow(t, m[i]))
  }

  /** The answer of `GET /api/search`: 400 without a category, 404 when no
      row matches, otherwise 200 and the rows. `flask` selects the variant. */
  function SearchOutcome(t: Tables, user: nat, category: Option<string>, flask: bool): (r: (int, seq<Found>))
    ensures r.0 == BAD_REQUEST <==> !Truthy(category)
    ensures r.0 == NOT_FOUND <==> Truthy(category) && Matching(t, user, category.value, flask) == []
    ensures r.0 == OK <==> Truthy(category) && Matching(t, user, category.value, flask) != []
    ensures r.0 == OK ==> |r.1| == |Matching(t, user, category.value, flask)|
    ensures r.0 == OK ==> forall i :: 0 <= i < |r.1| ==>
      r.1[i].tri == Matching(t, user, category.value, flask)[i].tri
    ensures r.0 != OK ==> r.1 == []
  {
    if !Truthy(category) then (BAD_REQUEST, [])
    else
      var m := Matching(t, user, category.value, flask);
      if m == [] then (NOT_FOUND, [])
      else
        MatchingJoinable(t, user, category.value, flask);
        (OK, Project(t, m, flask))
  }

  /** Every row of a 200 is one of the caller's links, in ascending
      position, carrying its button's name and image and a category name
      that matches the query. */
  lemma SearchRowsMatch(t: Tables, user: nat, q: string, flask: bool)
    requires SearchOutcome(t, user, Some(q), flask).0 == OK
    ensures var rows := SearchOutcome(t, user, Some(q), flask).1;
      var m := Matching(t, user, q, flask);
      && (forall i, j :: 0 <= i < j < |rows| ==> rows[i].tri <= rows[j].tri)
      && forall i :: 0 <= i < |rows| ==>
           && m[i] in t.links && m[i].user == user && m[i].uploaded in t.buttons
           && rows[i].buttonName == t.buttons[m[i].uploaded].name
           && rows[i].imageId == t.buttons[m[i].uploaded].imageId
           && Like(rows[i].category, q)
  {
    var m := Matching(t, user, q, flask);
    assert forall i :: 0 <= i < |m| ==> m[i] in m && Hit(t, user, q, flask, m[i]);
    MatchingJoinable(t, user, q, flask);
  }

  /** The results are in ascending position, and a button whose category
      name contains the query, in any letter case, is found. */
  lemma SearchFindsCategory(t: Tables, user: nat, l: Link, x: string, q: string, y: string, flask: bool)
    requires l in t.links && l.user == user && l.uploaded in t.buttons
    requires flask ==> t.buttons[l.uploaded].imageId in t.files
    requires CategoryOf(t, t.buttons[l.uploaded]) == Some(x + q + y)
    ensures l in Matching(t, user, q, flask)
    ensures SearchOutcome(t, user, Some(q), flask).0 == (if q == "" then BAD_REQUEST else OK)
  {
    var xq := x + q;
    LowerConcat(xq, y);
    LowerConcat(x, q);
    MatchInside(FileUtils.Lower(x), FileUtils.Lower(q), FileUtils.Lower(y));
    assert Like(xq + y, q);
    assert Hit(t, user, q, flask, l);
  }

  lemma LowerConcat(a: string, b: string)
    ensures FileUtils.Lower(a + b) == FileUtils.Lower(a) + FileUtils.Lower(b)
  {
    var ab := a + b;
    assert forall i :: 0 <= i < |ab| ==> ab[i] == if i < |a| then a[i] else b[i - |a|];
  }
}
