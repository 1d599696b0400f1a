/** The `linked` table as a value: the rows that order each user's buttons,
    and the pure meaning of every statement the two back ends run on it
    (`Linked` in Backend/models/mysql-models.js, the `Linked` queries of
    Backend/main.py). */
module LinkTable {
  import opened Rows

  predicate Matches(l: Link, user: nat, uploaded: nat) {
    l.user == user && l.uploaded == uploaded
  }

  /** Some row links `uploaded` to `user`. */
  predicate Has(links: seq<Link>, user: nat, uploaded: nat) {
    exists i :: 0 <= i < |links| && Matches(links[i], user, uploaded)
  }

  /** The number of rows for the pair (user, uploaded). */
  function Count(links: seq<Link>, user: nat, uploaded: nat): (n: nat)
    ensures n <= |links|
    ensures n == 0 <==> !Has(links, user, uploaded)
  {
    if links == [] then 0
    else (if Matches(links[0], user, uploaded) then 1 else 0) + Count(links[1..], user, uploaded)
  }

  /** At most one row per (user, uploaded) pair. */
  predicate UniquePairs(links: seq<Link>) {
    forall i, j :: 0 <= i < j < |links| ==>
      !Matches(links[j], links[i].user, links[i].uploaded)
  }

  /** `UPDATE linked SET tri = ? WHERE user_id = ? AND uploaded_id = ?`: every
      row of the pair takes the new position, no other row changes, and
      nothing happens when the pair has no row. */
  function SetTri(links: seq<Link>, user: nat, uploaded: nat, tri: int): (r: seq<Link>)
    ensures |r| == |links|
    ensures forall i :: 0 <= i < |links| ==>
      r[i] == if Matches(links[i], user, uploaded) then links[i].(tri := tri) else links[i]
  {
    if links == [] then []
    else [if Matches(links[0], user, uploaded) then links[0].(tri := tri) else links[0]]
         + SetTri(links[1..], user, uploaded, tri)
  }

  /** `DELETE FROM linked WHERE user_id = ? AND uploaded_id = ?`: exactly the
      rows of the pair go, the others stay in their order. */
  function Remove(links: seq<Link>, user: nat, uploaded: nat): (r: seq<Link>)
    ensures !Has(r, user, uploaded)
    ensures forall l :: l in r <==> l in links && !Matches(l, user, uploaded)
    ensures |r| == |links| - Count(links, user, uploaded)
  {
    if links == [] then []
    else (if Matches(links[0], user, uploaded) then [] else [links[0]])
         + Remove(links[1..], user, uploaded)
  }

  /** `Linked.create` / `Linked.createOrUpdate`: update the pair's rows when
      there are any, insert one row otherwise. */
  function Upsert(links: seq<Link>, user: nat, uploaded: nat, tri: int): seq<Link> {
    if Has(links, user, uploaded) then SetTri(links, user, uploaded, tri)
    else links + [Link(user, uploaded, tri)]
  }

  /** The user's largest position, if the user has a row. */
  function MaxOf(links: seq<Link>, user: nat): (m: Option<int>)
    ensures m.None? <==> forall i :: 0 <= i < |links| ==> links[i].user != user
    ensures m.Some? ==> exists i :: 0 <= i < |links| && links[i].user == user && links[i].tri == m.value
    ensures m.Some? ==> forall i :: 0 <= i < |links| && links[i].user == user ==> links[i].tri <= m.value
  {
    if links == [] then None
    else
      var rest := MaxOf(links[1..], user);
      if links[0].user != user then
        assert forall i :: 1 <= i < |links| ==> links[i] == links[1..][i - 1];
        rest
      else if rest.None? || rest.value < links[0].tri then Some(links[0].tri)
      else rest
  }

  /** `Linked.getMaxTri`: `COALESCE(MAX(tri), 0)` over the user's rows; the
      Flask variant's `func.max(Linked.tri) ... or 0` is the same value. */
  function MaxTri(links: seq<Link>, user: nat): int {
    match MaxOf(links, user)
    case None => 0
    case Some(m) => m
  }

  /** The position a new button is appended at. */
  function AppendTri(links: seq<Link>, user: nat): int {
    MaxTri(links, user) + 1
  }

  /** The user's rows whose button row exists (`JOIN uploaded`), in table order. */
  function UserRows(links: seq<Link>, buttons: set<nat>, user: nat): (r: seq<Link>)
    ensures forall l :: l in r <==> l in links && l.user == user && l.uploaded in buttons
    ensures |r| <= |links|
  {
    if links == [] then []
    else (if links[0].user == user && links[0].uploaded in buttons then [links[0]] else [])
         + UserRows(links[1..], buttons, user)
  }

  predicate SortedByTri(s: seq<Link>) {
    forall i, j :: 0 <= i < j < |s| ==> s[i].tri <= s[j].tri
  }

  /** Insert `l` into a sequence sorted by position, before the rows of equal position. */
  function InsertByTri(l: Link, s: seq<Link>): (r: seq<Link>)
    requires SortedByTri(s)
    ensures SortedByTri(r)
    ensures multiset(r) == multiset(s) + multiset{l}
    ensures |r| == |s| + 1
  {
    if s == [] then [l]
    else if l.tri <= s[0].tri then
      InsertFront(l, s);
      [l] + s
    else
      var rest := InsertByTri(l, s[1..]);
      InsertBehind(l, s, rest);
      [s[0]] + rest
  }

  lemma InsertFront(l: Link, s: seq<Link>)
    requires SortedByTri(s) && s != [] && l.tri <= s[0].tri
    ensures SortedByTri([l] + s)
    ensures multiset([l] + s) == multiset(s) + multiset{l}
  {
    assert forall j :: 0 <= j < |s| ==> l.tri <= s[j].tri by {
      assert forall j :: 0 < j < |s| ==> s[0].tri <= s[j].tri;
    }
    ConsSorted(l, s);
  }

  lemma InsertBehind(l: Link, s: seq<Link>, rest: seq<Link>)
    requires SortedByTri(s) && s != [] && s[0].tri <= l.tri
    requires SortedByTri(rest) && multiset(rest) == multiset(s[1..]) + multiset{l}
    ensures SortedByTri([s[0]] + rest)
    ensures multiset([s[0]] + rest) == multiset(s) + multiset{l}
  {
    assert s == [s[0]] + s[1..];
    BoundedBelow(s[0].tri, rest, s[1..], l);
    ConsSorted(s[0], rest);
  }

  /** A row at or below every row of a sorted sequence can go in front. */
  lemma ConsSorted(x: Link, rest: seq<Link>)
    requires SortedByTri(rest)
    requires forall j :: 0 <= j < |rest| ==> x.tri <= rest[j].tri
    ensures SortedByTri([x] + rest)
  {
    var r := [x] + rest;
    forall i, j | 0 <= i < j < |r| ensures r[i].tri <= r[j].tri {
      assert r[j] == rest[j - 1];
      if i > 0 {
        assert r[i] == rest[i - 1];
      }
    }
  }

  /** Every row of a permutation of `s` plus `l` is at or above `lo` when `s`'s rows and `l` are. */
  lemma BoundedBelow(lo: int, rest: seq<Link>, s: seq<Link>, l: Link)
    requires multiset(rest) == multiset(s) + multiset{l}
    requires forall i :: 0 <= i < |s| ==> lo <= s[i].tri
    requires lo <= l.tri
    ensures forall j :: 0 <= j < |rest| ==> lo <= rest[j].tri
  {
    forall j | 0 <= j < |rest| ensures lo <= rest[j].tri {
      var x := rest[j];
      assert x in multiset(rest);
      if x != l {
        assert x in multiset(s);
        var i :| 0 <= i < |s| && s[i] == x;
      }
    }
  }

  /** `ORDER BY l.tri`. */
  function SortByTri(s: seq<Link>): (r: seq<Link>)
    ensures SortedByTri(r)
    ensures multiset(r) == multiset(s)
    ensures |r| == |s|
  {
    if s == [] then []
    else
      assert s == [s[0]] + s[1..];
      InsertByTri(s[0], SortByTri(s[1..]))
  }

  /** The rows at position `v`, in order. */
  function Ties(s: seq<Link>, v: int): seq<Link>
    decreases |s|
  {
    if s == [] then [] else (if s[0].tri == v then [s[0]] else []) + Ties(s[1..], v)
  }

  /** Inserting puts `l` in front of the rows of its own position and
      moves no other row past one of equal position. */
  lemma {:induction false} InsertKeepsTies(l: Link, s: seq<Link>, v: int)
    requires SortedByTri(s)
    ensures Ties(InsertByTri(l, s), v) == (if l.tri == v then [l] else []) + Ties(s, v)
    decreases |s|
  {
    if s == [] {
      assert [l][1..] == [];
    } else if l.tri <= s[0].tri {
      var r := [l] + s;
      assert r[0] == l && r[1..] == s;
    } else {
      SortedTail(s);
      InsertKeepsTies(l, s[1..], v);
      InsertBehindTies(l, s, v);
    }
  }

  /** The step of InsertKeepsTies where `l` goes behind `s[0]`. */
  lemma InsertBehindTies(l: Link, s: seq<Link>, v: int)
    requires SortedByTri(s) && s != [] && s[0].tri < l.tri && SortedByTri(s[1..])
    requires Ties(InsertByTri(l, s[1..]), v) == (if l.tri == v then [l] else []) + Ties(s[1..], v)
    ensures Ties(InsertByTri(l, s), v) == (if l.tri == v then [l] else []) + Ties(s, v)
  {
    var rest := InsertByTri(l, s[1..]);
    var r := [s[0]] + rest;
    assert InsertByTri(l, s) == r;
    assert r[0] == s[0] && r[1..] == rest;
    var head := if s[0].tri == v then [s[0]] else [];
    assert Ties(r, v) == head + Ties(rest, v);
    assert Ties(s, v) == head + Ties(s[1..], v);
    if l.tri == v {
      // s[0] sits below l, so it is not at position v
      assert head == [];
    } else {
      assert Ties(rest, v) == Ties(s[1..], v);
    }
  }

  lemma SortedTail(s: seq<Link>)
    requires SortedByTri(s) && s != []
    ensures SortedByTri(s[1..])
  {
    assert forall i, j :: 0 <= i < j < |s[1..]| ==> s[1..][i] == s[i + 1] && s[1..][j] == s[j + 1];
  }

  /** The sort is stable: rows of equal position keep their table order,
      one order among those `ORDER BY tri` allows. */
  lemma {:induction false} SortKeepsTies(s: seq<Link>, v: int)
    ensures Ties(SortByTri(s), v) == Ties(s, v)
    decreases |s|
  {
    if s != [] {
      SortKeepsTies(s[1..], v);
      InsertKeepsTies(s[0], SortByTri(s[1..]), v);
    }
  }

  /** `Linked.findByUser`: the user's rows joined with their button, by position. */
  function FindByUser(links: seq<Link>, buttons: set<nat>, user: nat): seq<Link> {
    SortByTri(UserRows(links, buttons, user))
  }

  /** The index of the first row of the pair, if any. */
  function FirstOfPair(links: seq<Link>, user: nat, uploaded: nat): (r: Option<nat>)
    ensures r.Some? <==> Has(links, user, uploaded)
    ensures r.Some? ==> r.value < |links| && Matches(links[r.value], user, uploaded)
    ensures r.Some? ==> forall j :: 0 <= j < r.value ==> !Matches(links[j], user, uploaded)
  {
    if links == [] then None
    else if Matches(links[0], user, uploaded) then Some(0)
    else match FirstOfPair(links[1..], user, uploaded)
      case None =>
        assert forall i :: 1 <= i < |links| ==> links[i] == links[1..][i - 1];
        None
      case Some(k) => Some(k + 1)
  }

  /** The index of the first row for `uploaded`, whoever owns it. */
  function FirstOfButton(links: seq<Link>, uploaded: nat): (r: Option<nat>)
    ensures r.None? <==> forall i :: 0 <= i < |links| ==> links[i].uploaded != uploaded
    ensures r.Some? ==> r.value < |links| && links[r.value].uploaded == uploaded
    ensures r.Some? ==> forall j :: 0 <= j < r.value ==> links[j].uploaded != uploaded
  {
    if links == [] then None
    else if links[0].uploaded == uploaded then Some(0)
    else match FirstOfButton(links[1..], uploaded)
      case None =>
        assert forall i :: 1 <= i < |links| ==> links[i] == links[1..][i - 1];
        None
      case Some(k) => Some(k + 1)
  }

  /** The table without its row `i`. */
  function RemoveAt(links: seq<Link>, i: nat): (r: seq<Link>)
    requires i < |links|
    ensures |r| == |links| - 1
    ensures forall j :: 0 <= j < i ==> r[j] == links[j]
    ensures forall j :: i <= j < |r| ==> r[j] == links[j + 1]
  {
    links[..i] + links[i + 1..]
  }

  /** `.first()` of the pair, then `session.delete` of that row: one row
      fewer for the pair when it had one, every other row kept. */
  function RemoveFirst(links: seq<Link>, user: nat, uploaded: nat): (r: seq<Link>)
    ensures |r| == |links| - (if Has(links, user, uploaded) then 1 else 0)
    ensures Count(r, user, uploaded) == Count(links, user, uploaded) - (if Has(links, user, uploaded) then 1 else 0)
    ensures forall l :: l in links && !Matches(l, user, uploaded) ==> l in r
    ensures forall l :: l in r ==> l in links
  {
    match FirstOfPair(links, user, uploaded)
    case None => links
    case Some(k) =>
      RemoveAtCount(links, k, user, uploaded);
      RemoveAtKeeps(links, k);
      var r := RemoveAt(links, k);
      assert forall j :: 0 <= j < |r| ==> r[j] == links[if j < k then j else j + 1];
      r
  }

  /** Two tables holding the same (user, button) pairs row by row. */
  predicate SamePairs(a: seq<Link>, b: seq<Link>) {
    |a| == |b| && forall i :: 0 <= i < |a| ==> a[i].user == b[i].user && a[i].uploaded == b[i].uploaded
  }

  lemma SamePairsHas(a: seq<Link>, b: seq<Link>, user: nat, uploaded: nat)
    requires SamePairs(a, b)
    ensures Has(a, user, uploaded) <==> Has(b, user, uploaded)
  {
    if Has(a, user, uploaded) {
      var i :| 0 <= i < |a| && Matches(a[i], user, uploaded);
      assert Matches(b[i], user, uploaded);
    }
    if Has(b, user, uploaded) {
      var i :| 0 <= i < |b| && Matches(b[i], user, uploaded);
      assert Matches(a[i], user, uploaded);
    }
  }

  /** Moving positions does not move the first row of a pair. */
  lemma SamePairsFirst(a: seq<Link>, b: seq<Link>, user: nat, uploaded: nat)
    requires SamePairs(a, b)
    ensures FirstOfPair(a, user, uploaded) == FirstOfPair(b, user, uploaded)
  {
    SamePairsHas(a, b, user, uploaded);
    var fa := FirstOfPair(a, user, uploaded);
    var fb := FirstOfPair(b, user, uploaded);
    if fa.Some? {
      assert Matches(b[fa.value], user, uploaded);
      assert Matches(a[fb.value], user, uploaded);
    }
  }

  // ---------------------------------------------------------------------
  // Properties of the primitives

  /** Deleting one loaded row lowers its pair's count by one and keeps every
      other row. */
  lemma {:induction false} RemoveAtCount(links: seq<Link>, i: nat, user: nat, uploaded: nat)
    requires i < |links|
    ensures Count(RemoveAt(links, i), user, uploaded)
         == Count(links, user, uploaded) - (if Matches(links[i], user, uploaded) then 1 else 0)
    decreases i
  {
    var r := RemoveAt(links, i);
    if i == 0 {
      assert r == links[1..];
    } else {
      var tail := links[1..];
      RemoveAtCount(tail, i - 1, user, uploaded);
      assert r[0] == links[0];
      assert r[1..] == RemoveAt(tail, i - 1);
    }
  }

  lemma RemoveAtKeeps(links: seq<Link>, i: nat)
    requires i < |links|
    ensures forall l :: l in links && l != links[i] ==> l in RemoveAt(links, i)
  {
    var r := RemoveAt(links, i);
    forall l | l in links && l != links[i]
      ensures l in r
    {
      var j :| 0 <= j < |links| && links[j] == l;
      if j < i {
        assert r[j] == l;
      } else {
        assert r[j - 1] == l;
      }
    }
  }

  /** The upsert leaves exactly one row for its pair, holding the given
      position, keeps the table free of duplicate pairs, and changes no row
      of any other pair. */
  lemma {:induction false} UpsertUnique(links: seq<Link>, user: nat, uploaded: nat, tri: int)
    requires UniquePairs(links)
    ensures var r := Upsert(links, user, uploaded, tri);
      && UniquePairs(r)
      && Count(r, user, uploaded) == 1
      && (forall i :: 0 <= i < |r| && Matches(r[i], user, uploaded) ==> r[i].tri == tri)
      && (forall l :: l in r && !Matches(l, user, uploaded) <==> l in links && !Matches(l, user, uploaded))
  {
    if Has(links, user, uploaded) {
      var k :| 0 <= k < |links| && Matches(links[k], user, uploaded);
      UpdateUnique(links, k, user, uploaded, tri);
    } else {
      AppendUnique(links, user, uploaded, tri);
    }
  }

  lemma UpdateUnique(links: seq<Link>, k: nat, user: nat, uploaded: nat, tri: int)
    requires UniquePairs(links) && k < |links| && Matches(links[k], user, uploaded)
    ensures var r := SetTri(links, user, uploaded, tri);
      && UniquePairs(r)
      && Count(r, user, uploaded) == 1
      && (forall i :: 0 <= i < |r| && Matches(r[i], user, uploaded) ==> r[i].tri == tri)
      && (forall l :: l in r && !Matches(l, user, uploaded) <==> l in links && !Matches(l, user, uploaded))
  {
    var r := SetTri(links, user, uploaded, tri);
    assert SamePairs(r, links);
    UniqueSamePairs(r, links);
    OnlyRowOfPair(links, k, user, uploaded);
    OnlyRowOfPair(r, k, user, uploaded);
    CountOne(r, k, user, uploaded);
    SetTriKeepsOthers(links, user, uploaded, tri);
  }

  lemma UniqueSamePairs(a: seq<Link>, b: seq<Link>)
    requires SamePairs(a, b) && UniquePairs(b)
    ensures UniquePairs(a)
  {
    forall i, j | 0 <= i < j < |a| ensures !Matches(a[j], a[i].user, a[i].uploaded) {
      assert !Matches(b[j], b[i].user, b[i].uploaded);
    }
  }

  /** In a table free of duplicate pairs, row `k` is its pair's only row. */
  lemma OnlyRowOfPair(links: seq<Link>, k: nat, user: nat, uploaded: nat)
    requires UniquePairs(links) && k < |links| && Matches(links[k], user, uploaded)
    ensures forall i :: 0 <= i < |links| && i != k ==> !Matches(links[i], user, uploaded)
  {
    forall i | 0 <= i < |links| && i != k ensures !Matches(links[i], user, uploaded) {
      if i < k {
        assert !Matches(links[k], links[i].user, links[i].uploaded);
      } else {
        assert !Matches(links[i], links[k].user, links[k].uploaded);
      }
    }
  }

  lemma SetTriKeepsOthers(links: seq<Link>, user: nat, uploaded: nat, tri: int)
    ensures var r := SetTri(links, user, uploaded, tri);
      forall l :: l in r && !Matches(l, user, uploaded) <==> l in links && !Matches(l, user, uploaded)
  {
    var r := SetTri(links, user, uploaded, tri);
    forall l | l in links && !Matches(l, user, uploaded) ensures l in r {
      var i :| 0 <= i < |links| && links[i] == l;
      assert r[i] == l;
    }
    forall l | l in r && !Matches(l, user, uploaded) ensures l in links {
      var i :| 0 <= i < |r| && r[i] == l;
      assert links[i] == l;
    }
  }

  lemma AppendUnique(links: seq<Link>, user: nat, uploaded: nat, tri: int)
    requires UniquePairs(links) && !Has(links, user, uploaded)
    ensures var r := links + [Link(user, uploaded, tri)];
      && UniquePairs(r)
      && Count(r, user, uploaded) == 1
      && (forall i :: 0 <= i < |r| && Matches(r[i], user, uploaded) ==> r[i].tri == tri)
      && (forall l :: l in r && !Matches(l, user, uploaded) <==> l in links && !Matches(l, user, uploaded))
  {
    var r := links + [Link(user, uploaded, tri)];
    CountOne(r, |links|, user, uploaded);
  }

  /** A table whose only row of the pair is row `k` counts it once. */
  lemma {:induction false} CountOne(s: seq<Link>, k: nat, user: nat, uploaded: nat)
    requires k < |s| && Matches(s[k], user, uploaded)
    requires forall i :: 0 <= i < |s| && i != k ==> !Matches(s[i], user, uploaded)
    ensures Count(s, user, uploaded) == 1
  {
    if k == 0 {
      assert !Has(s[1..], user, uploaded) by {
        assert forall i :: 0 <= i < |s[1..]| ==> s[1..][i] == s[i + 1];
      }
    } else {
      assert forall i :: 0 <= i < |s[1..]| ==> s[1..][i] == s[i + 1];
      CountOne(s[1..], k - 1, user, uploaded);
    }
  }

  /** Updating a position touches only the pair's rows and is a no-op for a
      pair without rows. */
  lemma SetTriWithoutRow(links: seq<Link>, user: nat, uploaded: nat, tri: int)
    requires !Has(links, user, uploaded)
    ensures SetTri(links, user, uploaded, tri) == links
  {
  }

  /** A button appended for a user lands strictly after every row the user
      already has, and at 1 on an empty board. */
  lemma AppendAfterAll(links: seq<Link>, user: nat)
    ensures forall i :: 0 <= i < |links| && links[i].user == user ==> links[i].tri < AppendTri(links, user)
    ensures (forall i :: 0 <= i < |links| ==> links[i].user != user) ==> AppendTri(links, user) == 1
  {
  }

  /** Appending the row keeps the new position the user's maximum. */
  lemma {:induction false} MaxAfterAppend(links: seq<Link>, user: nat, uploaded: nat)
    ensures MaxTri(links + [Link(user, uploaded, AppendTri(links, user))], user) == AppendTri(links, user)
  {
    var t := AppendTri(links, user);
    var s := links + [Link(user, uploaded, t)];
    AppendAfterAll(links, user);
    assert s[|links|].user == user && s[|links|].tri == t;
    assert forall i :: 0 <= i < |s| && s[i].user == user ==> s[i].tri <= t by {
      forall i | 0 <= i < |s| && s[i].user == user ensures s[i].tri <= t {
        if i < |links| { assert s[i] == links[i]; }
      }
    }
  }

  /** `findByUser` returns exactly the user's joined rows, each once per table row, by position. */
  lemma FindByUserExact(links: seq<Link>, buttons: set<nat>, user: nat)
    ensures var r := FindByUser(links, buttons, user);
      && SortedByTri(r)
      && multiset(r) == multiset(UserRows(links, buttons, user))
      && (forall l :: l in r <==> l in links && l.user == user && l.uploaded in buttons)
  {
    var r := FindByUser(links, buttons, user);
    var u := UserRows(links, buttons, user);
    assert forall l :: l in r <==> l in multiset(r);
    assert forall l :: l in u <==> l in multiset(u);
  }

  /** Removing the pair and linking it again at `tri` ends with one row for the pair. */
  lemma RemoveThenUpsert(links: seq<Link>, user: nat, uploaded: nat, tri: int)
    ensures Upsert(Remove(links, user, uploaded), user, uploaded, tri)
         == Remove(links, user, uploaded) + [Link(user, uploaded, tri)]
  {
  }
}
