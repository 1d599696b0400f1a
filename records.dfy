/** The `favorite` table as a set of (user, uploaded) pairs: the duplicate
    insert that `Favorite.addFavorite` catches (ER_DUP_ENTRY) means the table
    has a unique key on the pair. */
module Favorites {

  type Favs = set<(nat, nat)>

  /** `Favorite.isFavorite`. */
  predicate IsFavorite(f: Favs, user: nat, uploaded: nat) {
    (user, uploaded) in f
  }

  /** `Favorite.addFavorite`: true after inserting, false on a duplicate;
      either way the pair is a favorite afterwards. */
  function Add(f: Favs, user: nat, uploaded: nat): (r: (bool, Favs))
    ensures r.0 <==> !IsFavorite(f, user, uploaded)
    ensures r.1 == f + {(user, uploaded)}
  {
    if (user, uploaded) in f then (false, f) else (true, f + {(user, uploaded)})
  }

  /** `Favorite.removeFavorite`: true exactly when a row went. */
  function Remove(f: Favs, user: nat, uploaded: nat): (r: (bool, Favs))
    ensures r.0 <==> IsFavorite(f, user, uploaded)
    ensures r.1 == f - {(user, uploaded)}
  {
    ((user, uploaded) in f, f - {(user, uploaded)})
  }

  /** The favorite toggle of `PUT /api/favorite/:uploadedId/toggle`: remove
      when present, add otherwise; the answer is the new membership. */
  function Toggle(f: Favs, user: nat, uploaded: nat): (r: (bool, Favs)) {
    if IsFavorite(f, user, uploaded) then (false, Remove(f, user, uploaded).1)
    else (true, Add(f, user, uploaded).1)
  }

  /** The toggle flips the pair's membership, reports the new membership,
      and leaves every other pair as it was. */
  lemma ToggleFlips(f: Favs, user: nat, uploaded: nat)
    ensures var (isFav, g) := Toggle(f, user, uploaded);
      && isFav == IsFavorite(g, user, uploaded)
      && isFav == !IsFavorite(f, user, uploaded)
      && forall p :: p != (user, uploaded) ==> (p in g <==> p in f)
  {
  }

  /** Toggling twice restores the table. */
  lemma ToggleTwice(f: Favs, user: nat, uploaded: nat)
    ensures Toggle(Toggle(f, user, uploaded).1, user, uploaded).1 == f
  {
  }
}

/** The `button_stats` table: a play count and last-played time per button. */
module PlayStatsTable {
  import opened Rows

  /** `ButtonStats.getButtonStats`: the stored row, or play count 0 and no
      last-played time for a button never played. */
  function Get(m: map<nat, PlayStats>, uploaded: nat): (r: PlayStats)
    ensures uploaded !in m ==> r == PlayStats(0, None)
  {
    if uploaded in m then m[uploaded] else PlayStats(0, None)
  }

  /** `ButtonStats.incrementPlayCount`: insert a row with count 1, or add 1
      to the existing row; `last_played = NOW()` either way. */
  function Increment(m: map<nat, PlayStats>, uploaded: nat, now: int): (r: map<nat, PlayStats>)
    ensures Get(r, uploaded) == PlayStats(Get(m, uploaded).playCount + 1, Some(now))
    ensures uploaded !in m ==> r[uploaded].playCount == 1
    ensures forall b :: b != uploaded ==> Get(r, b) == Get(m, b)
    ensures r.Keys == m.Keys + {uploaded}
  {
    if uploaded in m then m[uploaded := PlayStats(m[uploaded].playCount + 1, Some(now))]
    else m[uploaded := PlayStats(1, Some(now))]
  }

  /** Record one play for each button in `plays`, in order. */
  function PlayAll(m: map<nat, PlayStats>, plays: seq<nat>, now: int): map<nat, PlayStats>
    decreases |plays|
  {
    if plays == [] then m else PlayAll(Increment(m, plays[0], now), plays[1..], now)
  }

  /** After a run of plays, each button's count has grown by the number of
      times it was played. */
  lemma {:induction false} CountsPlays(m: map<nat, PlayStats>, plays: seq<nat>, now: int, b: nat)
    ensures Get(PlayAll(m, plays, now), b).playCount == Get(m, b).playCount + multiset(plays)[b]
    decreases |plays|
  {
    if plays != [] {
      assert plays == [plays[0]] + plays[1..];
      CountsPlays(Increment(m, plays[0], now), plays[1..], now, b);
    }
  }
}

/** The `deleted_button` table. */
module HistoryTable {
  import opened Rows

  /** `DeleteHistory.restore`: no row is an error (the source throws);
      otherwise the row as read before the update is returned and its status
      becomes `restored`, whatever it was. */
  function Restore(h: map<nat, HistoryRow>, id: nat): (r: Option<(HistoryRow, map<nat, HistoryRow>)>)
    ensures r.None? <==> id !in h
    ensures r.Some? ==> r.value.0 == h[id]
    ensures r.Some? ==> r.value.1.Keys == h.Keys
    ensures r.Some? ==> r.value.1[id] == h[id].(status := Restored)
    ensures r.Some? ==> forall k :: k in h && k != id ==> r.value.1[k] == h[k]
  {
    if id in h then Some((h[id], h[id := h[id].(status := Restored)])) else None
  }

  /** A second restore of the same row changes nothing more: it succeeds
      again, because the prior status is never checked. */
  lemma RestoreTwice(h: map<nat, HistoryRow>, id: nat)
    requires id in h
    ensures var first := Restore(h, id).value;
      && Restore(first.1, id).Some?
      && Restore(first.1, id).value.1 == first.1
      && Restore(first.1, id).value.0.status == Restored
  {
  }
}
