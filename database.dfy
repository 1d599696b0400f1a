/** The relational store both back ends share, as one object whose fields
    are the tables. Each primitive method is one statement the source runs
    (an INSERT, an UPDATE, a DELETE, or the read-then-write pairs of the
    models in Backend/models/mysql-models.js), and its contract gives the
    new tables as a function of the old ones. */
module Store {
  import opened Rows
  import LinkTable
  import Catalog
  import Favorites
  import PlayStatsTable
  import HistoryTable

  /** Every id of an id-keyed table lies below the id counter. */
  predicate Fresh(t: Tables) {
    && Catalog.KeysBelow(t.users, t.nextId)
    && Catalog.KeysBelow(t.files, t.nextId)
    && Catalog.KeysBelow(t.buttons, t.nextId)
    && Catalog.KeysBelow(t.categories, t.nextId)
    && Catalog.KeysBelow(t.history, t.nextId)
  }

  /** The empty store; auto-increment ids start at 1. */
  function Empty(): (t: Tables)
    ensures Fresh(t)
  {
    Tables(map[], map[], map[], [], map[], map[], {}, map[], {}, 1)
  }

  // The tables after one INSERT into an id-keyed table: the row takes the
  // counter's id and the counter moves on.

  function WithUser(t: Tables, u: User): (r: Tables)
    ensures Fresh(t) ==> Fresh(r)
  {
    t.(users := t.users[t.nextId := u], nextId := t.nextId + 1)
  }

  function WithFile(t: Tables, f: FileRow): (r: Tables)
    ensures Fresh(t) ==> Fresh(r)
  {
    t.(files := t.files[t.nextId := f], nextId := t.nextId + 1)
  }

  function WithButton(t: Tables, b: Button): (r: Tables)
    ensures Fresh(t) ==> Fresh(r)
  {
    t.(buttons := t.buttons[t.nextId := b], nextId := t.nextId + 1)
  }

  function WithCategory(t: Tables, c: Category): (r: Tables)
    ensures Fresh(t) ==> Fresh(r)
  {
    t.(categories := t.categories[t.nextId := c], nextId := t.nextId + 1)
  }

  function WithHistory(t: Tables, h: HistoryRow): (r: Tables)
    ensures Fresh(t) ==> Fresh(r)
  {
    t.(history := t.history[t.nextId := h], nextId := t.nextId + 1)
  }

  // The tables after a change to the asset store or the linked table.

  function Saved(t: Tables, p: StoredPath): (r: Tables)
    ensures Fresh(t) ==> Fresh(r)
  {
    t.(disk := t.disk + {p})
  }

  function Unsaved(t: Tables, p: StoredPath): (r: Tables)
    ensures Fresh(t) ==> Fresh(r)
  {
    t.(disk := t.disk - {p})
  }

  function WithLink(t: Tables, l: Link): (r: Tables)
    ensures Fresh(t) ==> Fresh(r)
  {
    t.(links := t.links + [l])
  }

  /** The category of that exact name, created without a color when there
      is none (`Category.query.filter_by(name=...).first()` then
      `Category(name=...)`); the result is the new tables and its id. */
  function FindOrCreateCategory(t: Tables, name: string): (r: (Tables, nat))
    requires Fresh(t)
    ensures Fresh(r.0)
    ensures r.0 == t.(categories := r.0.categories, nextId := r.0.nextId) && r.0.nextId >= t.nextId
    ensures r.1 in r.0.categories && r.0.categories[r.1].name == name
    ensures (exists id :: id in t.categories && t.categories[id].name == name) ==> r.0 == t
    ensures (forall id :: id in t.categories ==> t.categories[id].name != name) ==>
              r.1 == t.nextId && r.0 == WithCategory(t, Category(name, None))
    ensures Catalog.UniqueNames(t.categories) ==> Catalog.UniqueNames(r.0.categories)
    ensures Catalog.UniqueNames(r.0.categories) ==>
              forall id :: id in r.0.categories && r.0.categories[id].name == name ==> id == r.1
  {
    match Catalog.FindCategory(t.categories, name, t.nextId)
    case Some(id) => (t, id)
    case None => (WithCategory(t, Category(name, None)), t.nextId)
  }

  /** An image File row, then a sound File row. */
  function RecordFiles(t: Tables, imageName: string, soundName: string): (r: Tables)
    ensures Fresh(t) ==> Fresh(r)
    ensures r.files == t.files[t.nextId := FileRow(imageName, Image)][t.nextId + 1 := FileRow(soundName, Sound)]
    ensures r.nextId == t.nextId + 2
    ensures r == t.(files := r.files, nextId := r.nextId)
  {
    WithFile(WithFile(t, FileRow(imageName, Image)), FileRow(soundName, Sound))
  }

  /** The category named in the form, found or created; none without a
      name. */
  function AssignCategory(t: Tables, categoryName: Option<string>): (r: (Tables, Option<nat>))
    requires Fresh(t)
    ensures Fresh(r.0)
    ensures r.0.links == t.links && r.0.buttons == t.buttons && r.0.files == t.files && r.0.nextId >= t.nextId
    ensures !Truthy(categoryName) ==> r == (t, None)
    ensures Truthy(categoryName) ==>
      r.1.Some? && r.1.value in r.0.categories && r.0.categories[r.1.value].name == categoryName.value
    ensures Truthy(categoryName) && (exists id :: id in t.categories && t.categories[id].name == categoryName.value) ==>
      r.0 == t
  {
    if Truthy(categoryName) then
      var c := FindOrCreateCategory(t, categoryName.value);
      (c.0, Some(c.1))
    else (t, None)
  }

  class Database {
    var users: map<nat, User>
    var files: map<nat, FileRow>
    var buttons: map<nat, Button>
    var links: seq<Link>
    var categories: map<nat, Category>
    var history: map<nat, HistoryRow>
    var favorites: set<(nat, nat)>
    var stats: map<nat, PlayStats>
    var disk: set<StoredPath>
    var nextId: nat

    function View(): Tables
      reads this
    {
      Tables(users, files, buttons, links, categories, history, favorites, stats, disk, nextId)
    }

    predicate Valid()
      reads this
    {
      Fresh(View())
    }

    constructor ()
      ensures Valid() && View() == Empty()
    {
      users, files, buttons, links := map[], map[], map[], [];
      categories, history, favorites, stats := map[], map[], {}, map[];
      disk, nextId := {}, 1;
    }

    // -------------------------------------------------------------------
    // Inserts: the row takes the next id

    method InsertUser(u: User) returns (id: nat)
      requires Valid()
      modifies this
      ensures Valid() && id == old(nextId) && id !in old(users)
      ensures View() == WithUser(old(View()), u)
    {
      id := nextId;
      users := users[id := u];
      nextId := nextId + 1;
    }

    method InsertFile(f: FileRow) returns (id: nat)
      requires Valid()
      modifies this
      ensures Valid() && id == old(nextId) && id !in old(files)
      ensures View() == WithFile(old(View()), f)
    {
      id := nextId;
      files := files[id := f];
      nextId := nextId + 1;
    }

    method InsertButton(b: Button) returns (id: nat)
      requires Valid()
      modifies this
      ensures Valid() && id == old(nextId) && id !in old(buttons)
      ensures View() == WithButton(old(View()), b)
    {
      id := nextId;
      buttons := buttons[id := b];
      nextId := nextId + 1;
    }

    method InsertCategory(c: Category) returns (id: nat)
      requires Valid()
      modifies this
      ensures Valid() && id == old(nextId) && id !in old(categories)
      ensures View() == WithCategory(old(View()), c)
    {
      id := nextId;
      categories := categories[id := c];
      nextId := nextId + 1;
    }

    /** `DeleteHistory.create` and `save_history`. */
    method InsertHistory(h: HistoryRow) returns (id: nat)
      requires Valid()
      modifies this
      ensures Valid() && id == old(nextId) && id !in old(history)
      ensures View() == WithHistory(old(View()), h)
    {
      id := nextId;
      history := history[id := h];
      nextId := nextId + 1;
    }

    // -------------------------------------------------------------------
    // Updates and deletes of one row by id

    method SetUser(id: nat, u: User)
      requires Valid() && id in users
      modifies this
      ensures Valid() && View() == old(View()).(users := old(users)[id := u])
    {
      users := users[id := u];
    }

    method DeleteUser(id: nat)
      requires Valid()
      modifies this
      ensures Valid() && View() == old(View()).(users := old(users) - {id})
    {
      users := users - {id};
    }

    method SetFile(id: nat, f: FileRow)
      requires Valid() && id in files
      modifies this
      ensures Valid() && View() == old(View()).(files := old(files)[id := f])
    {
      files := files[id := f];
    }

    method DeleteFile(id: nat)
      requires Valid()
      modifies this
      ensures Valid() && View() == old(View()).(files := old(files) - {id})
    {
      files := files - {id};
    }

    method SetButton(id: nat, b: Button)
      requires Valid() && id in buttons
      modifies this
      ensures Valid() && View() == old(View()).(buttons := old(buttons)[id := b])
    {
      buttons := buttons[id := b];
    }

    method DeleteButton(id: nat)
      requires Valid()
      modifies this
      ensures Valid() && View() == old(View()).(buttons := old(buttons) - {id})
    {
      buttons := buttons - {id};
    }

    method SetHistory(id: nat, h: HistoryRow)
      requires Valid() && id in history
      modifies this
      ensures Valid() && View() == old(View()).(history := old(history)[id := h])
    {
      history := history[id := h];
    }

    // -------------------------------------------------------------------
    // The linked table

    /** The whole table at once: the commit of a session that changed rows. */
    method SetLinks(s: seq<Link>)
      requires Valid()
      modifies this
      ensures Valid() && View() == old(View()).(links := s)
    {
      links := s;
    }

    /** `Linked.create` and `Linked.createOrUpdate`. */
    method LinkUpsert(user: nat, uploaded: nat, tri: int)
      requires Valid()
      modifies this
      ensures Valid() && View() == old(View()).(links := LinkTable.Upsert(old(links), user, uploaded, tri))
      ensures LinkTable.UniquePairs(old(links)) ==> LinkTable.UniquePairs(links)
    {
      if LinkTable.UniquePairs(links) {
        LinkTable.UpsertUnique(links, user, uploaded, tri);
      }
      if LinkTable.Has(links, user, uploaded) {
        links := LinkTable.SetTri(links, user, uploaded, tri);
      } else {
        links := links + [Link(user, uploaded, tri)];
      }
    }

    /** An INSERT of a new row, as the Flask handlers add one. */
    method LinkInsert(l: Link)
      requires Valid()
      modifies this
      ensures Valid() && View() == WithLink(old(View()), l)
    {
      links := links + [l];
    }

    /** `Linked.updatePosition`. */
    method LinkSetTri(user: nat, uploaded: nat, tri: int)
      requires Valid()
      modifies this
      ensures Valid() && View() == old(View()).(links := LinkTable.SetTri(old(links), user, uploaded, tri))
    {
      links := LinkTable.SetTri(links, user, uploaded, tri);
    }

    /** `Linked.delete`. */
    method LinkRemove(user: nat, uploaded: nat)
      requires Valid()
      modifies this
      ensures Valid() && View() == old(View()).(links := LinkTable.Remove(old(links), user, uploaded))
    {
      links := LinkTable.Remove(links, user, uploaded);
    }

    /** `db.session.delete(linked_entry)` of one loaded row. */
    method LinkRemoveAt(i: nat)
      requires Valid() && i < |links|
      modifies this
      ensures Valid() && View() == old(View()).(links := LinkTable.RemoveAt(old(links), i))
    {
      links := LinkTable.RemoveAt(links, i);
    }

    /** `Linked.getMaxTri` and the Flask `func.max(Linked.tri) ... or 0`. */
    method GetMaxTri(user: nat) returns (m: int)
      ensures m == LinkTable.MaxTri(links, user)
    {
      m := LinkTable.MaxTri(links, user);
    }

    // -------------------------------------------------------------------
    // Favorites, play statistics, history status

    /** `Favorite.addFavorite`. */
    method AddFavorite(user: nat, uploaded: nat) returns (inserted: bool)
      requires Valid()
      modifies this
      ensures Valid()
      ensures (inserted, View().favorites) == Favorites.Add(old(favorites), user, uploaded)
      ensures View() == old(View()).(favorites := favorites)
    {
      var r := Favorites.Add(favorites, user, uploaded);
      inserted, favorites := r.0, r.1;
    }

    /** `Favorite.removeFavorite`. */
    method RemoveFavorite(user: nat, uploaded: nat) returns (removed: bool)
      requires Valid()
      modifies this
      ensures Valid()
      ensures (removed, View().favorites) == Favorites.Remove(old(favorites), user, uploaded)
      ensures View() == old(View()).(favorites := favorites)
    {
      var r := Favorites.Remove(favorites, user, uploaded);
      removed, favorites := r.0, r.1;
    }

    /** `Favorite.isFavorite`. */
    method IsFavorite(user: nat, uploaded: nat) returns (b: bool)
      ensures b <==> (user, uploaded) in favorites
    {
      b := Favorites.IsFavorite(favorites, user, uploaded);
    }

    /** `ButtonStats.incrementPlayCount`, at time `now`. */
    method IncrementPlayCount(uploaded: nat, now: int)
      requires Valid()
      modifies this
      ensures Valid()
      ensures View() == old(View()).(stats := PlayStatsTable.Increment(old(stats), uploaded, now))
    {
      stats := PlayStatsTable.Increment(stats, uploaded, now);
    }

    /** `DeleteHistory.restore`: `None` is the thrown "not found". */
    method RestoreHistory(id: nat) returns (before: Option<HistoryRow>)
      requires Valid()
      modifies this
      ensures Valid()
      ensures before.None? <==> id !in old(history)
      ensures before.None? ==> View() == old(View())
      ensures before.Some? ==> HistoryTable.Restore(old(history), id) == Some((before.value, history))
      ensures View() == old(View()).(history := history)
    {
      match HistoryTable.Restore(history, id)
      case None => before := None;
      case Some(r) =>
        before := Some(r.0);
        history := r.1;
    }

    // -------------------------------------------------------------------
    // The asset store

    method SaveToDisk(p: StoredPath)
      requires Valid()
      modifies this
      ensures Valid() && View() == Saved(old(View()), p)
    {
      disk := disk + {p};
    }

    /** An unlink whose "not found" is ignored, as both back ends do. */
    method RemoveFromDisk(p: StoredPath)
      requires Valid()
      modifies this
      ensures Valid() && View() == Unsaved(old(View()), p)
    {
      disk := disk - {p};
    }
  }

  method InsertFiles(db: Database, imageName: string, soundName: string) returns (imageId: nat, soundId: nat)
    requires db.Valid()
    modifies db
    ensures db.Valid()
    ensures imageId == old(db.nextId) && soundId == old(db.nextId) + 1
    ensures db.View() == RecordFiles(old(db.View()), imageName, soundName)
  {
    imageId := db.InsertFile(FileRow(imageName, Image));
    soundId := db.InsertFile(FileRow(soundName, Sound));
  }

  /** The category lookup and creation of `add_button_with_category`. */
  method SetCategory(db: Database, categoryName: Option<string>) returns (category: Option<nat>)
    requires db.Valid()
    modifies db
    ensures db.Valid()
    ensures (db.View(), category) == AssignCategory(old(db.View()), categoryName)
  {
    category := None;
    if Truthy(categoryName) {
      var id := FindOrCreate(db, categoryName.value);
      category := Some(id);
    }
  }

  /** `Category.query.filter_by(name=...).first()`, then an INSERT when
      there is none. */
  method FindOrCreate(db: Database, name: string) returns (id: nat)
    requires db.Valid()
    modifies db
    ensures db.Valid()
    ensures (db.View(), id) == FindOrCreateCategory(old(db.View()), name)
  {
    var found := Catalog.FindCategory(db.categories, name, db.nextId);
    if found.Some? {
      id := found.value;
    } else {
      id := db.InsertCategory(Category(name, None));
    }
  }

}
