/** Lookups by natural key in the id-keyed tables, and the category
    find-or-create rule. A query that ends in `.first()` or reads `rows[0]`
    without an ORDER BY is modelled as the row with the smallest id; every
    id of a table lies below the store's id counter, so a scan up to that
    bound sees the whole table. */
module Catalog {
  import opened Rows

  predicate KeysBelow<T>(m: map<nat, T>, bound: nat) {
    forall k :: k in m ==> k < bound
  }

  /** The smallest id in [from, bound) whose row satisfies `p`. */
  function FirstKey<T>(m: map<nat, T>, p: T -> bool, from: nat, bound: nat): (r: Option<nat>)
    ensures r.Some? ==> from <= r.value < bound && r.value in m && p(m[r.value])
    ensures r.Some? ==> forall j :: from <= j < r.value && j in m ==> !p(m[j])
    ensures r.None? ==> forall j :: from <= j < bound && j in m ==> !p(m[j])
    decreases bound - from
  {
    if from >= bound then None
    else if from in m && p(m[from]) then Some(from)
    else FirstKey(m, p, from + 1, bound)
  }

  /** `Category.findByName` (Backend/models/mysql-models.js) and
      `Category.query.filter_by(name=...).first()` (Backend/main.py): exact,
      case-sensitive name match. */
  function FindCategory(cats: map<nat, Category>, name: string, bound: nat): (r: Option<nat>)
    requires KeysBelow(cats, bound)
    ensures r.Some? ==> r.value in cats && cats[r.value].name == name
    ensures r.None? <==> forall id :: id in cats ==> cats[id].name != name
  {
    FirstKey(cats, (c: Category) => c.name == name, 0, bound)
  }

  /** No two categories share a name (the `unique=True` of Category.name). */
  predicate UniqueNames(cats: map<nat, Category>) {
    forall i, j :: i in cats && j in cats && cats[i].name == cats[j].name ==> i == j
  }

  /** `User.findByUsername` and `User.query.filter_by(username=...).first()`. */
  function FindUser(users: map<nat, User>, username: string, bound: nat): (r: Option<nat>)
    requires KeysBelow(users, bound)
    ensures r.Some? ==> r.value in users && users[r.value].username == username
    ensures r.None? <==> forall id :: id in users ==> users[id].username != username
  {
    FirstKey(users, (u: User) => u.username == username, 0, bound)
  }

  /** No two users share a username (the `unique=True` of User.username). */
  predicate UniqueUsernames(users: map<nat, User>) {
    forall i, j :: i in users && j in users && users[i].username == users[j].username ==> i == j
  }

  /** `db.session.query(Uploaded).filter_by(image_id=...).first()`. */
  function FindButtonByImage(buttons: map<nat, Button>, imageId: nat, bound: nat): (r: Option<nat>)
    requires KeysBelow(buttons, bound)
    ensures r.Some? ==> r.value in buttons && buttons[r.value].imageId == imageId
    ensures r.Some? ==> forall id :: id in buttons && buttons[id].imageId == imageId ==> r.value <= id
    ensures r.None? <==> forall id :: id in buttons ==> buttons[id].imageId != imageId
  {
    FirstKey(buttons, (b: Button) => b.imageId == imageId, 0, bound)
  }

  /** Inserting a user whose name is not taken keeps usernames unique. */
  lemma InsertUserKeepsUnique(users: map<nat, User>, id: nat, u: User)
    requires id !in users
    requires forall k :: k in users ==> users[k].username != u.username
    ensures UniqueUsernames(users) ==> UniqueUsernames(users[id := u])
  {
  }
}
