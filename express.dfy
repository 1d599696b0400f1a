/** The Express back end (Backend/server.js over Backend/models/mysql-models.js).
    Each model call is one SQL statement and there are no transactions, so a
    handler that fails half-way keeps what it wrote before. The mysql2
    driver refuses an `undefined` bind parameter; a handler that passes one
    fails at that statement with 500. The session user is the parameter
    `user` (its id) and `sessionName` (its name). */
module ExpressApp {
  import opened Rows
  import LinkTable
  import Catalog
  import Favorites
  import Store
  import Limits
  import Search

  // ---------------------------------------------------------------------
  // POST /api/login

  /** The caller's credentials against the `user` table; `matches` is
      `bcrypt.compare` and answers only 200 or 401 beyond the 400 gate. */
  function LoginOutcome(t: Tables, username: Option<string>, password: Option<string>,
                        matches: (string, string) -> bool): (r: int)
    requires Store.Fresh(t)
    ensures r == BAD_REQUEST <==> !Truthy(username) || !Truthy(password)
    ensures r == UNAUTHORIZED <==> (Truthy(username) && Truthy(password) &&
      var u := Catalog.FindUser(t.users, username.value, t.nextId);
      (u.None? || !matches(password.value, t.users[u.value].passwordHash)))
    ensures r == OK <==> (Truthy(username) && Truthy(password) &&
      var u := Catalog.FindUser(t.users, username.value, t.nextId);
      u.Some? && matches(password.value, t.users[u.value].passwordHash))
  {
    if !Truthy(username) || !Truthy(password) then BAD_REQUEST
    else
      match Catalog.FindUser(t.users, username.value, t.nextId)
      case None => UNAUTHORIZED
      case Some(id) => if matches(password.value, t.users[id].passwordHash) then OK else UNAUTHORIZED
  }

  /** With unique user names, logging in succeeds exactly for a user of that
      name whose stored hash matches the password. */
  lemma LoginAccepts(t: Tables, username: string, password: string, matches: (string, string) -> bool)
    requires Store.Fresh(t) && Catalog.UniqueUsernames(t.users)
    requires username != "" && password != ""
    ensures LoginOutcome(t, Some(username), Some(password), matches) == OK <==>
      exists id :: id in t.users && t.users[id].username == username && matches(password, t.users[id].passwordHash)
  {
    var u := Catalog.FindUser(t.users, username, t.nextId);
    if u.Some? {
      assert forall id :: id in t.users && t.users[id].username == username ==> id == u.value;
    }
  }

  // ---------------------------------------------------------------------
  // POST /api/register

  /** The reasons for refusing a registration, in the order they are checked. */
  datatype RegisterError = MissingFields | Mismatch | ShortPassword | ShortUsername | Taken

  /** JavaScript `length`: UTF-16 code units, two for a character outside
      the Basic Multilingual Plane. */
  function Utf16Length(s: string): (n: nat)
    ensures |s| <= n <= 2 * |s|
  {
    if s == [] then 0 else (if s[0] as int >= 0x10000 then 2 else 1) + Utf16Length(s[1..])
  }

  predicate Filled(username: Option<string>, password: Option<string>, confirm: Option<string>) {
    Truthy(username) && Truthy(password) && Truthy(confirm)
  }

  /** The validation gates of `/api/register`: the first that fails decides. */
  function RegisterCheck(t: Tables, username: Option<string>, password: Option<string>,
                         confirm: Option<string>): (r: Option<RegisterError>)
    requires Store.Fresh(t)
    ensures r == Some(MissingFields) <==> !Filled(username, password, confirm)
    ensures r == Some(Mismatch) <==> (Filled(username, password, confirm) && password.value != confirm.value)
    ensures r == Some(ShortPassword) <==> (Filled(username, password, confirm) &&
      password.value == confirm.value && Utf16Length(password.value) < 6)
    ensures r == Some(ShortUsername) <==> (Filled(username, password, confirm) &&
      password.value == confirm.value && Utf16Length(password.value) >= 6 && Utf16Length(username.value) < 3)
    ensures r == Some(Taken) <==> (Filled(username, password, confirm) &&
      password.value == confirm.value && Utf16Length(password.value) >= 6 && Utf16Length(username.value) >= 3 &&
      exists id :: id in t.users && t.users[id].username == username.value)
    ensures r.None? <==> (Filled(username, password, confirm) &&
      password.value == confirm.value && Utf16Length(password.value) >= 6 && Utf16Length(username.value) >= 3 &&
      forall id :: id in t.users ==> t.users[id].username != username.value)
  {
    if !Filled(username, password, confirm) then Some(MissingFields)
    else if password.value != confirm.value then Some(Mismatch)
    else if Utf16Length(password.value) < 6 then Some(ShortPassword)
    else if Utf16Length(username.value) < 3 then Some(ShortUsername)
    else if Catalog.FindUser(t.users, username.value, t.nextId).Some? then Some(Taken)
    else None
  }

  /** `/api/register`: 400 for any refusal, otherwise a new user holding the
      hash, button size 150 and no admin flag, and 201. */
  function RegisterOutcome(t: Tables, username: Option<string>, password: Option<string>,
                           confirm: Option<string>, hash: string): (r: Outcome)
    requires Store.Fresh(t)
    ensures Store.Fresh(r.t)
    ensures r.status == CREATED <==> RegisterCheck(t, username, password, confirm).None?
    ensures r.status != CREATED ==> r == Outcome(BAD_REQUEST, t)
    ensures r.status == CREATED ==> (t.nextId !in t.users &&
      r.t == t.(users := t.users[t.nextId := User(username.value, hash, 150, false)], nextId := t.nextId + 1))
    ensures Catalog.UniqueUsernames(t.users) ==> Catalog.UniqueUsernames(r.t.users)
  {
    if RegisterCheck(t, username, password, confirm).Some? then Outcome(BAD_REQUEST, t)
    else
      var u := User(username.value, hash, 150, false);
      Catalog.InsertUserKeepsUnique(t.users, t.nextId, u);
      Outcome(CREATED, Store.WithUser(t, u))
  }

  /** Lengths are counted in UTF-16 units, so six characters always pass the
      password gate and three the user-name gate; an unused name with equal
      password fields of that length registers. */
  lemma RegisterAccepts(t: Tables, username: string, password: string, hash: string)
    requires Store.Fresh(t)
    requires |password| >= 6 && |username| >= 3
    requires forall id :: id in t.users ==> t.users[id].username != username
    ensures RegisterOutcome(t, Some(username), Some(password), Some(password), hash).status == CREATED
  {
  }

  /** A character outside the Basic Multilingual Plane counts twice: a
      three-character password of such characters passes the six-unit gate. */
  lemma RegisterCountsUnits(t: Tables, hash: string)
    requires Store.Fresh(t)
    requires forall id :: id in t.users ==> t.users[id].username != "abc"
    ensures RegisterOutcome(t, Some("abc"), Some("\U{1F600}\U{1F600}\U{1F600}"),
                            Some("\U{1F600}\U{1F600}\U{1F600}"), hash).status == CREATED
  {
    var p := "\U{1F600}\U{1F600}\U{1F600}";
    assert Utf16Length(p[2..]) == 2;
    assert Utf16Length(p[1..]) == 4 by { assert p[1..][1..] == p[2..]; }
    assert Utf16Length(p) == 6;
  }

  // ---------------------------------------------------------------------
  // POST /api/button_size/:btn_size

  predicate SizeInRange(v: Option<int>) {
    v.Some? && 50 <= v.value <= 500
  }

  /** `parseInt` of the path segment must lie in [50, 500], else 400; the
      session's user name must still exist, else 404; then its size is set. */
  function ButtonSizeOutcome(t: Tables, sessionName: string, raw: string): (r: Outcome)
    requires Store.Fresh(t)
    ensures Store.Fresh(r.t)
    ensures r.status == BAD_REQUEST <==> !SizeInRange(Limits.ParseIntNoRadix(raw))
    ensures r.status == NOT_FOUND <==> (SizeInRange(Limits.ParseIntNoRadix(raw)) &&
      Catalog.FindUser(t.users, sessionName, t.nextId).None?)
    ensures r.status == OK <==> (SizeInRange(Limits.ParseIntNoRadix(raw)) &&
      Catalog.FindUser(t.users, sessionName, t.nextId).Some?)
    ensures r.status != OK ==> r.t == t
    ensures r.status == OK ==> var id := Catalog.FindUser(t.users, sessionName, t.nextId).value;
      && r.t == t.(users := t.users[id := t.users[id].(btnSize := Limits.ParseIntNoRadix(raw).value)])
      && 50 <= r.t.users[id].btnSize <= 500
  {
    var v := Limits.ParseIntNoRadix(raw);
    if !SizeInRange(v) then Outcome(BAD_REQUEST, t)
    else
      match Catalog.FindUser(t.users, sessionName, t.nextId)
      case None => Outcome(NOT_FOUND, t)
      case Some(id) => Outcome(OK, t.(users := t.users[id := t.users[id].(btnSize := v.value)]))
  }

  /** A written size in range is stored as such; one outside it is refused
      and nothing changes. */
  lemma ButtonSizeDecimal(t: Tables, sessionName: string, n: int)
    requires Store.Fresh(t)
    requires exists id :: id in t.users && t.users[id].username == sessionName
    ensures var r := ButtonSizeOutcome(t, sessionName, Limits.Decimal(n));
      && (r.status == OK <==> 50 <= n <= 500)
      && (r.status == OK ==> r.t.users[Catalog.FindUser(t.users, sessionName, t.nextId).value].btnSize == n)
      && (r.status != OK ==> r.t == t)
  {
    Limits.NoRadixDecimal(n);
  }

  // ---------------------------------------------------------------------
  // PUT /api/users/:id

  /** Only the caller's own id passes (403 otherwise); an absent `btnSize`
      is an undefined bind (500); then the row takes the session's name and
      the new size, with no range check. An id with no row updates nothing. */
  function UpdateUserOutcome(t: Tables, caller: nat, sessionName: string, rawId: string,
                             btnSize: Option<int>): (r: Outcome)
    requires Store.Fresh(t)
    ensures Store.Fresh(r.t)
    ensures r.status == FORBIDDEN <==> Limits.ParseIntNoRadix(rawId) != Some(caller)
    ensures r.status == SERVER_ERROR <==> (Limits.ParseIntNoRadix(rawId) == Some(caller) && btnSize.None?)
    ensures r.status == OK <==> (Limits.ParseIntNoRadix(rawId) == Some(caller) && btnSize.Some?)
    ensures r.status != OK ==> r.t == t
    ensures r.status == OK ==> r.t == t.(users := r.t.users) && r.t.users.Keys == t.users.Keys
    ensures r.status == OK && caller in t.users ==>
      r.t.users == t.users[caller := t.users[caller].(username := sessionName, btnSize := btnSize.value)]
    ensures r.status == OK && caller !in t.users ==> r.t == t
  {
    if Limits.ParseIntNoRadix(rawId) != Some(caller) then Outcome(FORBIDDEN, t)
    else if btnSize.None? then Outcome(SERVER_ERROR, t)
    else if caller in t.users then
      Outcome(OK, t.(users := t.users[caller := t.users[caller].(username := sessionName, btnSize := btnSize.value)]))
    else Outcome(OK, t)
  }

  /** The profile route stores a size the size route refuses. */
  lemma ProfileSkipsSizeRange(t: Tables, caller: nat, sessionName: string)
    requires Store.Fresh(t)
    requires caller in t.users && t.users[caller].username == sessionName
    ensures ButtonSizeOutcome(t, sessionName, Limits.Decimal(10)).status == BAD_REQUEST
    ensures UpdateUserOutcome(t, caller, sessionName, Limits.Decimal(caller), Some(10)).t.users[caller].btnSize == 10
  {
    Limits.NoRadixDecimal(10);
    Limits.NoRadixDecimal(caller);
  }

  // ---------------------------------------------------------------------
  // The handlers over the store, for the routes above

  method Login(db: Store.Database, username: Option<string>, password: Option<string>,
               matches: (string, string) -> bool) returns (status: int)
    requires db.Valid()
    ensures status == LoginOutcome(db.View(), username, password, matches)
  {
    if !Truthy(username) || !Truthy(password) {
      return BAD_REQUEST;
    }
    var found := Catalog.FindUser(db.users, username.value, db.nextId);
    if found.None? {
      return UNAUTHORIZED;
    }
    status := if matches(password.value, db.users[found.value].passwordHash) then OK else UNAUTHORIZED;
  }

  method Register(db: Store.Database, username: Option<string>, password: Option<string>,
                  confirm: Option<string>, hash: string) returns (status: int)
    requires db.Valid()
    modifies db
    ensures db.Valid()
    ensures Outcome(status, db.View()) == RegisterOutcome(old(db.View()), username, password, confirm, hash)
  {
    if !Truthy(username) || !Truthy(password) || !Truthy(confirm) {
      return BAD_REQUEST;
    }
    if password.value != confirm.value || Utf16Length(password.value) < 6 || Utf16Length(username.value) < 3 {
      return BAD_REQUEST;
    }
    var existing := Catalog.FindUser(db.users, username.value, db.nextId);
    if existing.Some? {
      return BAD_REQUEST;
    }
    var id := db.InsertUser(User(username.value, hash, 150, false));
    status := CREATED;
  }

  method SetButtonSize(db: Store.Database, sessionName: string, raw: string) returns (status: int)
    requires db.Valid()
    modifies db
    ensures db.Valid()
    ensures Outcome(status, db.View()) == ButtonSizeOutcome(old(db.View()), sessionName, raw)
  {
    var size := Limits.ParseIntNoRadix(raw);
    if !SizeInRange(size) {
      return BAD_REQUEST;
    }
    var found := Catalog.FindUser(db.users, sessionName, db.nextId);
    if found.None? {
      return NOT_FOUND;
    }
    var id := found.value;
    db.SetUser(id, db.users[id].(btnSize := size.value));
    status := OK;
  }

  method UpdateUser(db: Store.Database, caller: nat, sessionName: string, rawId: string, btnSize: Option<int>)
    returns (status: int)
    requires db.Valid()
    modifies db
    ensures db.Valid()
    ensures Outcome(status, db.View()) == UpdateUserOutcome(old(db.View()), caller, sessionName, rawId, btnSize)
  {
    if Limits.ParseIntNoRadix(rawId) != Some(caller) {
      return FORBIDDEN;
    }
    if btnSize.None? {
      return SERVER_ERROR;
    }
    if caller in db.users {
      db.SetUser(caller, db.users[caller].(username := sessionName, btnSize := btnSize.value));
    }
    status := OK;
  }

  // ---------------------------------------------------------------------
  // PUT /api/linked

  /** The position updates applied so far, and whether one of them threw. */
  datatype Applied = Applied(links: seq<Link>, failed: bool)

  /** A well-formed update carries both an id and a new position. */
  predicate WellFormed(item: PosItem) {
    item.id.Some? && item.newPosition.Some?
  }

  /** `Linked.updatePosition` for each item in list order. An item without
      `id` or `new_position` binds `undefined` and throws: the updates
      before it stay, those after it never run. A negative id matches no
      row. Nothing checks that a row exists. */
  function ApplyPositions(links: seq<Link>, user: nat, items: seq<PosItem>): (r: Applied)
    ensures LinkTable.SamePairs(r.links, links)
    ensures r.failed <==> exists k :: 0 <= k < |items| && !WellFormed(items[k])
    decreases |items|
  {
    if items == [] then Applied(links, false)
    else
      var init := items[..|items| - 1];
      var prev := ApplyPositions(links, user, init);
      var item := items[|items| - 1];
      assert forall k :: 0 <= k < |init| ==> init[k] == items[k];
      if prev.failed then prev
      else if !WellFormed(item) then Applied(prev.links, true)
      else if item.id.value < 0 then prev
      else Applied(LinkTable.SetTri(prev.links, user, item.id.value as nat, item.newPosition.value), false)
  }

  /** 400 without a `positions` array; otherwise the updates, and 500 if
      one of them threw. */
  function LinkedOutcome(t: Tables, user: nat, positions: Option<seq<PosItem>>): (r: Outcome)
    requires Store.Fresh(t)
    ensures Store.Fresh(r.t)
    ensures positions.None? ==> r == Outcome(BAD_REQUEST, t)
    ensures positions.Some? ==>
      && r.t == t.(links := ApplyPositions(t.links, user, positions.value).links)
      && (r.status == SERVER_ERROR <==> ApplyPositions(t.links, user, positions.value).failed)
      && (r.status == OK <==> !ApplyPositions(t.links, user, positions.value).failed)
    ensures LinkTable.SamePairs(r.t.links, t.links)
  {
    if positions.None? then Outcome(BAD_REQUEST, t)
    else
      var a := ApplyPositions(t.links, user, positions.value);
      Outcome(if a.failed then SERVER_ERROR else OK, t.(links := a.links))
  }

  /** No rollback: when item `k` is the first malformed one, the result
      holds exactly the updates of the items before it. */
  lemma {:induction false} PositionsStopAt(links: seq<Link>, user: nat, items: seq<PosItem>, k: nat)
    requires k < |items| && !WellFormed(items[k])
    requires !ApplyPositions(links, user, items[..k]).failed
    ensures ApplyPositions(links, user, items) == Applied(ApplyPositions(links, user, items[..k]).links, true)
    decreases |items|
  {
    var init := items[..|items| - 1];
    if k == |items| - 1 {
      assert init == items[..k];
    } else {
      assert init[..k] == items[..k];
      PositionsStopAt(links, user, init, k);
    }
  }

  /** One more well-formed item after a run without failure. */
  lemma PositionsStep(links: seq<Link>, user: nat, items: seq<PosItem>, i: nat)
    requires i < |items| && WellFormed(items[i])
    requires !ApplyPositions(links, user, items[..i]).failed
    ensures var prev := ApplyPositions(links, user, items[..i]);
      var item := items[i];
      ApplyPositions(links, user, items[..i + 1]) ==
        if item.id.value < 0 then prev
        else Applied(LinkTable.SetTri(prev.links, user, item.id.value as nat, item.newPosition.value), false)
  {
    assert items[..i + 1][..i] == items[..i];
  }

  /** The last well-formed update of a pair wins, whether or not the pair
      had a row before; a pair without rows stays without. */
  lemma PositionsLastWins(links: seq<Link>, user: nat, items: seq<PosItem>, x: PosItem)
    requires WellFormed(x) && x.id.value >= 0
    requires !ApplyPositions(links, user, items).failed
    ensures var r := ApplyPositions(links, user, items + [x]);
      && !r.failed
      && (forall l :: l in r.links && LinkTable.Matches(l, user, x.id.value as nat) ==> l.tri == x.newPosition.value)
      && (LinkTable.Has(r.links, user, x.id.value as nat) <==> LinkTable.Has(links, user, x.id.value as nat))
  {
    var all := items + [x];
    assert all[..|all| - 1] == items;
    var r := ApplyPositions(links, user, all);
    LinkTable.SamePairsHas(r.links, links, user, x.id.value as nat);
  }

  method PutLinked(db: Store.Database, user: nat, positions: Option<seq<PosItem>>) returns (status: int)
    requires db.Valid()
    modifies db
    ensures db.Valid()
    ensures Outcome(status, db.View()) == LinkedOutcome(old(db.View()), user, positions)
  {
    if positions.None? {
      return BAD_REQUEST;
    }
    var items := positions.value;
    var i := 0;
    while i < |items|
      invariant 0 <= i <= |items|
      invariant db.Valid()
      invariant ApplyPositions(old(db.links), user, items[..i]) == Applied(db.links, false)
      invariant db.View() == old(db.View()).(links := db.links)
    {
      var item := items[i];
      if !WellFormed(item) {
        PositionsStopAt(old(db.links), user, items, i);
        return SERVER_ERROR;
      }
      PositionsStep(old(db.links), user, items, i);
      if item.id.value >= 0 {
        db.LinkSetTri(user, item.id.value as nat, item.newPosition.value);
      }
      i := i + 1;
    }
    assert items[..|items|] == items;
    status := OK;
  }

  // ---------------------------------------------------------------------
  // POST /api/buttons

  /** The new Uploaded row, then `Linked.createOrUpdate` of the uploader's
      pair at one past the largest position read before it. */
  function UploadAndLink(t: Tables, b: Button): (r: Tables)
    ensures Store.Fresh(t) ==> Store.Fresh(r)
    ensures r == t.(buttons := t.buttons[t.nextId := b], nextId := t.nextId + 1,
                    links := LinkTable.Upsert(t.links, b.uploadedBy, t.nextId, LinkTable.AppendTri(t.links, b.uploadedBy)))
  {
    var t1 := Store.WithButton(t, b);
    t1.(links := LinkTable.Upsert(t.links, b.uploadedBy, t.nextId, LinkTable.AppendTri(t.links, b.uploadedBy)))
  }

  /** The category of the form as written: none without a name, the first
      of that name when one exists, and otherwise `Category.create({ name })`,
      which binds the undefined colour and throws, written `None`. */
  function LookupCategory(t: Tables, categoryName: Option<string>): (r: Option<Option<nat>>)
    requires Store.Fresh(t)
    ensures !Truthy(categoryName) ==> r == Some(None)
    ensures Truthy(categoryName) ==>
      (r.None? <==> forall id :: id in t.categories ==> t.categories[id].name != categoryName.value)
    ensures Truthy(categoryName) && r.Some? ==>
      r.value.Some? && r.value.value in t.categories && t.categories[r.value.value].name == categoryName.value
  {
    if !Truthy(categoryName) then Some(None)
    else
      match Catalog.FindCategory(t.categories, categoryName.value, t.nextId)
      case None => None
      case Some(id) => Some(Some(id))
  }

  /** The names the image and sound uploads were stored under, the button
      name and an optional category name. 400 without an image, a sound or a
      name; then both File rows; then a new category name fails with 500 and
      the File rows stay; otherwise the button, linked at the end with 201. */
  function PostButtonsOutcome(t: Tables, user: nat, image: Option<string>, sound: Option<string>,
                              buttonName: Option<string>, categoryName: Option<string>): (r: Outcome)
    requires Store.Fresh(t)
    ensures Store.Fresh(r.t)
    ensures r.status == BAD_REQUEST <==> image.None? || sound.None? || !Truthy(buttonName)
    ensures r.status == BAD_REQUEST ==> r.t == t
    ensures r.status == SERVER_ERROR <==> (image.Some? && sound.Some? && Truthy(buttonName) &&
      LookupCategory(Store.RecordFiles(t, image.value, sound.value), categoryName).None?)
    ensures r.status == SERVER_ERROR ==> r.t == Store.RecordFiles(t, image.value, sound.value)
    ensures r.status == CREATED <==> (image.Some? && sound.Some? && Truthy(buttonName) &&
      LookupCategory(Store.RecordFiles(t, image.value, sound.value), categoryName).Some?)
    ensures r.status == CREATED ==>
      var t1 := Store.RecordFiles(t, image.value, sound.value);
      r.t == UploadAndLink(t1, Button(t.nextId, Some(t.nextId + 1), user, buttonName.value,
                                      LookupCategory(t1, categoryName).value))
  {
    if image.None? || sound.None? || !Truthy(buttonName) then Outcome(BAD_REQUEST, t)
    else
      var t1 := Store.RecordFiles(t, image.value, sound.value);
      match LookupCategory(t1, categoryName)
      case None => Outcome(SERVER_ERROR, t1)
      case Some(category) =>
        Outcome(CREATED, UploadAndLink(t1, Button(t.nextId, Some(t.nextId + 1), user, buttonName.value, category)))
  }

  /** The route as evidently intended: a new category name is created (with
      no colour, as the Flask variant does) and the upload proceeds. */
  function PostButtonsIntended(t: Tables, user: nat, image: Option<string>, sound: Option<string>,
                               buttonName: Option<string>, categoryName: Option<string>): (r: Outcome)
    requires Store.Fresh(t)
    ensures Store.Fresh(r.t)
    ensures r.status == BAD_REQUEST <==> image.None? || sound.None? || !Truthy(buttonName)
    ensures r.status == BAD_REQUEST ==> r.t == t
    ensures r.status != BAD_REQUEST ==> r.status == CREATED
    ensures r.status == CREATED ==>
      var c := Store.AssignCategory(Store.RecordFiles(t, image.value, sound.value), categoryName);
      r.t == UploadAndLink(c.0, Button(t.nextId, Some(t.nextId + 1), user, buttonName.value, c.1))
  {
    if image.None? || sound.None? || !Truthy(buttonName) then Outcome(BAD_REQUEST, t)
    else
      var c := Store.AssignCategory(Store.RecordFiles(t, image.value, sound.value), categoryName);
      Outcome(CREATED, UploadAndLink(c.0, Button(t.nextId, Some(t.nextId + 1), user, buttonName.value, c.1)))
  }

  /** `id` has exactly one row for `user` in `after`, a table free of
      duplicate pairs, and that row is at one past the user's largest
      position in `before`. */
  predicate AppendedOnce(before: seq<Link>, after: seq<Link>, user: nat, id: nat) {
    && LinkTable.UniquePairs(after)
    && LinkTable.Count(after, user, id) == 1
    && (forall l :: l in after && LinkTable.Matches(l, user, id) ==> l.tri == LinkTable.AppendTri(before, user))
  }

  /** A new button is the uploader's only row for it, at one past every
      position the uploader had, and no row of any other pair changes. */
  lemma AppendsAtEnd(t: Tables, b: Button)
    requires Store.Fresh(t) && LinkTable.UniquePairs(t.links)
    ensures var r := UploadAndLink(t, b);
      && AppendedOnce(t.links, r.links, b.uploadedBy, t.nextId)
      && (forall l :: l in r.links && l.user == b.uploadedBy && l.uploaded != t.nextId ==>
            l.tri < LinkTable.AppendTri(t.links, b.uploadedBy))
      && (forall l :: l in r.links && !LinkTable.Matches(l, b.uploadedBy, t.nextId) <==>
            l in t.links && !LinkTable.Matches(l, b.uploadedBy, t.nextId))
  {
    var user := b.uploadedBy;
    var r := UploadAndLink(t, b);
    LinkTable.UpsertUnique(t.links, user, t.nextId, LinkTable.AppendTri(t.links, user));
    LinkTable.AppendAfterAll(t.links, user);
    forall l | l in r.links && l.user == user && l.uploaded != t.nextId
      ensures l.tri < LinkTable.AppendTri(t.links, user)
    {
      var i :| 0 <= i < |t.links| && t.links[i] == l;
    }
  }

  /** Where a category is named and none of that name exists, the route as
      written fails after recording both File rows, which no button then
      references; the intended route creates the category and the button. */
  lemma NewCategoryFails(t: Tables, user: nat, image: string, sound: string, name: string, category: string)
    requires Store.Fresh(t)
    requires name != "" && category != ""
    requires forall id :: id in t.categories ==> t.categories[id].name != category
    ensures var r := PostButtonsOutcome(t, user, Some(image), Some(sound), Some(name), Some(category));
      && r.status == SERVER_ERROR
      && r.t.buttons == t.buttons && r.t.links == t.links && r.t.categories == t.categories
      && t.nextId !in t.files && t.nextId in r.t.files
    ensures var r := PostButtonsIntended(t, user, Some(image), Some(sound), Some(name), Some(category));
      && r.status == CREATED
      && t.nextId + 2 in r.t.categories && r.t.categories[t.nextId + 2].name == category
      && t.nextId + 3 in r.t.buttons && r.t.buttons[t.nextId + 3].categoryId == Some(t.nextId + 2)
  {
  }

  /** Everywhere else the two definitions agree. */
  lemma PostButtonsAgree(t: Tables, user: nat, image: Option<string>, sound: Option<string>,
                         buttonName: Option<string>, categoryName: Option<string>)
    requires Store.Fresh(t)
    requires PostButtonsOutcome(t, user, image, sound, buttonName, categoryName).status != SERVER_ERROR
    ensures PostButtonsOutcome(t, user, image, sound, buttonName, categoryName)
         == PostButtonsIntended(t, user, image, sound, buttonName, categoryName)
  {
  }

  /** A created button lands at one past the uploader's largest position. */
  lemma PostButtonsAppends(t: Tables, user: nat, image: Option<string>, sound: Option<string>,
                           buttonName: Option<string>, categoryName: Option<string>)
    requires Store.Fresh(t) && LinkTable.UniquePairs(t.links)
    ensures var r := PostButtonsIntended(t, user, image, sound, buttonName, categoryName);
      r.status == CREATED ==>
        exists id :: id in r.t.buttons && id !in t.buttons && AppendedOnce(t.links, r.t.links, user, id)
  {
    if image.Some? && sound.Some? && Truthy(buttonName) {
      var t1 := Store.RecordFiles(t, image.value, sound.value);
      var c := Store.AssignCategory(t1, categoryName);
      var b := Button(t.nextId, Some(t.nextId + 1), user, buttonName.value, c.1);
      AppendsAtEnd(c.0, b);
      var id := c.0.nextId;
      assert c.0.links == t.links;
      assert id !in t.buttons;
    }
  }

  /** `POST /api/buttons`, with a new category name created as intended. */
  method PostButtons(db: Store.Database, user: nat, image: Option<string>, sound: Option<string>,
                     buttonName: Option<string>, categoryName: Option<string>) returns (status: int)
    requires db.Valid()
    modifies db
    ensures db.Valid()
    ensures Outcome(status, db.View()) == PostButtonsIntended(old(db.View()), user, image, sound, buttonName, categoryName)
  {
    if image.None? || sound.None? || !Truthy(buttonName) {
      return BAD_REQUEST;
    }
    var imageId, soundId := Store.InsertFiles(db, image.value, sound.value);
    var category := Store.SetCategory(db, categoryName);
    UploadLinked(db, Button(imageId, Some(soundId), user, buttonName.value, category));
    status := CREATED;
  }

  /** `getMaxTri`, `Uploaded.create`, then `createOrUpdate` at the next position. */
  method UploadLinked(db: Store.Database, b: Button)
    requires db.Valid()
    modifies db
    ensures db.Valid()
    ensures db.View() == UploadAndLink(old(db.View()), b)
  {
    var maxTri := db.GetMaxTri(b.uploadedBy);
    var id := db.InsertButton(b);
    db.LinkUpsert(b.uploadedBy, id, maxTri + 1);
  }

  // ---------------------------------------------------------------------
  // POST /api/bulk-operations

  /** `Linked.delete` of each id in turn. */
  function DeleteAll(links: seq<Link>, user: nat, ids: seq<nat>): (r: seq<Link>)
    ensures forall l :: l in r <==> l in links && !(l.user == user && l.uploaded in ids)
    decreases |ids|
  {
    if ids == [] then links
    else
      var init := ids[..|ids| - 1];
      assert ids == init + [ids[|ids| - 1]];
      LinkTable.Remove(DeleteAll(links, user, init), user, ids[|ids| - 1])
  }

  /** `Linked.createOrUpdate` of the i-th id (from 0) at `base + i + 1`. */
  function LinkAll(links: seq<Link>, user: nat, ids: seq<nat>, base: int): seq<Link>
    decreases |ids|
  {
    if ids == [] then links
    else LinkTable.Upsert(LinkAll(links, user, ids[..|ids| - 1], base), user, ids[|ids| - 1], base + |ids|)
  }

  lemma LinkAllSnoc(links: seq<Link>, user: nat, ids: seq<nat>, i: nat, base: int)
    requires i < |ids|
    ensures LinkAll(links, user, ids[..i + 1], base)
         == LinkTable.Upsert(LinkAll(links, user, ids[..i], base), user, ids[i], base + i + 1)
  {
    assert ids[..i + 1][..i] == ids[..i];
  }

  predicate Distinct(ids: seq<nat>) {
    forall i, j :: 0 <= i < j < |ids| ==> ids[i] != ids[j]
  }

  /** Each listed id has exactly one row for the caller, the i-th at
      `base + i + 1`, in a table free of duplicate pairs. */
  predicate Placed(r: seq<Link>, user: nat, ids: seq<nat>, base: int) {
    && LinkTable.UniquePairs(r)
    && (forall i :: 0 <= i < |ids| ==> LinkTable.Count(r, user, ids[i]) == 1)
    && (forall i, l :: 0 <= i < |ids| && l in r && LinkTable.Matches(l, user, ids[i]) ==> l.tri == base + i + 1)
  }

  /** Bulk link of distinct ids places them at consecutive positions, in
      list order, after `base`. */
  lemma {:induction false} LinkAllPositions(links: seq<Link>, user: nat, ids: seq<nat>, base: int)
    requires LinkTable.UniquePairs(links)
    requires Distinct(ids)
    ensures Placed(LinkAll(links, user, ids, base), user, ids, base)
    decreases |ids|
  {
    if ids != [] {
      var n := |ids|;
      var init := ids[..n - 1];
      var x := ids[n - 1];
      assert init + [x] == ids;
      DistinctInit(ids, init, x);
      LinkAllPositions(links, user, init, base);
      LinkAllStep(LinkAll(links, user, init, base), user, init, x, base, LinkAll(links, user, ids, base), ids);
    }
  }

  /** Dropping the last of distinct ids leaves distinct ids, none equal to it. */
  lemma DistinctInit(ids: seq<nat>, init: seq<nat>, x: nat)
    requires Distinct(ids) && ids == init + [x]
    ensures Distinct(init)
    ensures forall i :: 0 <= i < |init| ==> init[i] != x
  {
    assert forall i :: 0 <= i < |init| ==> init[i] == ids[i];
    assert ids[|init|] == x;
  }

  /** One more id of the bulk link, upserted at the next position. */
  lemma LinkAllStep(prev: seq<Link>, user: nat, init: seq<nat>, x: nat, base: int, r: seq<Link>, ids: seq<nat>)
    requires Placed(prev, user, init, base)
    requires forall i :: 0 <= i < |init| ==> init[i] != x
    requires r == LinkTable.Upsert(prev, user, x, base + |init| + 1) && ids == init + [x]
    ensures Placed(r, user, ids, base)
  {
    var tri := base + |init| + 1;
    UpsertPlaces(prev, user, x, tri, r);
    forall i | 0 <= i < |ids|
      ensures LinkTable.Count(r, user, ids[i]) == 1
      ensures forall l :: l in r && LinkTable.Matches(l, user, ids[i]) ==> l.tri == base + i + 1
    {
      if i < |init| {
        assert ids[i] == init[i];
        UpsertStep(prev, user, x, tri, init[i], base + i + 1);
      } else {
        assert ids[i] == x;
      }
    }
  }

  /** The upserted pair has one row, at the given position, in a table
      still free of duplicate pairs. */
  lemma UpsertPlaces(prev: seq<Link>, user: nat, x: nat, tri: int, r: seq<Link>)
    requires LinkTable.UniquePairs(prev) && r == LinkTable.Upsert(prev, user, x, tri)
    ensures LinkTable.UniquePairs(r) && LinkTable.Count(r, user, x) == 1
    ensures forall l :: l in r && LinkTable.Matches(l, user, x) ==> l.tri == tri
  {
    LinkTable.UpsertUnique(prev, user, x, tri);
    forall l | l in r && LinkTable.Matches(l, user, x) ensures l.tri == tri {
      var k :| 0 <= k < |r| && r[k] == l;
    }
  }

  /** One more upsert of another pair keeps a pair's single row and its position. */
  lemma UpsertStep(prev: seq<Link>, user: nat, x: nat, tri: int, other: nat, otherTri: int)
    requires other != x
    requires LinkTable.Count(prev, user, other) == 1
    requires forall l :: l in prev && LinkTable.Matches(l, user, other) ==> l.tri == otherTri
    ensures var r := LinkTable.Upsert(prev, user, x, tri);
      && LinkTable.Count(r, user, other) == 1
      && forall l :: l in r && LinkTable.Matches(l, user, other) ==> l.tri == otherTri
  {
    UpsertKeepsCount(prev, user, x, tri, other);
    UpsertOthers(prev, user, x, tri);
  }

  /** Bulk link keeps every row of any pair it does not list. */
  lemma {:induction false} LinkAllKeeps(links: seq<Link>, user: nat, ids: seq<nat>, base: int)
    ensures var r := LinkAll(links, user, ids, base);
      forall l: Link :: !(l.user == user && l.uploaded in ids) ==> (l in r <==> l in links)
    decreases |ids|
  {
    if ids != [] {
      var n := |ids|;
      var init := ids[..n - 1];
      assert ids == init + [ids[n - 1]];
      LinkAllKeeps(links, user, init, base);
      UpsertOthers(LinkAll(links, user, init, base), user, ids[n - 1], base + n);
    }
  }

  /** An upsert keeps every row of any other pair and adds none. */
  lemma UpsertOthers(links: seq<Link>, user: nat, uploaded: nat, tri: int)
    ensures forall l: Link :: !LinkTable.Matches(l, user, uploaded) ==>
      (l in LinkTable.Upsert(links, user, uploaded, tri) <==> l in links)
  {
    var r := LinkTable.Upsert(links, user, uploaded, tri);
    if LinkTable.Has(links, user, uploaded) {
      forall l | !LinkTable.Matches(l, user, uploaded) ensures l in r <==> l in links {
        if l in r {
          var i :| 0 <= i < |r| && r[i] == l;
          assert links[i] == l;
        }
        if l in links {
          var i :| 0 <= i < |links| && links[i] == l;
          assert r[i] == l;
        }
      }
    }
  }

  /** An upsert leaves the row count of every other pair as it was. */
  lemma {:induction false} UpsertKeepsCount(links: seq<Link>, user: nat, uploaded: nat, tri: int, other: nat)
    requires other != uploaded
    ensures LinkTable.Count(LinkTable.Upsert(links, user, uploaded, tri), user, other) == LinkTable.Count(links, user, other)
  {
    if LinkTable.Has(links, user, uploaded) {
      SetTriKeepsCount(links, user, uploaded, tri, other);
    } else {
      CountAppend(links, Link(user, uploaded, tri), user, other);
    }
  }

  lemma {:induction false} SetTriKeepsCount(links: seq<Link>, user: nat, uploaded: nat, tri: int, other: nat)
    requires other != uploaded
    ensures LinkTable.Count(LinkTable.SetTri(links, user, uploaded, tri), user, other) == LinkTable.Count(links, user, other)
    decreases |links|
  {
    if links != [] {
      var r := LinkTable.SetTri(links, user, uploaded, tri);
      assert r[1..] == LinkTable.SetTri(links[1..], user, uploaded, tri);
      SetTriKeepsCount(links[1..], user, uploaded, tri, other);
    }
  }

  lemma {:induction false} CountAppend(links: seq<Link>, l: Link, user: nat, uploaded: nat)
    ensures LinkTable.Count(links + [l], user, uploaded)
         == LinkTable.Count(links, user, uploaded) + (if LinkTable.Matches(l, user, uploaded) then 1 else 0)
    decreases |links|
  {
    if links == [] {
      assert [l][1..] == [];
    } else {
      assert (links + [l])[1..] == links[1..] + [l];
      CountAppend(links[1..], l, user, uploaded);
    }
  }

  /** 400 without an operation or an id list, or for an operation other than
      "delete" and "link"; otherwise the operation, and 200. */
  function BulkOutcome(t: Tables, user: nat, operation: Option<string>, ids: Option<seq<nat>>): (r: Outcome)
    requires Store.Fresh(t)
    ensures Store.Fresh(r.t)
    ensures r.status == BAD_REQUEST <==>
      !Truthy(operation) || ids.None? || (operation.value != "delete" && operation.value != "link")
    ensures r.status != BAD_REQUEST ==> r.status == OK
    ensures r.status == BAD_REQUEST ==> r.t == t
    ensures r.status == OK && operation.value == "delete" ==>
      r.t == t.(links := DeleteAll(t.links, user, ids.value))
    ensures r.status == OK && operation.value == "link" ==>
      r.t == t.(links := LinkAll(t.links, user, ids.value, LinkTable.MaxTri(t.links, user)))
  {
    if !Truthy(operation) || ids.None? then Outcome(BAD_REQUEST, t)
    else if operation.value == "delete" then Outcome(OK, t.(links := DeleteAll(t.links, user, ids.value)))
    else if operation.value == "link" then
      Outcome(OK, t.(links := LinkAll(t.links, user, ids.value, LinkTable.MaxTri(t.links, user))))
    else Outcome(BAD_REQUEST, t)
  }

  /** Bulk link places distinct ids at `maxTri + 1 ... maxTri + n`, in list
      order, each with a single row. */
  lemma BulkLinkPositions(t: Tables, user: nat, ids: seq<nat>)
    requires Store.Fresh(t) && LinkTable.UniquePairs(t.links) && Distinct(ids)
    ensures var r := BulkOutcome(t, user, Some("link"), Some(ids));
      r.status == OK && Placed(r.t.links, user, ids, LinkTable.MaxTri(t.links, user))
  {
    LinkAllPositions(t.links, user, ids, LinkTable.MaxTri(t.links, user));
  }

  /** Bulk delete leaves the caller no row for any listed id, and keeps every
      other row. */
  lemma BulkDeleteRemoves(t: Tables, user: nat, ids: seq<nat>)
    requires Store.Fresh(t)
    ensures var r := BulkOutcome(t, user, Some("delete"), Some(ids));
      && r.status == OK
      && (forall i :: 0 <= i < |ids| ==> !LinkTable.Has(r.t.links, user, ids[i]))
      && (forall l :: l in r.t.links <==> l in t.links && !(l.user == user && l.uploaded in ids))
  {
    var d := DeleteAll(t.links, user, ids);
    forall i, k | 0 <= i < |ids| && 0 <= k < |d| ensures !LinkTable.Matches(d[k], user, ids[i]) {
      assert d[k] in d;
    }
  }

  /** `Linked.removeByUserAndUploaded` for each listed id, in order. */
  method BulkDelete(db: Store.Database, user: nat, list: seq<nat>)
    requires db.Valid()
    modifies db
    ensures db.Valid()
    ensures db.View() == old(db.View()).(links := DeleteAll(old(db.links), user, list))
  {
    for i := 0 to |list|
      invariant db.Valid()
      invariant db.View() == old(db.View()).(links := DeleteAll(old(db.links), user, list[..i]))
    {
      assert list[..i + 1][..i] == list[..i];
      db.LinkRemove(user, list[i]);
    }
    assert list[..|list|] == list;
  }

  /** `Linked.create` for each listed id at `maxTri + 1 + i`, in order. */
  method BulkLink(db: Store.Database, user: nat, list: seq<nat>)
    requires db.Valid()
    modifies db
    ensures db.Valid()
    ensures db.View() == old(db.View()).(links := LinkAll(old(db.links), user, list, LinkTable.MaxTri(old(db.links), user)))
  {
    var maxTri := db.GetMaxTri(user);
    for i := 0 to |list|
      invariant db.Valid()
      invariant db.View() == old(db.View()).(links := LinkAll(old(db.links), user, list[..i], maxTri))
    {
      LinkAllSnoc(old(db.links), user, list, i, maxTri);
      db.LinkUpsert(user, list[i], maxTri + i + 1);
    }
    assert list[..|list|] == list;
  }

  method BulkOperations(db: Store.Database, user: nat, operation: Option<string>, ids: Option<seq<nat>>)
    returns (status: int)
    requires db.Valid()
    modifies db
    ensures db.Valid()
    ensures Outcome(status, db.View()) == BulkOutcome(old(db.View()), user, operation, ids)
  {
    if !Truthy(operation) || ids.None? {
      return BAD_REQUEST;
    }
    if operation.value == "delete" {
      BulkDelete(db, user, ids.value);
      status := OK;
    } else if operation.value == "link" {
      BulkLink(db, user, ids.value);
      status := OK;
    } else {
      status := BAD_REQUEST;
    }
  }

  // ---------------------------------------------------------------------
  // DELETE /api/link/:uploadedId

  /** The caller's joined row for the button the path names: `findByUser`
      then the first row whose id equals `parseInt` of the segment. */
  function UnlinkTarget(t: Tables, user: nat, rawId: string): (r: Option<nat>)
    ensures r.Some? <==> (Limits.ParseIntNoRadix(rawId).Some? && Limits.ParseIntNoRadix(rawId).value >= 0 &&
      LinkTable.Has(t.links, user, Limits.ParseIntNoRadix(rawId).value as nat) &&
      Limits.ParseIntNoRadix(rawId).value as nat in t.buttons)
    ensures r.Some? ==> r.value as int == Limits.ParseIntNoRadix(rawId).value
  {
    var id := Limits.ParseIntNoRadix(rawId);
    if id.Some? && id.value >= 0 && LinkTable.Has(t.links, user, id.value as nat) && id.value as nat in t.buttons
    then Some(id.value as nat) else None
  }

  /** The history row of an unlink: the owner, the button's id, name, file
      names and file ids as the join returns them, status `deleted`. */
  function UnlinkRecord(t: Tables, user: nat, id: nat, now: int): HistoryRow
    requires id in t.buttons
  {
    var b := t.buttons[id];
    HistoryRow(user, Some(id), b.name, Search.FileName(t, Some(b.imageId)), Search.FileName(t, b.soundId),
               Some(b.imageId), b.soundId, Deleted, now)
  }

  /** 404 unless the caller has the button; otherwise a history row, then
      the caller's link goes; the button and its files stay. */
  function UnlinkOutcome(t: Tables, user: nat, rawId: string, now: int): (r: Outcome)
    requires Store.Fresh(t)
    ensures Store.Fresh(r.t)
    ensures r.status == NOT_FOUND <==> UnlinkTarget(t, user, rawId).None?
    ensures r.status != NOT_FOUND ==> r.status == OK
    ensures r.status == NOT_FOUND ==> r.t == t
    ensures r.status == OK ==> var id := UnlinkTarget(t, user, rawId).value;
      && t.nextId !in t.history
      && r.t == t.(history := t.history[t.nextId := UnlinkRecord(t, user, id, now)],
                   nextId := t.nextId + 1,
                   links := LinkTable.Remove(t.links, user, id))
  {
    match UnlinkTarget(t, user, rawId)
    case None => Outcome(NOT_FOUND, t)
    case Some(id) =>
      var t1 := Store.WithHistory(t, UnlinkRecord(t, user, id, now));
      Outcome(OK, t1.(links := LinkTable.Remove(t.links, user, id)))
  }

  /** An unlink keeps the button and its files, records them as deleted,
      and removes the caller's rows for it and nothing else. */
  lemma UnlinkKeepsButton(t: Tables, user: nat, id: nat, now: int)
    requires Store.Fresh(t)
    requires LinkTable.Has(t.links, user, id) && id in t.buttons
    ensures var r := UnlinkOutcome(t, user, Limits.Decimal(id), now);
      && r.status == OK
      && r.t.buttons == t.buttons && r.t.files == t.files
      && r.t.history[t.nextId].status == Deleted && r.t.history[t.nextId].uploadedId == Some(id)
      && !LinkTable.Has(r.t.links, user, id)
      && (forall l :: l in r.t.links <==> l in t.links && !LinkTable.Matches(l, user, id))
  {
    Limits.NoRadixDecimal(id);
  }

  method Unlink(db: Store.Database, user: nat, rawId: string, now: int) returns (status: int)
    requires db.Valid()
    modifies db
    ensures db.Valid()
    ensures Outcome(status, db.View()) == UnlinkOutcome(old(db.View()), user, rawId, now)
  {
    var target := UnlinkTarget(db.View(), user, rawId);
    if target.None? {
      return NOT_FOUND;
    }
    var id := target.value;
    var h := db.InsertHistory(UnlinkRecord(db.View(), user, id, now));
    db.LinkRemove(user, id);
    status := OK;
  }

  // ---------------------------------------------------------------------
  // POST /api/upload

  /** `buttonName || 'Unnamed Button'`. */
  function UploadName(buttonName: Option<string>): (r: string)
    ensures Truthy(buttonName) ==> r == buttonName.value
    ensures !Truthy(buttonName) ==> r == "Unnamed Button"
  {
    if Truthy(buttonName) then buttonName.value else "Unnamed Button"
  }

  /** As written: 400 without an image; the image File row; then with a
      sound its File row and the button (200); without one, `soundRecord?.id`
      is undefined, so `Uploaded.create` throws after the image row (500).
      No Linked row is made either way. */
  function UploadOutcome(t: Tables, user: nat, image: Option<string>, sound: Option<string>,
                         buttonName: Option<string>, categoryId: Option<nat>): (r: Outcome)
    requires Store.Fresh(t)
    ensures Store.Fresh(r.t)
    ensures r.t.links == t.links
    ensures r.status == BAD_REQUEST <==> image.None?
    ensures r.status == BAD_REQUEST ==> r.t == t
    ensures r.status == SERVER_ERROR <==> image.Some? && sound.None?
    ensures r.status == SERVER_ERROR ==> r.t == Store.WithFile(t, FileRow(image.value, Image))
    ensures r.status == OK <==> image.Some? && sound.Some?
    ensures r.status == OK ==> r.t == Store.WithButton(Store.RecordFiles(t, image.value, sound.value),
      Button(t.nextId, Some(t.nextId + 1), user, UploadName(buttonName), categoryId))
  {
    if image.None? then Outcome(BAD_REQUEST, t)
    else if sound.None? then Outcome(SERVER_ERROR, Store.WithFile(t, FileRow(image.value, Image)))
    else
      Outcome(OK, Store.WithButton(Store.RecordFiles(t, image.value, sound.value),
                                   Button(t.nextId, Some(t.nextId + 1), user, UploadName(buttonName), categoryId)))
  }

  /** As evidently intended (the handler keeps `soundRecord` null when no
      sound is sent): the button is made without a sound. */
  function UploadIntended(t: Tables, user: nat, image: Option<string>, sound: Option<string>,
                          buttonName: Option<string>, categoryId: Option<nat>): (r: Outcome)
    requires Store.Fresh(t)
    ensures Store.Fresh(r.t)
    ensures r.t.links == t.links
    ensures r.status == BAD_REQUEST <==> image.None?
    ensures r.status == BAD_REQUEST ==> r.t == t
    ensures r.status != BAD_REQUEST ==> r.status == OK
    ensures r.status == OK && sound.None? ==> r.t == Store.WithButton(Store.WithFile(t, FileRow(image.value, Image)),
      Button(t.nextId, None, user, UploadName(buttonName), categoryId))
    ensures r.status == OK && sound.Some? ==> r == UploadOutcome(t, user, image, sound, buttonName, categoryId)
  {
    if image.None? || sound.Some? then UploadOutcome(t, user, image, sound, buttonName, categoryId)
    else
      Outcome(OK, Store.WithButton(Store.WithFile(t, FileRow(image.value, Image)),
                                   Button(t.nextId, None, user, UploadName(buttonName), categoryId)))
  }

  /** Without a sound the route as written leaves a new image File row
      and no button, and answers 500; as intended it makes the button. */
  lemma UploadWithoutSound(t: Tables, user: nat, image: string, buttonName: Option<string>, categoryId: Option<nat>)
    requires Store.Fresh(t)
    ensures var r := UploadOutcome(t, user, Some(image), None, buttonName, categoryId);
      && r.status == SERVER_ERROR
      && t.nextId in r.t.files && t.nextId !in t.files
      && r.t.buttons == t.buttons
    ensures var r := UploadIntended(t, user, Some(image), None, buttonName, categoryId);
      && r.status == OK
      && t.nextId + 1 in r.t.buttons && r.t.buttons[t.nextId + 1].imageId == t.nextId
      && r.t.buttons[t.nextId + 1].soundId.None?
  {
  }

  /** `POST /api/upload` as intended. */
  method Upload(db: Store.Database, user: nat, image: Option<string>, sound: Option<string>,
                buttonName: Option<string>, categoryId: Option<nat>) returns (status: int)
    requires db.Valid()
    modifies db
    ensures db.Valid()
    ensures Outcome(status, db.View()) == UploadIntended(old(db.View()), user, image, sound, buttonName, categoryId)
  {
    if image.None? {
      return BAD_REQUEST;
    }
    var imageId := db.InsertFile(FileRow(image.value, Image));
    var soundId: Option<nat> := None;
    if sound.Some? {
      var id := db.InsertFile(FileRow(sound.value, Sound));
      soundId := Some(id);
    }
    var id := db.InsertButton(Button(imageId, soundId, user, UploadName(buttonName), categoryId));
    status := OK;
  }

  // ---------------------------------------------------------------------
  // POST /api/link

  /** `Linked.create` with `tri || 0`; an absent `uploadedId` is an
      undefined bind (500). */
  function LinkOutcome(t: Tables, user: nat, uploadedId: Option<nat>, tri: Option<int>): (r: Outcome)
    requires Store.Fresh(t)
    ensures Store.Fresh(r.t)
    ensures uploadedId.None? ==> r == Outcome(SERVER_ERROR, t)
    ensures uploadedId.Some? ==> (r.status == OK &&
      r.t == t.(links := LinkTable.Upsert(t.links, user, uploadedId.value, Limits.OrDefault(tri, 0))))
  {
    if uploadedId.None? then Outcome(SERVER_ERROR, t)
    else Outcome(OK, t.(links := LinkTable.Upsert(t.links, user, uploadedId.value, Limits.OrDefault(tri, 0))))
  }

  /** Linking twice keeps one row for the pair, at the later position:
      `tri || 0`, so an absent or zero `tri` the second time puts it at 0. */
  lemma LinkIsUpsert(t: Tables, user: nat, id: nat, tri1: Option<int>, tri2: Option<int>)
    requires Store.Fresh(t) && LinkTable.UniquePairs(t.links)
    ensures var r := LinkOutcome(LinkOutcome(t, user, Some(id), tri1).t, user, Some(id), tri2);
      && r.status == OK
      && LinkTable.UniquePairs(r.t.links)
      && LinkTable.Count(r.t.links, user, id) == 1
      && forall l :: l in r.t.links && LinkTable.Matches(l, user, id) ==> l.tri == Limits.OrDefault(tri2, 0)
  {
    var r1 := LinkOutcome(t, user, Some(id), tri1);
    UpsertPlaces(t.links, user, id, Limits.OrDefault(tri1, 0), r1.t.links);
    UpsertPlaces(r1.t.links, user, id, Limits.OrDefault(tri2, 0), LinkOutcome(r1.t, user, Some(id), tri2).t.links);
  }

  method PostLink(db: Store.Database, user: nat, uploadedId: Option<nat>, tri: Option<int>) returns (status: int)
    requires db.Valid()
    modifies db
    ensures db.Valid()
    ensures Outcome(status, db.View()) == LinkOutcome(old(db.View()), user, uploadedId, tri)
  {
    if uploadedId.None? {
      return SERVER_ERROR;
    }
    db.LinkUpsert(user, uploadedId.value, Limits.OrDefault(tri, 0));
    status := OK;
  }

  // ---------------------------------------------------------------------
  // PUT /api/favorite/:uploadedId/toggle

  /** `isFavorite`, then `removeFavorite` or `addFavorite`; the answer is
      the new membership. */
  method ToggleFavorite(db: Store.Database, user: nat, uploaded: nat) returns (isFavorite: bool)
    requires db.Valid()
    modifies db
    ensures db.Valid()
    ensures (isFavorite, db.favorites) == Favorites.Toggle(old(db.favorites), user, uploaded)
    ensures isFavorite <==> (user, uploaded) in db.favorites
    ensures isFavorite <==> (user, uploaded) !in old(db.favorites)
    ensures db.View() == old(db.View()).(favorites := db.favorites)
  {
    var present := db.IsFavorite(user, uploaded);
    if present {
      var removed := db.RemoveFavorite(user, uploaded);
      isFavorite := false;
    } else {
      var added := db.AddFavorite(user, uploaded);
      isFavorite := true;
    }
  }
}
