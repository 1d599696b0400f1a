/** The Flask back end (Backend/main.py): its button handlers over the
    shared store. Each handler is a function from the tables before the
    request to its status code and the tables after it, and a method that
    runs the handler's steps on the store, proved to end where the function
    says. A SQLAlchemy session stages its changes until `commit`; a handler
    that fails before its commit leaves the tables as the last commit left
    them, while files already written to or removed from disk stay so. */
module FlaskApp {
  import opened Rows
  import LinkTable
  import Catalog
  import FileUtils
  import Store
  import Search

  function KindName(k: Kind): string {
    match k
    case Image => "image"
    case Sound => "sound"
  }

  /** Where `save_file_to_disk` puts a file of kind `k` named `name`. */
  function DiskPath(k: Kind, name: string): StoredPath {
    StoredPath(FileUtils.FlaskFolder(KindName(k)), name)
  }

  // ---------------------------------------------------------------------
  // add_button_with_category: POST /api/buttons
  // ---------------------------------------------------------------------

  /** Both uploads written to disk under the same button name, then
      recorded as File rows, image first: the image row takes the next id
      and the sound row the one after. */
  function StoreUploads(t: Tables, imageName: string, soundName: string): (r: Tables)
    ensures Store.Fresh(t) ==> Store.Fresh(r)
    ensures r.files == t.files[t.nextId := FileRow(imageName, Image)][t.nextId + 1 := FileRow(soundName, Sound)]
    ensures r.nextId == t.nextId + 2
    ensures r.links == t.links && r.buttons == t.buttons && r.categories == t.categories
  {
    Store.RecordFiles(Store.Saved(Store.Saved(t, DiskPath(Image, imageName)), DiskPath(Sound, soundName)),
                imageName, soundName)
  }

  /** The new Uploaded row, linked for its uploader at one past the
      uploader's largest position. */
  function LinkNewButton(t: Tables, b: Button): (r: Tables)
    ensures Store.Fresh(t) ==> Store.Fresh(r)
    ensures r.links == t.links + [Link(b.uploadedBy, t.nextId, LinkTable.AppendTri(t.links, b.uploadedBy))]
    ensures r.buttons == t.buttons[t.nextId := b] && r.files == t.files && r.categories == t.categories
  {
    var tri := LinkTable.MaxTri(t.links, b.uploadedBy) + 1;
    Store.WithLink(Store.WithButton(t, b), Link(b.uploadedBy, t.nextId, tri))
  }

  /** The upload parts and button name: a missing part or field, an empty
      file name or an empty button name is 400 before anything is written.
      Otherwise both files go to disk and get File rows, the category is
      found or created when a name is given, and the new button is linked
      for the caller after every button the caller already has. */
  function AddButtonOutcome(t: Tables, user: nat, image: Option<string>, sound: Option<string>,
                            buttonName: Option<string>, categoryName: Option<string>,
                            imageHex: string, soundHex: string, alnum: char -> bool): (r: Outcome)
    requires Store.Fresh(t)
    ensures r.status == BAD_REQUEST <==> !(Truthy(image) && Truthy(sound) && Truthy(buttonName))
    ensures r.status == BAD_REQUEST ==> r.t == t
    ensures r.status != BAD_REQUEST ==> r.status == CREATED && Store.Fresh(r.t)
    ensures r.status == CREATED ==>
      r.t == CreateButton(t, user, buttonName.value,
                          FileUtils.PyStoredFilename(image.value, buttonName.value, imageHex, alnum),
                          FileUtils.PyStoredFilename(sound.value, buttonName.value, soundHex, alnum), categoryName)
  {
    if !(Truthy(image) && Truthy(sound) && Truthy(buttonName)) then Outcome(BAD_REQUEST, t)
    else
      var name := buttonName.value;
      var imageName := FileUtils.PyStoredFilename(image.value, name, imageHex, alnum);
      var soundName := FileUtils.PyStoredFilename(sound.value, name, soundHex, alnum);
      Outcome(CREATED, CreateButton(t, user, name, imageName, soundName, categoryName))
  }

  /** The writes of a request that passed the checks: the uploads, the
      category, the button and its link. */
  function CreateButton(t: Tables, user: nat, name: string, imageName: string, soundName: string,
                        categoryName: Option<string>): (r: Tables)
    requires Store.Fresh(t)
    ensures Store.Fresh(r)
  {
    var c := Store.AssignCategory(StoreUploads(t, imageName, soundName), categoryName);
    LinkNewButton(c.0, Button(t.nextId, Some(t.nextId + 1), user, name, c.1))
  }

  /** A created button is a new Uploaded row holding the name, the caller
      and two new File rows; it is linked once, at one past the caller's
      largest position, which is above every position the caller had. */
  lemma AddButtonAppends(t: Tables, user: nat, image: Option<string>, sound: Option<string>,
                         buttonName: Option<string>, categoryName: Option<string>,
                         imageHex: string, soundHex: string, alnum: char -> bool)
    requires Store.Fresh(t)
    requires Truthy(image) && Truthy(sound) && Truthy(buttonName)
    ensures var r := AddButtonOutcome(t, user, image, sound, buttonName, categoryName, imageHex, soundHex, alnum);
      && |r.t.links| == |t.links| + 1 && r.t.links[..|t.links|] == t.links
      && var l := r.t.links[|t.links|];
      && l.user == user && l.tri == LinkTable.AppendTri(t.links, user)
      && (forall i :: 0 <= i < |t.links| && t.links[i].user == user ==> t.links[i].tri < l.tri)
      && l.uploaded !in t.buttons && l.uploaded in r.t.buttons
      && r.t.buttons[l.uploaded].name == buttonName.value
      && r.t.buttons[l.uploaded].uploadedBy == user
      && r.t.buttons[l.uploaded].imageId !in t.files
      && r.t.files[r.t.buttons[l.uploaded].imageId]
         == FileRow(FileUtils.PyStoredFilename(image.value, buttonName.value, imageHex, alnum), Image)
  {
    LinkTable.AppendAfterAll(t.links, user);
    var name := buttonName.value;
    var imageName := FileUtils.PyStoredFilename(image.value, name, imageHex, alnum);
    var soundName := FileUtils.PyStoredFilename(sound.value, name, soundHex, alnum);
    var t1 := StoreUploads(t, imageName, soundName);
    var c := Store.AssignCategory(t1, categoryName);
    var b := Button(t.nextId, Some(t.nextId + 1), user, name, c.1);
    var r := LinkNewButton(c.0, b);
    assert r.links[..|t.links|] == t.links;
    assert r.links[|t.links|] == Link(user, c.0.nextId, LinkTable.AppendTri(t.links, user));
    assert c.0.nextId !in t.buttons;
    assert r.buttons[c.0.nextId] == b;
  }

  /** With a category name, the button's category is the one of that name;
      an existing name adds no category. */
  lemma AddButtonCategory(t: Tables, user: nat, image: Option<string>, sound: Option<string>,
                          buttonName: Option<string>, categoryName: Option<string>,
                          imageHex: string, soundHex: string, alnum: char -> bool)
    requires Store.Fresh(t)
    requires Truthy(image) && Truthy(sound) && Truthy(buttonName)
    ensures var r := AddButtonOutcome(t, user, image, sound, buttonName, categoryName, imageHex, soundHex, alnum);
      var b := r.t.buttons[r.t.links[|t.links|].uploaded];
      && (!Truthy(categoryName) ==> b.categoryId.None? && r.t.categories == t.categories)
      && (Truthy(categoryName) ==>
            b.categoryId.Some? && b.categoryId.value in r.t.categories
            && r.t.categories[b.categoryId.value].name == categoryName.value)
      && (Truthy(categoryName) && (exists id :: id in t.categories && t.categories[id].name == categoryName.value) ==>
            r.t.categories == t.categories)
  {
  }

  method AddButton(db: Store.Database, user: nat, image: Option<string>, sound: Option<string>,
                   buttonName: Option<string>, categoryName: Option<string>,
                   imageHex: string, soundHex: string, alnum: char -> bool) returns (status: int)
    requires db.Valid()
    modifies db
    ensures db.Valid()
    ensures Outcome(status, db.View())
         == AddButtonOutcome(old(db.View()), user, image, sound, buttonName, categoryName, imageHex, soundHex, alnum)
  {
    if !(Truthy(image) && Truthy(sound) && Truthy(buttonName)) {
      return BAD_REQUEST;
    }
    var name := buttonName.value;
    var imageName := FileUtils.PyStoredFilename(image.value, name, imageHex, alnum);
    var soundName := FileUtils.PyStoredFilename(sound.value, name, soundHex, alnum);
    SaveButton(db, user, name, imageName, soundName, categoryName);
    status := CREATED;
  }

  method SaveButton(db: Store.Database, user: nat, name: string, imageName: string, soundName: string,
                    categoryName: Option<string>)
    requires db.Valid()
    modifies db
    ensures db.Valid()
    ensures db.View() == CreateButton(old(db.View()), user, name, imageName, soundName, categoryName)
  {
    var imageId, soundId := SaveUploads(db, imageName, soundName);
    var category := Store.SetCategory(db, categoryName);
    CreateLinkedButton(db, Button(imageId, Some(soundId), user, name, category));
  }

  /** The new Uploaded row and its Linked row. */
  method CreateLinkedButton(db: Store.Database, b: Button)
    requires db.Valid()
    modifies db
    ensures db.Valid()
    ensures db.View() == LinkNewButton(old(db.View()), b)
  {
    var maxTri := db.GetMaxTri(b.uploadedBy);
    var uploadedId := db.InsertButton(b);
    db.LinkInsert(Link(b.uploadedBy, uploadedId, maxTri + 1));
  }

  /** `save_file_to_disk` for both parts, then their File rows. */
  method SaveUploads(db: Store.Database, imageName: string, soundName: string) returns (imageId: nat, soundId: nat)
    requires db.Valid()
    modifies db
    ensures db.Valid()
    ensures imageId == old(db.nextId) && soundId == old(db.nextId) + 1
    ensures db.View() == StoreUploads(old(db.View()), imageName, soundName)
  {
    db.SaveToDisk(DiskPath(Image, imageName));
    db.SaveToDisk(DiskPath(Sound, soundName));
    imageId, soundId := Store.InsertFiles(db, imageName, soundName);
  }

  // ---------------------------------------------------------------------
  // update_button_positions: PUT /api/buttons with "positions"
  // ---------------------------------------------------------------------

  /** The guard on each item: `not uploaded_id or new_position is None`
      rejects a missing or zero id and a missing position. */
  predicate ItemValid(item: PosItem) {
    item.id.Some? && item.id.value != 0 && item.newPosition.Some?
  }

  /** The caller's first row for button `id`, joined with that button. */
  function LoadLinked(links: seq<Link>, buttons: map<nat, Button>, user: nat, id: int): (r: Option<nat>)
    ensures r.Some? ==> id >= 0 && r.value < |links| && LinkTable.Matches(links[r.value], user, id as nat)
    ensures r.None? <==> (id < 0 || id !in buttons || !LinkTable.Has(links, user, id as nat))
  {
    if id < 0 || id !in buttons then None else LinkTable.FirstOfPair(links, user, id)
  }

  /** The session after the items so far: every change staged, or the
      status of the first item that failed. */
  datatype Batch = Staged(links: seq<Link>) | Refused(status: int)

  function Step(cur: seq<Link>, buttons: map<nat, Button>, user: nat, item: PosItem): (r: Batch)
    ensures r.Refused? ==> r.status == BAD_REQUEST || r.status == NOT_FOUND
  {
    if !ItemValid(item) then Refused(BAD_REQUEST)
    else match LoadLinked(cur, buttons, user, item.id.value)
      case None => Refused(NOT_FOUND)
      case Some(k) => Staged(cur[k := cur[k].(tri := item.newPosition.value)])
  }

  function Reposition(links: seq<Link>, buttons: map<nat, Button>, user: nat, items: seq<PosItem>): (r: Batch)
    ensures r.Refused? ==> r.status == BAD_REQUEST || r.status == NOT_FOUND
    decreases |items|
  {
    if items == [] then Staged(links)
    else match Reposition(links, buttons, user, items[..|items| - 1])
      case Refused(s) => Refused(s)
      case Staged(cur) => Step(cur, buttons, user, items[|items| - 1])
  }

  /** Staging positions changes only positions: every row keeps its user
      and its button. */
  lemma {:induction false} RepositionKeepsPairs(links: seq<Link>, buttons: map<nat, Button>, user: nat, items: seq<PosItem>)
    ensures Reposition(links, buttons, user, items).Staged? ==>
      LinkTable.SamePairs(Reposition(links, buttons, user, items).links, links)
    decreases |items|
  {
    if items != [] {
      RepositionKeepsPairs(links, buttons, user, items[..|items| - 1]);
    }
  }

  /** An item that passes in the staged session passes in the original
      tables too, and the other way round. */
  predicate ItemPasses(links: seq<Link>, buttons: map<nat, Button>, user: nat, item: PosItem) {
    ItemValid(item) && LoadLinked(links, buttons, user, item.id.value).Some?
  }

  /** All or nothing: the batch is staged exactly when every item passes
      the guard and names a button the caller has linked. */
  lemma {:induction false} RepositionAllOrNothing(links: seq<Link>, buttons: map<nat, Button>, user: nat, items: seq<PosItem>)
    ensures Reposition(links, buttons, user, items).Staged? <==> AllPass(links, buttons, user, items)
    decreases |items|
  {
    if items != [] {
      var init := items[..|items| - 1];
      var last := items[|items| - 1];
      RepositionAllOrNothing(links, buttons, user, init);
      AllPassSnoc(links, buttons, user, items);
      var prev := Reposition(links, buttons, user, init);
      if prev.Staged? {
        RepositionKeepsPairs(links, buttons, user, init);
        StepPasses(links, prev.links, buttons, user, last);
      }
    }
  }

  predicate AllPass(links: seq<Link>, buttons: map<nat, Button>, user: nat, items: seq<PosItem>) {
    forall j :: 0 <= j < |items| ==> ItemPasses(links, buttons, user, items[j])
  }

  lemma AllPassSnoc(links: seq<Link>, buttons: map<nat, Button>, user: nat, items: seq<PosItem>)
    requires items != []
    ensures AllPass(links, buttons, user, items) <==>
      AllPass(links, buttons, user, items[..|items| - 1]) && ItemPasses(links, buttons, user, items[|items| - 1])
  {
    var init := items[..|items| - 1];
    assert forall j :: 0 <= j < |init| ==> init[j] == items[j];
  }

  /** On a session whose rows hold the same pairs, one item is staged
      exactly when it passes against the original rows. */
  lemma StepPasses(links: seq<Link>, cur: seq<Link>, buttons: map<nat, Button>, user: nat, item: PosItem)
    requires LinkTable.SamePairs(cur, links)
    ensures Step(cur, buttons, user, item).Staged? <==> ItemPasses(links, buttons, user, item)
  {
    if ItemValid(item) && item.id.value >= 0 {
      LinkTable.SamePairsHas(cur, links, user, item.id.value as nat);
    }
  }

  /** The first refusal is the answer: later items are never looked at. */
  lemma {:induction false} RefusalSticks(links: seq<Link>, buttons: map<nat, Button>, user: nat,
                                         items: seq<PosItem>, n: nat)
    requires n <= |items|
    requires Reposition(links, buttons, user, items[..n]).Refused?
    ensures Reposition(links, buttons, user, items) == Reposition(links, buttons, user, items[..n])
    decreases |items| - n
  {
    if n < |items| {
      var init := items[..|items| - 1];
      assert init[..n] == items[..n];
      RefusalSticks(links, buttons, user, init, n);
    } else {
      assert items[..n] == items;
    }
  }

  /** The position the batch gives row `k`: `new_position` of the last
      well-formed item whose id's first caller row is `k`, if any. */
  function LastPosition(links: seq<Link>, user: nat, items: seq<PosItem>, k: nat): Option<int>
    decreases |items|
  {
    if items == [] then None
    else
      var x := items[|items| - 1];
      if ItemValid(x) && x.id.value >= 0 && LinkTable.FirstOfPair(links, user, x.id.value as nat) == Some(k)
      then Some(x.newPosition.value)
      else LastPosition(links, user, items[..|items| - 1], k)
  }

  /** Row by row, `r` is `links` with each named row at its last position
      and every other row unchanged. */
  predicate Repositioned(r: seq<Link>, links: seq<Link>, user: nat, items: seq<PosItem>) {
    |r| == |links| &&
    forall k :: 0 <= k < |links| ==>
      r[k] == (match LastPosition(links, user, items, k)
               case None => links[k]
               case Some(p) => links[k].(tri := p))
  }

  /** A staged batch moves every row an item names to the position the
      last such item gives, and leaves every other row as it was. */
  lemma {:induction false} RepositionPlaces(links: seq<Link>, buttons: map<nat, Button>, user: nat, items: seq<PosItem>)
    ensures Reposition(links, buttons, user, items).Staged? ==>
      Repositioned(Reposition(links, buttons, user, items).links, links, user, items)
    decreases |items|
  {
    if items != [] && Reposition(links, buttons, user, items).Staged? {
      var init := items[..|items| - 1];
      var x := items[|items| - 1];
      var prev := Reposition(links, buttons, user, init);
      assert prev.Staged?;
      RepositionPlaces(links, buttons, user, init);
      RepositionKeepsPairs(links, buttons, user, init);
      var cur := prev.links;
      var k0 := LoadLinked(cur, buttons, user, x.id.value).value;
      LinkTable.SamePairsFirst(cur, links, user, x.id.value as nat);
      var r := cur[k0 := cur[k0].(tri := x.newPosition.value)];
      assert Reposition(links, buttons, user, items).links == r;
      forall k | 0 <= k < |links|
        ensures r[k] == (match LastPosition(links, user, items, k)
                         case None => links[k]
                         case Some(p) => links[k].(tri := p))
      {
        if k != k0 {
          assert LastPosition(links, user, items, k) == LastPosition(links, user, init, k);
        }
      }
    }
  }

  /** The last item of a committed batch decides its row's position. */
  lemma RepositionLastWins(t: Tables, user: nat, items: seq<PosItem>)
    requires items != [] && RepositionOutcome(t, user, items).status == OK
    ensures var x := items[|items| - 1];
      && x.id.Some? && x.id.value > 0 && x.newPosition.Some?
      && LinkTable.FirstOfPair(t.links, user, x.id.value as nat).Some?
      && var k := LinkTable.FirstOfPair(t.links, user, x.id.value as nat).value;
      && RepositionOutcome(t, user, items).t.links[k] == t.links[k].(tri := x.newPosition.value)
  {
    var x := items[|items| - 1];
    assert ItemPasses(t.links, t.buttons, user, x);
  }

  /** The handler's answer: a refused batch commits nothing, a committed one
      moves exactly the named rows. */
  function RepositionOutcome(t: Tables, user: nat, items: seq<PosItem>): (r: Outcome)
    ensures r.status == OK || r.status == BAD_REQUEST || r.status == NOT_FOUND
    ensures r.status != OK ==> r.t == t
    ensures r.status == OK <==> forall j :: 0 <= j < |items| ==> ItemPasses(t.links, t.buttons, user, items[j])
    ensures r.status == OK ==> r.t == t.(links := r.t.links) && LinkTable.SamePairs(r.t.links, t.links)
    ensures r.status == OK ==> Repositioned(r.t.links, t.links, user, items)
  {
    RepositionAllOrNothing(t.links, t.buttons, user, items);
    RepositionKeepsPairs(t.links, t.buttons, user, items);
    RepositionPlaces(t.links, t.buttons, user, items);
    match Reposition(t.links, t.buttons, user, items)
    case Refused(s) => Outcome(s, t)
    case Staged(s) => Outcome(OK, t.(links := s))
  }

  /** One element that `for item in positions` yields: a JSON object, on
      which `item.get` works, or anything else, on which it raises. */
  datatype Entry = ObjectEntry(item: PosItem) | OtherEntry

  /** The value of "positions". A list yields its elements; a string or an
      object also iterates, yielding characters or keys, none of which is
      an object, so it is a list of `OtherEntry`. `null`, a number or a
      boolean cannot be iterated. */
  datatype PositionsJson = Iterable(entries: seq<Entry>) | NotIterable

  /** How many elements the loop reaches before `item.get` would raise. */
  function LeadingObjects(es: seq<Entry>): (k: nat)
    ensures k <= |es|
    ensures forall j :: 0 <= j < k ==> es[j].ObjectEntry?
    ensures k < |es| ==> es[k].OtherEntry?
    decreases |es|
  {
    if es == [] || es[0].OtherEntry? then 0 else 1 + LeadingObjects(es[1..])
  }

  /** The items of a run of objects. */
  function ItemsOf(es: seq<Entry>): (r: seq<PosItem>)
    requires forall j :: 0 <= j < |es| ==> es[j].ObjectEntry?
    ensures |r| == |es| && forall j :: 0 <= j < |es| ==> r[j] == es[j].item
  {
    seq(|es|, j requires 0 <= j < |es| && es[j].ObjectEntry? => es[j].item)
  }

  /** The whole handler, `except Exception` included: a value that cannot
      be iterated raises at once, and an element that is not an object
      raises when the loop reaches it; either is 500 and the session rolls
      back. An item refused before that answers as the list of objects
      before it does. */
  function PositionsOutcome(t: Tables, user: nat, positions: PositionsJson): (r: Outcome)
    ensures r.status == OK || r.status == BAD_REQUEST || r.status == NOT_FOUND || r.status == SERVER_ERROR
    ensures r.status != OK ==> r.t == t
    ensures positions.NotIterable? ==> r.status == SERVER_ERROR
    ensures positions.Iterable? ==>
      var es := positions.entries;
      var k := LeadingObjects(es);
      && (r.status == SERVER_ERROR <==>
            k < |es| && forall j :: 0 <= j < k ==> ItemPasses(t.links, t.buttons, user, es[j].item))
      && (k == |es| ==> r == RepositionOutcome(t, user, ItemsOf(es)))
      && (r.status != SERVER_ERROR ==> r == RepositionOutcome(t, user, ItemsOf(es[..k])))
  {
    match positions
    case NotIterable => Outcome(SERVER_ERROR, t)
    case Iterable(es) =>
      var k := LeadingObjects(es);
      var before := RepositionOutcome(t, user, ItemsOf(es[..k]));
      assert forall j :: 0 <= j < k ==> ItemsOf(es[..k])[j] == es[j].item;
      assert es[..k] == es ==> ItemsOf(es[..k]) == ItemsOf(es);
      if k < |es| && before.status == OK then Outcome(SERVER_ERROR, t) else before
  }

  /** `{"positions": [5]}`: the element is no object, so 500. */
  lemma NumberItemFails(t: Tables, user: nat)
    ensures PositionsOutcome(t, user, Iterable([OtherEntry])) == Outcome(SERVER_ERROR, t)
  {
    assert LeadingObjects([OtherEntry]) == 0;
    assert ItemsOf([OtherEntry][..0]) == [];
  }

  /** The objects before element `i` are staged: one more object is one
      more `Step`. */
  lemma StageNext(links: seq<Link>, buttons: map<nat, Button>, user: nat, es: seq<Entry>, i: nat, session: seq<Link>)
    requires i < |es| && forall j :: 0 <= j <= i ==> es[j].ObjectEntry?
    requires Reposition(links, buttons, user, ItemsOf(es[..i])) == Staged(session)
    ensures Reposition(links, buttons, user, ItemsOf(es[..i + 1])) == Step(session, buttons, user, es[i].item)
  {
    var items := ItemsOf(es[..i + 1]);
    assert items[..i] == ItemsOf(es[..i]);
  }

  /** The loop reaches a non-object with every item before it staged. */
  lemma OtherEntryFails(t: Tables, user: nat, es: seq<Entry>, i: nat, session: seq<Link>)
    requires i < |es| && es[i].OtherEntry? && forall j :: 0 <= j < i ==> es[j].ObjectEntry?
    requires Reposition(t.links, t.buttons, user, ItemsOf(es[..i])) == Staged(session)
    ensures PositionsOutcome(t, user, Iterable(es)) == Outcome(SERVER_ERROR, t)
  {
    assert LeadingObjects(es) == i;
    RepositionAllOrNothing(t.links, t.buttons, user, ItemsOf(es[..i]));
  }

  /** The loop refuses the object at `i`: the answer is that refusal. */
  lemma ObjectRefused(t: Tables, user: nat, es: seq<Entry>, i: nat, session: seq<Link>)
    requires i < |es| && forall j :: 0 <= j <= i ==> es[j].ObjectEntry?
    requires Reposition(t.links, t.buttons, user, ItemsOf(es[..i + 1])) == Step(session, t.buttons, user, es[i].item)
    requires Step(session, t.buttons, user, es[i].item).Refused?
    ensures PositionsOutcome(t, user, Iterable(es)) == Outcome(Step(session, t.buttons, user, es[i].item).status, t)
  {
    var k := LeadingObjects(es);
    var all := ItemsOf(es[..k]);
    assert all[..i + 1] == ItemsOf(es[..i + 1]);
    RefusalSticks(t.links, t.buttons, user, all, i + 1);
  }

  /** The loop ran to the end: the staged session is committed. */
  lemma AllStaged(t: Tables, user: nat, es: seq<Entry>, session: seq<Link>)
    requires forall j :: 0 <= j < |es| ==> es[j].ObjectEntry?
    requires Reposition(t.links, t.buttons, user, ItemsOf(es)) == Staged(session)
    ensures PositionsOutcome(t, user, Iterable(es)) == Outcome(OK, t.(links := session))
  {
    assert LeadingObjects(es) == |es|;
  }

  method UpdatePositions(db: Store.Database, user: nat, positions: PositionsJson) returns (status: int)
    requires db.Valid()
    modifies db
    ensures db.Valid()
    ensures Outcome(status, db.View()) == PositionsOutcome(old(db.View()), user, positions)
  {
    if positions.NotIterable? {
      return SERVER_ERROR;
    }
    ghost var t := db.View();
    var es := positions.entries;
    var session := db.links;
    var i := 0;
    while i < |es|
      invariant 0 <= i <= |es|
      invariant forall j :: 0 <= j < i ==> es[j].ObjectEntry?
      invariant Reposition(t.links, t.buttons, user, ItemsOf(es[..i])) == Staged(session)
      invariant db.View() == t
    {
      if es[i].OtherEntry? {
        OtherEntryFails(t, user, es, i, session);
        return SERVER_ERROR;
      }
      var item := es[i].item;
      StageNext(t.links, t.buttons, user, es, i, session);
      if !ItemValid(item) {
        ObjectRefused(t, user, es, i, session);
        return BAD_REQUEST;
      }
      var k := LoadLinked(session, db.buttons, user, item.id.value);
      if k.None? {
        ObjectRefused(t, user, es, i, session);
        return NOT_FOUND;
      }
      session := session[k.value := session[k.value].(tri := item.newPosition.value)];
      i := i + 1;
    }
    assert es[..i] == es;
    AllStaged(t, user, es, session);
    db.SetLinks(session);
    status := OK;
  }

  // ---------------------------------------------------------------------
  // update_button_positions_or_category: PUT /api/buttons
  // ---------------------------------------------------------------------

  /** The JSON body of `PUT /api/buttons`: "positions" is looked at first,
      then the pair "button_id" and "category_name", whose values may be
      null. */
  datatype PutBody =
    | PositionsBody(positions: PositionsJson)
    | CategoryBody(buttonId: Option<int>, categoryName: Option<string>)
    | OtherBody

  /** `Uploaded.query.get(button_id)` finds a row. */
  predicate ButtonExists(t: Tables, id: Option<int>) {
    id.Some? && id.value >= 0 && id.value as nat in t.buttons
  }

  /** Category assignment: an unknown button is 404. The name is looked up
      exactly and a category is created only when none has it; a null name
      makes that creation violate NOT NULL, a 500 that commits nothing.
      Otherwise the button's category is the one of that name, and nothing
      but that button and the category table changes. */
  function CategoryOutcome(t: Tables, buttonId: Option<int>, categoryName: Option<string>): (r: Outcome)
    requires Store.Fresh(t)
    ensures Store.Fresh(r.t)
    ensures r.status == NOT_FOUND <==> !ButtonExists(t, buttonId)
    ensures r.status == SERVER_ERROR <==> ButtonExists(t, buttonId) && categoryName.None?
    ensures r.status == OK <==> ButtonExists(t, buttonId) && categoryName.Some?
    ensures r.status != OK ==> r.t == t
    ensures r.status == OK ==>
      var id := buttonId.value as nat;
      && id in r.t.buttons
      && r.t.buttons == t.buttons[id := t.buttons[id].(categoryId := r.t.buttons[id].categoryId)]
      && r.t.buttons[id].categoryId.Some?
      && r.t.buttons[id].categoryId.value in r.t.categories
      && r.t.categories[r.t.buttons[id].categoryId.value].name == categoryName.value
      && r.t == t.(buttons := r.t.buttons, categories := r.t.categories, nextId := r.t.nextId)
    ensures r.status == OK && (exists k :: k in t.categories && t.categories[k].name == categoryName.value) ==>
      r.t.categories == t.categories
    ensures r.status == OK && Catalog.UniqueNames(t.categories) ==> Catalog.UniqueNames(r.t.categories)
  {
    if !ButtonExists(t, buttonId) then Outcome(NOT_FOUND, t)
    else if categoryName.None? then Outcome(SERVER_ERROR, t)
    else
      var id := buttonId.value as nat;
      var c := Store.FindOrCreateCategory(t, categoryName.value);
      Outcome(OK, c.0.(buttons := c.0.buttons[id := c.0.buttons[id].(categoryId := Some(c.1))]))
  }

  /** The dispatcher: neither shape of body is 400. */
  function PutOutcome(t: Tables, user: nat, body: PutBody): (r: Outcome)
    requires Store.Fresh(t)
    ensures body.OtherBody? ==> r == Outcome(BAD_REQUEST, t)
    ensures body.PositionsBody? ==> r == PositionsOutcome(t, user, body.positions)
    ensures body.CategoryBody? ==> r == CategoryOutcome(t, body.buttonId, body.categoryName)
  {
    match body
    case PositionsBody(positions) => PositionsOutcome(t, user, positions)
    case CategoryBody(b, n) => CategoryOutcome(t, b, n)
    case OtherBody => Outcome(BAD_REQUEST, t)
  }

  method PutButtons(db: Store.Database, user: nat, body: PutBody) returns (status: int)
    requires db.Valid()
    modifies db
    ensures db.Valid()
    ensures Outcome(status, db.View()) == PutOutcome(old(db.View()), user, body)
  {
    match body {
      case PositionsBody(positions) =>
        status := UpdatePositions(db, user, positions);
      case CategoryBody(b, n) =>
        status := SetButtonCategory(db, b, n);
      case OtherBody =>
        status := BAD_REQUEST;
    }
  }

  method SetButtonCategory(db: Store.Database, buttonId: Option<int>, categoryName: Option<string>)
    returns (status: int)
    requires db.Valid()
    modifies db
    ensures db.Valid()
    ensures Outcome(status, db.View()) == CategoryOutcome(old(db.View()), buttonId, categoryName)
  {
    if !ButtonExists(db.View(), buttonId) {
      return NOT_FOUND;
    }
    if categoryName.None? {
      return SERVER_ERROR;
    }
    var id := buttonId.value as nat;
    var category := Store.FindOrCreate(db, categoryName.value);
    db.SetButton(id, db.buttons[id].(categoryId := Some(category)));
    status := OK;
  }

  // ---------------------------------------------------------------------
  // delete_image: DELETE /api/delete_image/<image_id>
  // ---------------------------------------------------------------------

  /** Unlinking a button by its image: the button is the first with that
      image; when there is none, reading its id fails (500). Without a row
      for the caller the answer is 404; otherwise the caller's first row
      for it is deleted and nothing else changes. */
  function DeleteImageOutcome(t: Tables, user: nat, imageId: nat): (r: Outcome)
    requires Store.Fresh(t)
    ensures Store.Fresh(r.t)
    ensures var b := Catalog.FindButtonByImage(t.buttons, imageId, t.nextId);
      && (r.status == SERVER_ERROR <==> b.None?)
      && (r.status == NOT_FOUND <==> b.Some? && !LinkTable.Has(t.links, user, b.value))
      && (r.status == OK <==> b.Some? && LinkTable.Has(t.links, user, b.value))
      && (r.status != OK ==> r.t == t)
      && (r.status == OK ==>
            && r.t == t.(links := r.t.links)
            && |r.t.links| == |t.links| - 1
            && LinkTable.Count(r.t.links, user, b.value) == LinkTable.Count(t.links, user, b.value) - 1
            && forall l :: l in t.links && !LinkTable.Matches(l, user, b.value) ==> l in r.t.links)
  {
    var b := Catalog.FindButtonByImage(t.buttons, imageId, t.nextId);
    if b.None? then Outcome(SERVER_ERROR, t)
    else if !LinkTable.Has(t.links, user, b.value) then Outcome(NOT_FOUND, t)
    else Outcome(OK, t.(links := LinkTable.RemoveFirst(t.links, user, b.value)))
  }

  method DeleteImage(db: Store.Database, user: nat, imageId: nat) returns (status: int)
    requires db.Valid()
    modifies db
    ensures db.Valid()
    ensures Outcome(status, db.View()) == DeleteImageOutcome(old(db.View()), user, imageId)
  {
    var b := Catalog.FindButtonByImage(db.buttons, imageId, db.nextId);
    if b.None? {
      return SERVER_ERROR;
    }
    var k := LinkTable.FirstOfPair(db.links, user, b.value);
    if k.None? {
      return NOT_FOUND;
    }
    db.LinkRemoveAt(k.value);
    status := OK;
  }

  // ---------------------------------------------------------------------
  // register: POST /api/register
  // ---------------------------------------------------------------------

  /** A missing or empty password, then a taken username, is 400. A
      missing username matches no row (`IS NULL`) and then violates NOT
      NULL at the commit: 500. Otherwise the user is added with button
      size 150 and the password's hash. */
  function RegisterOutcome(t: Tables, username: Option<string>, password: Option<string>, hash: string): (r: Outcome)
    requires Store.Fresh(t)
    ensures Store.Fresh(r.t)
    ensures r.status == BAD_REQUEST <==>
      !Truthy(password) || (username.Some? && exists id :: id in t.users && t.users[id].username == username.value)
    ensures r.status == SERVER_ERROR <==> Truthy(password) && username.None?
    ensures r.status == CREATED <==>
      Truthy(password) && username.Some? && forall id :: id in t.users ==> t.users[id].username != username.value
    ensures r.status != CREATED ==> r.t == t
    ensures r.status == CREATED ==>
      && t.nextId !in t.users
      && r.t == t.(users := t.users[t.nextId := User(username.value, hash, 150, false)], nextId := t.nextId + 1)
    ensures Catalog.UniqueUsernames(t.users) ==> Catalog.UniqueUsernames(r.t.users)
  {
    if !Truthy(password) then Outcome(BAD_REQUEST, t)
    else if username.Some? && Catalog.FindUser(t.users, username.value, t.nextId).Some? then Outcome(BAD_REQUEST, t)
    else if username.None? then Outcome(SERVER_ERROR, t)
    else
      var u := User(username.value, hash, 150, false);
      Catalog.InsertUserKeepsUnique(t.users, t.nextId, u);
      Outcome(CREATED, Store.WithUser(t, u))
  }

  method Register(db: Store.Database, username: Option<string>, password: Option<string>, hash: string)
    returns (status: int)
    requires db.Valid()
    modifies db
    ensures db.Valid()
    ensures Outcome(status, db.View()) == RegisterOutcome(old(db.View()), username, password, hash)
  {
    if !Truthy(password) {
      return BAD_REQUEST;
    }
    if username.Some? && Catalog.FindUser(db.users, username.value, db.nextId).Some? {
      return BAD_REQUEST;
    }
    if username.None? {
      return SERVER_ERROR;
    }
    var id := db.InsertUser(User(username.value, hash, 150, false));
    status := CREATED;
  }

  // ---------------------------------------------------------------------
  // api_delete_from_bdd and save_history
  // ---------------------------------------------------------------------

  /** The row `save_history` commits: the owner, the name, both file names
      (null for a missing File row), the date, and the default status. */
  function DeletionRecord(t: Tables, user: nat, b: Button, imageId: nat, soundId: nat, now: int): HistoryRow {
    HistoryRow(user, None, b.name, Search.FileName(t, Some(imageId)), Search.FileName(t, Some(soundId)),
               None, None, Deleted, now)
  }

  /** The deletions the final commit applies: the first Linked row of the
      button, whoever owns it, the Uploaded row and both File rows. */
  function PurgeButton(t: Tables, b: nat, imageId: nat, soundId: nat): (r: Tables)
    ensures Store.Fresh(t) ==> Store.Fresh(r)
    ensures r.buttons == t.buttons - {b} && r.files == t.files - {soundId} - {imageId}
    ensures r == t.(links := r.links, buttons := r.buttons, files := r.files)
    ensures LinkTable.FirstOfButton(t.links, b).None? ==> r.links == t.links
    ensures LinkTable.FirstOfButton(t.links, b).Some? ==>
      r.links == LinkTable.RemoveAt(t.links, LinkTable.FirstOfButton(t.links, b).value)
  {
    var links := match LinkTable.FirstOfButton(t.links, b)
      case None => t.links
      case Some(k) => LinkTable.RemoveAt(t.links, k);
    t.(links := links, buttons := t.buttons - {b}, files := t.files - {soundId} - {imageId})
  }

  /** The button is the first whose image is `imageId`; without one,
      reading its id fails, so the "not found" branch is never reached
      and the answer is 500 with nothing written. Otherwise the history row
      is committed first, and stays whatever follows. A missing sound or
      image File row fails (500) when its name is read for the removal
      from disk, after the removals already done; otherwise both files
      leave the disk and the rows go. */
  function DeleteFromBddOutcome(t: Tables, user: nat, imageId: nat, soundId: nat, now: int): (r: Outcome)
    requires Store.Fresh(t)
    ensures Store.Fresh(r.t)
    ensures r.status == OK || r.status == SERVER_ERROR
    ensures var b := Catalog.FindButtonByImage(t.buttons, imageId, t.nextId);
      && (b.None? ==> r == Outcome(SERVER_ERROR, t))
      && (b.Some? ==>
            && (r.status == OK <==> soundId in t.files && imageId in t.files)
            && t.nextId !in t.history
            && r.t.history == t.history[t.nextId := DeletionRecord(t, user, t.buttons[b.value], imageId, soundId, now)]
            && r.t.history[t.nextId].status == Deleted
            && r.t.history[t.nextId].name == t.buttons[b.value].name
            && r.t.nextId == t.nextId + 1
            // users, categories, favorites and plays never change
            && r.t == t.(history := r.t.history, nextId := r.t.nextId, disk := r.t.disk,
                         links := r.t.links, buttons := r.t.buttons, files := r.t.files))
      // no sound row: only the history row is written
      && (b.Some? && soundId !in t.files ==>
            r.t == t.(history := r.t.history, nextId := r.t.nextId))
      // a sound row but no image row: the sound file has left the disk too
      && (b.Some? && soundId in t.files && imageId !in t.files ==>
            r.t == t.(history := r.t.history, nextId := r.t.nextId,
                      disk := t.disk - {DiskPath(Sound, t.files[soundId].filename)}))
      && (r.status == OK ==>
            && r.t.buttons == t.buttons - {b.value}
            && r.t.files == t.files - {soundId} - {imageId}
            && r.t.disk == t.disk - {DiskPath(Sound, t.files[soundId].filename)} - {DiskPath(Image, t.files[imageId].filename)}
            && r.t.history[t.nextId].soundFilename == Some(t.files[soundId].filename)
            && r.t.history[t.nextId].imageFilename == Some(t.files[imageId].filename)
            && (LinkTable.FirstOfButton(t.links, b.value).None? ==> r.t.links == t.links)
            && (LinkTable.FirstOfButton(t.links, b.value).Some? ==>
                  r.t.links == LinkTable.RemoveAt(t.links, LinkTable.FirstOfButton(t.links, b.value).value)))
  {
    match Catalog.FindButtonByImage(t.buttons, imageId, t.nextId)
    case None => Outcome(SERVER_ERROR, t)
    case Some(b) =>
      var t1 := Store.WithHistory(t, DeletionRecord(t, user, t.buttons[b], imageId, soundId, now));
      if soundId !in t.files then Outcome(SERVER_ERROR, t1)
      else
        var t2 := Store.Unsaved(t1, DiskPath(Sound, t.files[soundId].filename));
        if imageId !in t.files then Outcome(SERVER_ERROR, t2)
        else Outcome(OK, PurgeButton(Store.Unsaved(t2, DiskPath(Image, t.files[imageId].filename)), b, imageId, soundId))
  }

  method DeleteFromBdd(db: Store.Database, user: nat, imageId: nat, soundId: nat, now: int) returns (status: int)
    requires db.Valid()
    modifies db
    ensures db.Valid()
    ensures Outcome(status, db.View()) == DeleteFromBddOutcome(old(db.View()), user, imageId, soundId, now)
  {
    var found := Catalog.FindButtonByImage(db.buttons, imageId, db.nextId);
    if found.None? {
      return SERVER_ERROR;
    }
    var b := found.value;
    var record := DeletionRecord(db.View(), user, db.buttons[b], imageId, soundId, now);
    var historyId := db.InsertHistory(record);
    if soundId !in db.files {
      return SERVER_ERROR;
    }
    db.RemoveFromDisk(DiskPath(Sound, db.files[soundId].filename));
    if imageId !in db.files {
      return SERVER_ERROR;
    }
    db.RemoveFromDisk(DiskPath(Image, db.files[imageId].filename));
    Purge(db, b, imageId, soundId);
    status := OK;
  }

  method Purge(db: Store.Database, b: nat, imageId: nat, soundId: nat)
    requires db.Valid()
    modifies db
    ensures db.Valid()
    ensures db.View() == PurgeButton(old(db.View()), b, imageId, soundId)
  {
    var k := LinkTable.FirstOfButton(db.links, b);
    if k.Some? {
      db.LinkRemoveAt(k.value);
    }
    db.DeleteButton(b);
    db.DeleteFile(soundId);
    db.DeleteFile(imageId);
  }

  // ---------------------------------------------------------------------
  // api_restore_from_history: POST /api/restore_from_history/<history_id>
  // ---------------------------------------------------------------------

  predicate Owns(t: Tables, user: nat, historyId: nat) {
    historyId in t.history && t.history[historyId].owner == user
  }

  /** A history row the caller does not own is 404, a restored one 400, a
      row without both file names fails the NOT NULL of File (500, nothing
      written). Otherwise new File rows take the recorded names, a new
      Uploaded row the recorded name, with no category; it is linked at the
      caller's end, and the row becomes restored. */
  function RestoreOutcome(t: Tables, user: nat, historyId: nat): (r: Outcome)
    requires Store.Fresh(t)
    ensures Store.Fresh(r.t)
    ensures r.status == NOT_FOUND <==> !Owns(t, user, historyId)
    ensures r.status == BAD_REQUEST <==> Owns(t, user, historyId) && t.history[historyId].status.Restored?
    ensures r.status == SERVER_ERROR <==>
      (Owns(t, user, historyId) && t.history[historyId].status.Deleted?
       && (t.history[historyId].imageFilename.None? || t.history[historyId].soundFilename.None?))
    ensures r.status == OK <==>
      (Owns(t, user, historyId) && t.history[historyId].status.Deleted?
       && t.history[historyId].imageFilename.Some? && t.history[historyId].soundFilename.Some?)
    ensures r.status != OK ==> r.t == t
    ensures r.status == OK ==>
      var h := t.history[historyId];
      var b := t.nextId + 2;
      && r.t.history == t.history[historyId := h.(status := Restored)]
      && r.t.files == t.files[t.nextId := FileRow(h.imageFilename.value, Image)]
                             [t.nextId + 1 := FileRow(h.soundFilename.value, Sound)]
      && b !in t.buttons
      && r.t.buttons == t.buttons[b := Button(t.nextId, Some(t.nextId + 1), user, h.name, None)]
      && r.t.links == t.links + [Link(user, b, LinkTable.AppendTri(t.links, user))]
      && r.t.categories == t.categories && r.t.disk == t.disk
  {
    if !Owns(t, user, historyId) then Outcome(NOT_FOUND, t)
    else
      var h := t.history[historyId];
      if h.status.Restored? then Outcome(BAD_REQUEST, t)
      else if h.imageFilename.None? || h.soundFilename.None? then Outcome(SERVER_ERROR, t)
      else
        var t1 := Store.RecordFiles(t, h.imageFilename.value, h.soundFilename.value);
        var t2 := LinkNewButton(t1, Button(t.nextId, Some(t.nextId + 1), user, h.name, None));
        Outcome(OK, t2.(history := t2.history[historyId := h.(status := Restored)]))
  }

  /** The state machine: a row restored once is refused the second time. */
  lemma RestoreOnce(t: Tables, user: nat, historyId: nat)
    requires Store.Fresh(t)
    requires RestoreOutcome(t, user, historyId).status == OK
    ensures RestoreOutcome(RestoreOutcome(t, user, historyId).t, user, historyId) == Outcome(BAD_REQUEST, RestoreOutcome(t, user, historyId).t)
  {
  }

  method Restore(db: Store.Database, user: nat, historyId: nat) returns (status: int)
    requires db.Valid()
    modifies db
    ensures db.Valid()
    ensures Outcome(status, db.View()) == RestoreOutcome(old(db.View()), user, historyId)
  {
    if !Owns(db.View(), user, historyId) {
      return NOT_FOUND;
    }
    var h := db.history[historyId];
    if h.status.Restored? {
      return BAD_REQUEST;
    }
    if h.imageFilename.None? || h.soundFilename.None? {
      return SERVER_ERROR;
    }
    var imageId, soundId := Store.InsertFiles(db, h.imageFilename.value, h.soundFilename.value);
    CreateLinkedButton(db, Button(imageId, Some(soundId), user, h.name, None));
    db.SetHistory(historyId, h.(status := Restored));
    status := OK;
  }

  // ---------------------------------------------------------------------
  // api_modify_button_name: POST /api/modify_button_name
  // ---------------------------------------------------------------------

  /** A missing or empty name, or a missing or zero image id, is 400; an
      image no button has is 404. Otherwise the first button with that
      image is renamed and nothing else changes. */
  function RenameOutcome(t: Tables, name: Option<string>, imageId: Option<int>): (r: Outcome)
    requires Store.Fresh(t)
    ensures Store.Fresh(r.t)
    ensures r.status == BAD_REQUEST <==> !Truthy(name) || imageId.None? || imageId.value == 0
    ensures r.status == NOT_FOUND <==>
      (Truthy(name) && imageId.Some? && imageId.value != 0
       && (imageId.value < 0 || forall id :: id in t.buttons ==> t.buttons[id].imageId != imageId.value))
    ensures r.status == OK <==>
      (Truthy(name) && imageId.Some? && imageId.value > 0
       && exists id :: id in t.buttons && t.buttons[id].imageId == imageId.value)
    ensures r.status != OK ==> r.t == t
    ensures r.status == OK ==>
      var b := Catalog.FindButtonByImage(t.buttons, imageId.value as nat, t.nextId).value;
      r.t == t.(buttons := t.buttons[b := t.buttons[b].(name := name.value)])
  {
    if !Truthy(name) || imageId.None? || imageId.value == 0 then Outcome(BAD_REQUEST, t)
    else if imageId.value < 0 then Outcome(NOT_FOUND, t)
    else match Catalog.FindButtonByImage(t.buttons, imageId.value as nat, t.nextId)
      case None => Outcome(NOT_FOUND, t)
      case Some(b) => Outcome(OK, t.(buttons := t.buttons[b := t.buttons[b].(name := name.value)]))
  }

  method Rename(db: Store.Database, name: Option<string>, imageId: Option<int>) returns (status: int)
    requires db.Valid()
    modifies db
    ensures db.Valid()
    ensures Outcome(status, db.View()) == RenameOutcome(old(db.View()), name, imageId)
  {
    if !Truthy(name) || imageId.None? || imageId.value == 0 {
      return BAD_REQUEST;
    }
    if imageId.value < 0 {
      return NOT_FOUND;
    }
    var b := Catalog.FindButtonByImage(db.buttons, imageId.value as nat, db.nextId);
    if b.None? {
      return NOT_FOUND;
    }
    db.SetButton(b.value, db.buttons[b.value].(name := name.value));
    status := OK;
  }

  // ---------------------------------------------------------------------
  // api_modify_image and api_modify_sound
  // ---------------------------------------------------------------------

  /** The file of kind `kind` behind File row `id` is replaced by one
      stored as `stored`: the old file leaves the folder, the new one is
      saved there, and the row takes the new name. */
  function ReplaceFile(t: Tables, kind: Kind, id: nat, stored: string): (r: Tables)
    requires Store.Fresh(t) && id in t.files
    ensures Store.Fresh(r)
    ensures r.files == t.files[id := t.files[id].(filename := stored)]
    ensures r.disk == t.disk - {DiskPath(kind, t.files[id].filename)} + {DiskPath(kind, stored)}
    ensures r == t.(files := r.files, disk := r.disk)
  {
    var t1 := Store.Unsaved(t, DiskPath(kind, t.files[id].filename));
    var t2 := Store.Saved(t1, DiskPath(kind, stored));
    t2.(files := t2.files[id := t2.files[id].(filename := stored)])
  }

  /** Replacing the file of kind `kind`: a missing part, id or button name,
      then an empty file name, is 400; an unknown File row is 404.
      Otherwise the file is replaced under a name built from the button
      name. No Uploaded row changes: the button keeps its old name whatever
      name was sent. */
  function ModifyFileOutcome(t: Tables, kind: Kind, upload: Option<string>, fileId: Option<nat>,
                             buttonName: Option<string>, hex: string, alnum: char -> bool): (r: Outcome)
    requires Store.Fresh(t)
    ensures Store.Fresh(r.t)
    ensures r.status == BAD_REQUEST <==> upload.None? || fileId.None? || buttonName.None? || upload.value == ""
    ensures r.status == NOT_FOUND <==>
      upload.Some? && fileId.Some? && buttonName.Some? && upload.value != "" && fileId.value !in t.files
    ensures r.status == OK <==>
      upload.Some? && fileId.Some? && buttonName.Some? && upload.value != "" && fileId.value in t.files
    ensures r.status != OK ==> r.t == t
    ensures r.status == OK ==>
      r.t == ReplaceFile(t, kind, fileId.value, FileUtils.PyStoredFilename(upload.value, buttonName.value, hex, alnum))
  {
    if upload.None? || fileId.None? || buttonName.None? || upload.value == "" then Outcome(BAD_REQUEST, t)
    else if fileId.value !in t.files then Outcome(NOT_FOUND, t)
    else Outcome(OK, ReplaceFile(t, kind, fileId.value, FileUtils.PyStoredFilename(upload.value, buttonName.value, hex, alnum)))
  }

  method ModifyFile(db: Store.Database, kind: Kind, upload: Option<string>, fileId: Option<nat>,
                    buttonName: Option<string>, hex: string, alnum: char -> bool) returns (status: int)
    requires db.Valid()
    modifies db
    ensures db.Valid()
    ensures Outcome(status, db.View()) == ModifyFileOutcome(old(db.View()), kind, upload, fileId, buttonName, hex, alnum)
  {
    if upload.None? || fileId.None? || buttonName.None? || upload.value == "" {
      return BAD_REQUEST;
    }
    var id := fileId.value;
    if id !in db.files {
      return NOT_FOUND;
    }
    var stored := FileUtils.PyStoredFilename(upload.value, buttonName.value, hex, alnum);
    db.RemoveFromDisk(DiskPath(kind, db.files[id].filename));
    db.SaveToDisk(DiskPath(kind, stored));
    db.SetFile(id, db.files[id].(filename := stored));
    status := OK;
  }

  // ---------------------------------------------------------------------
  // delete_button: DELETE /api/buttons?button_id=...
  // ---------------------------------------------------------------------

  /** A missing, non-integer or zero id is 400, an unknown button 404.
      Otherwise the caller's first row for the button, if any, and the
      Uploaded row are deleted, whoever uploaded it; the File rows stay. */
  function DeleteButtonOutcome(t: Tables, user: nat, buttonId: Option<int>): (r: Outcome)
    requires Store.Fresh(t)
    ensures Store.Fresh(r.t)
    ensures r.status == BAD_REQUEST <==> buttonId.None? || buttonId.value == 0
    ensures r.status == NOT_FOUND <==> buttonId.Some? && buttonId.value != 0 && !ButtonExists(t, buttonId)
    ensures r.status == OK <==> buttonId.Some? && buttonId.value != 0 && ButtonExists(t, buttonId)
    ensures r.status != OK ==> r.t == t
    ensures r.status == OK ==>
      var b := buttonId.value as nat;
      && r.t == t.(buttons := t.buttons - {b}, links := r.t.links)
      && LinkTable.Count(r.t.links, user, b)
         == LinkTable.Count(t.links, user, b) - (if LinkTable.Has(t.links, user, b) then 1 else 0)
      && forall l :: l in t.links && !LinkTable.Matches(l, user, b) ==> l in r.t.links
  {
    if buttonId.None? || buttonId.value == 0 then Outcome(BAD_REQUEST, t)
    else if !ButtonExists(t, buttonId) then Outcome(NOT_FOUND, t)
    else
      var b := buttonId.value as nat;
      Outcome(OK, t.(buttons := t.buttons - {b}, links := LinkTable.RemoveFirst(t.links, user, b)))
  }

  method DeleteButton(db: Store.Database, user: nat, buttonId: Option<int>) returns (status: int)
    requires db.Valid()
    modifies db
    ensures db.Valid()
    ensures Outcome(status, db.View()) == DeleteButtonOutcome(old(db.View()), user, buttonId)
  {
    if buttonId.None? || buttonId.value == 0 {
      return BAD_REQUEST;
    }
    if !ButtonExists(db.View(), buttonId) {
      return NOT_FOUND;
    }
    var b := buttonId.value as nat;
    var k := LinkTable.FirstOfPair(db.links, user, b);
    if k.Some? {
      db.LinkRemoveAt(k.value);
    }
    db.DeleteButton(b);
    status := OK;
  }
}
