/** The administration routes of the Express back end
    (Backend/routes/admin.js): the guards and updates of toggle-admin,
    delete-user and restore-deleted-button. The caller is an administrator;
    `caller` is its id. The audit-log query selection is
    `Limits.SelectAuditQuery`. */
module AdminRoutes {
  import opened Rows
  import LinkTable
  import HistoryTable
  import Store
  import Limits
  import ExpressApp

  /** The user the path names, when `parseInt` of it is an id with a row. */
  function TargetUser(t: Tables, rawId: string): (r: Option<nat>)
    ensures r.Some? <==> (Limits.ParseIntNoRadix(rawId).Some? && Limits.ParseIntNoRadix(rawId).value >= 0 &&
      Limits.ParseIntNoRadix(rawId).value as nat in t.users)
    ensures r.Some? ==> r.value as int == Limits.ParseIntNoRadix(rawId).value && r.value in t.users
  {
    var id := Limits.ParseIntNoRadix(rawId);
    if id.Some? && id.value >= 0 && id.value as nat in t.users then Some(id.value as nat) else None
  }

  // ---------------------------------------------------------------------
  // POST /users/:userId/toggle-admin

  /** The caller's own id is refused with 400 before any lookup, a missing
      user is 404, otherwise the flag is negated. */
  function ToggleAdminOutcome(t: Tables, caller: nat, rawId: string): (r: Outcome)
    requires Store.Fresh(t)
    ensures Store.Fresh(r.t)
    ensures r.status == BAD_REQUEST <==> Limits.ParseIntNoRadix(rawId) == Some(caller)
    ensures r.status == NOT_FOUND <==> (Limits.ParseIntNoRadix(rawId) != Some(caller) && TargetUser(t, rawId).None?)
    ensures r.status == OK <==> (Limits.ParseIntNoRadix(rawId) != Some(caller) && TargetUser(t, rawId).Some?)
    ensures r.status != OK ==> r.t == t
    ensures r.status == OK ==> var id := TargetUser(t, rawId).value;
      && id != caller
      && r.t == t.(users := t.users[id := t.users[id].(isAdmin := !t.users[id].isAdmin)])
      && r.t.users[id].isAdmin == !t.users[id].isAdmin
  {
    if Limits.ParseIntNoRadix(rawId) == Some(caller) then Outcome(BAD_REQUEST, t)
    else
      match TargetUser(t, rawId)
      case None => Outcome(NOT_FOUND, t)
      case Some(id) => Outcome(OK, t.(users := t.users[id := t.users[id].(isAdmin := !t.users[id].isAdmin)]))
  }

  /** An administrator cannot change its own flag. */
  lemma ToggleAdminSelf(t: Tables, caller: nat)
    requires Store.Fresh(t)
    ensures ToggleAdminOutcome(t, caller, Limits.Decimal(caller)) == Outcome(BAD_REQUEST, t)
  {
    Limits.NoRadixDecimal(caller);
  }

  /** Toggling another user twice restores the table. */
  lemma ToggleAdminTwice(t: Tables, caller: nat, id: nat)
    requires Store.Fresh(t) && id in t.users && id != caller
    ensures var once := ToggleAdminOutcome(t, caller, Limits.Decimal(id));
      && once.status == OK
      && ToggleAdminOutcome(once.t, caller, Limits.Decimal(id)) == Outcome(OK, t)
  {
    Limits.NoRadixDecimal(id);
    var once := ToggleAdminOutcome(t, caller, Limits.Decimal(id));
    assert once.t.users[id := once.t.users[id].(isAdmin := !once.t.users[id].isAdmin)] == t.users;
  }

  method ToggleAdmin(db: Store.Database, caller: nat, rawId: string) returns (status: int)
    requires db.Valid()
    modifies db
    ensures db.Valid()
    ensures Outcome(status, db.View()) == ToggleAdminOutcome(old(db.View()), caller, rawId)
  {
    if Limits.ParseIntNoRadix(rawId) == Some(caller) {
      return BAD_REQUEST;
    }
    var target := TargetUser(db.View(), rawId);
    if target.None? {
      return NOT_FOUND;
    }
    var id := target.value;
    db.SetUser(id, db.users[id].(isAdmin := !db.users[id].isAdmin));
    status := OK;
  }

  // ---------------------------------------------------------------------
  // DELETE /users/:userId

  /** Self-deletion is 400, a missing user 404, otherwise the row goes. */
  function DeleteUserOutcome(t: Tables, caller: nat, rawId: string): (r: Outcome)
    requires Store.Fresh(t)
    ensures Store.Fresh(r.t)
    ensures r.status == BAD_REQUEST <==> Limits.ParseIntNoRadix(rawId) == Some(caller)
    ensures r.status == NOT_FOUND <==> (Limits.ParseIntNoRadix(rawId) != Some(caller) && TargetUser(t, rawId).None?)
    ensures r.status == OK <==> (Limits.ParseIntNoRadix(rawId) != Some(caller) && TargetUser(t, rawId).Some?)
    ensures r.status != OK ==> r.t == t
    ensures r.status == OK ==> var id := TargetUser(t, rawId).value;
      && id != caller && id !in r.t.users && (caller in t.users ==> caller in r.t.users)
    ensures r.status == OK ==> r.t == t.(users := t.users - {TargetUser(t, rawId).value})
  {
    if Limits.ParseIntNoRadix(rawId) == Some(caller) then Outcome(BAD_REQUEST, t)
    else
      match TargetUser(t, rawId)
      case None => Outcome(NOT_FOUND, t)
      case Some(id) => Outcome(OK, t.(users := t.users - {id}))
  }

  /** A deleted user is gone: deleting it again is 404. */
  lemma DeleteUserOnce(t: Tables, caller: nat, id: nat)
    requires Store.Fresh(t) && id in t.users && id != caller
    ensures var once := DeleteUserOutcome(t, caller, Limits.Decimal(id));
      && once.status == OK
      && DeleteUserOutcome(once.t, caller, Limits.Decimal(id)) == Outcome(NOT_FOUND, once.t)
  {
    Limits.NoRadixDecimal(id);
  }

  method DeleteUser(db: Store.Database, caller: nat, rawId: string) returns (status: int)
    requires db.Valid()
    modifies db
    ensures db.Valid()
    ensures Outcome(status, db.View()) == DeleteUserOutcome(old(db.View()), caller, rawId)
  {
    if Limits.ParseIntNoRadix(rawId) == Some(caller) {
      return BAD_REQUEST;
    }
    var target := TargetUser(db.View(), rawId);
    if target.None? {
      return NOT_FOUND;
    }
    db.DeleteUser(target.value);
    status := OK;
  }

  // ---------------------------------------------------------------------
  // POST /deleted-buttons/:id/restore

  /** `DeleteHistory.restore` throws for a missing row (500); otherwise the
      row becomes `restored` whatever its status was, and `Linked.create`
      links the owner to the button again at position 0. */
  function RestoreOutcome(t: Tables, id: nat): (r: Outcome)
    requires Store.Fresh(t)
    ensures Store.Fresh(r.t)
    ensures r.status == SERVER_ERROR <==> id !in t.history
    ensures r.status != SERVER_ERROR ==> r.status == OK
    ensures r.status == SERVER_ERROR ==> r.t == t
    ensures r.status == OK ==> var h := t.history[id];
      && r.t.history == t.history[id := h.(status := Restored)]
      && r.t.history[id].status.Restored?
      && (h.uploadedId.Some? ==> r.t == t.(history := r.t.history,
            links := LinkTable.Upsert(t.links, h.owner, h.uploadedId.value, 0)))
      && (h.uploadedId.None? ==> r.t == t.(history := r.t.history))
  {
    match HistoryTable.Restore(t.history, id)
    case None => Outcome(SERVER_ERROR, t)
    case Some(res) =>
      var h := res.0;
      var t1 := t.(history := res.1);
      if h.uploadedId.Some? then Outcome(OK, t1.(links := LinkTable.Upsert(t.links, h.owner, h.uploadedId.value, 0)))
      else Outcome(OK, t1)
  }

  /** Setting a pair's position again to the same value changes nothing. */
  lemma SetTriTwice(links: seq<Link>, user: nat, uploaded: nat, tri: int)
    ensures LinkTable.SetTri(LinkTable.SetTri(links, user, uploaded, tri), user, uploaded, tri)
         == LinkTable.SetTri(links, user, uploaded, tri)
  {
    var once := LinkTable.SetTri(links, user, uploaded, tri);
    var twice := LinkTable.SetTri(once, user, uploaded, tri);
    assert forall i :: 0 <= i < |once| ==> twice[i] == once[i];
  }

  /** `Linked.create` with the same arguments twice leaves what the first
      call left. */
  lemma UpsertTwice(links: seq<Link>, user: nat, uploaded: nat, tri: int)
    ensures LinkTable.Upsert(LinkTable.Upsert(links, user, uploaded, tri), user, uploaded, tri)
         == LinkTable.Upsert(links, user, uploaded, tri)
  {
    var l1 := LinkTable.Upsert(links, user, uploaded, tri);
    if LinkTable.Has(links, user, uploaded) {
      SetTriTwice(links, user, uploaded, tri);
      LinkTable.SamePairsHas(l1, links, user, uploaded);
    } else {
      assert l1[|links|] == Link(user, uploaded, tri);
      assert LinkTable.Has(l1, user, uploaded);
      var s := LinkTable.SetTri(l1, user, uploaded, tri);
      assert forall i :: 0 <= i < |l1| ==> s[i] == l1[i];
    }
  }

  /** Unlike the Flask restore, this one never refuses: restoring the same
      row again succeeds and changes nothing more. */
  lemma RestoreTwice(t: Tables, id: nat)
    requires Store.Fresh(t) && id in t.history
    ensures var once := RestoreOutcome(t, id);
      && once.status == OK
      && RestoreOutcome(once.t, id) == once
  {
    var h := t.history[id];
    var once := RestoreOutcome(t, id);
    assert once.t.history[id := once.t.history[id].(status := Restored)] == once.t.history;
    if h.uploadedId.Some? {
      UpsertTwice(t.links, h.owner, h.uploadedId.value, 0);
    }
  }

  /** An Express unlink followed by the administrator's restore of the row
      it recorded gives the owner one row for the button again, at
      position 0 after every other row. */
  lemma UnlinkThenRestore(t: Tables, user: nat, id: nat, now: int)
    requires Store.Fresh(t)
    requires LinkTable.Has(t.links, user, id) && id in t.buttons
    ensures var u := ExpressApp.UnlinkOutcome(t, user, Limits.Decimal(id), now);
      && u.status == OK
      && var r := RestoreOutcome(u.t, t.nextId);
      && r.status == OK
      && r.t.links == LinkTable.Remove(t.links, user, id) + [Link(user, id, 0)]
      && r.t.buttons == t.buttons
  {
    Limits.NoRadixDecimal(id);
    LinkTable.RemoveThenUpsert(t.links, user, id, 0);
  }

  method RestoreDeleted(db: Store.Database, id: nat) returns (status: int)
    requires db.Valid()
    modifies db
    ensures db.Valid()
    ensures Outcome(status, db.View()) == RestoreOutcome(old(db.View()), id)
  {
    var before := db.RestoreHistory(id);
    if before.None? {
      return SERVER_ERROR;
    }
    var h := before.value;
    if h.uploadedId.Some? {
      db.LinkUpsert(h.owner, h.uploadedId.value, 0);
    }
    status := OK;
  }
}
