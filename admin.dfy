/** The user administration routes (src/routes/admin.mjs): the user list,
    deleting a user and flipping a user's admin flag, all for admins only,
    and never on the acting admin's own row. */
module AdminRoutes {
  import opened Records
  import opened Db

  /** `req.session.user && req.session.user.isAdmin`: the flag as it was at
      login, read from the session snapshot. */
  predicate IsAdminSession(session: Option<User>) {
    session.Some? && session.value.isAdmin
  }

  /** GET /admin/users: the whole table, or 403. */
  function ListUsers(us: seq<User>, session: Option<User>): (r: (Outcome, Option<seq<User>>))
    ensures r.0 == Rendered <==> IsAdminSession(session)
    ensures !IsAdminSession(session) ==> r.0 == Forbidden && r.1.None?
    ensures IsAdminSession(session) ==> r.1 == Some(us)
  {
    if !IsAdminSession(session) then (Forbidden, None) else (Rendered, Some(us))
  }

  /** `user.destroy()`: the table without the row of key `id`. */
  function WithoutUser(us: seq<User>, id: int): (r: seq<User>)
    ensures |r| == |us| - (if FindUser(us, id).Some? then 1 else 0)
  {
    match FindUser(us, id)
    case None => us
    case Some(i) => us[..i] + us[i + 1..]
  }

  /** Deleting removes the row of that key and no other, and keeps the keys ascending. */
  lemma WithoutUserRemovesKey(us: seq<User>, id: int)
    requires UserKeys(us)
    ensures UserKeys(WithoutUser(us, id))
    ensures forall u :: u in WithoutUser(us, id) <==> u in us && u.id != id
  {
    if FindUser(us, id).Some? {
      var i := FindUser(us, id).value;
      var r := WithoutUser(us, id);
      assert forall k :: 0 <= k < |r| ==> r[k] == us[if k < i then k else k + 1];
      forall u ensures u in r <==> u in us && u.id != id {
        if u in us && u.id != id {
          var j :| 0 <= j < |us| && us[j] == u;
          assert r[if j < i then j else j - 1] == u;
        }
      }
    }
  }

  /** `user.update({ isAdmin: !user.isAdmin })` on the row of key `id`. */
  function FlipAdmin(us: seq<User>, id: int): (r: seq<User>)
    ensures |r| == |us|
    ensures forall k :: 0 <= k < |us| ==>
              r[k] == (if us[k].id == id then us[k].(isAdmin := !us[k].isAdmin) else us[k])
  {
    if us == [] then []
    else [if us[0].id == id then us[0].(isAdmin := !us[0].isAdmin) else us[0]] + FlipAdmin(us[1..], id)
  }

  /** Two flips of the same user give the table back. */
  lemma FlipAdminTwice(us: seq<User>, id: int)
    ensures FlipAdmin(FlipAdmin(us, id), id) == us
  {
    var r := FlipAdmin(FlipAdmin(us, id), id);
    assert forall k :: 0 <= k < |us| ==> r[k] == us[k];
  }

  /** The flip changes no key. */
  lemma FlipAdminKeys(us: seq<User>, id: int)
    requires UserKeys(us)
    ensures UserKeys(FlipAdmin(us, id))
  {
    var r := FlipAdmin(us, id);
    assert forall k :: 0 <= k < |us| ==> r[k].id == us[k].id;
  }

  /** On a table with distinct keys the flip changes exactly the flag of the
      row with that key. */
  lemma FlipAdminTarget(us: seq<User>, id: int)
    requires UserKeys(us) && UserById(us, id).Some?
    ensures UserById(FlipAdmin(us, id), id) == Some(UserById(us, id).value.(isAdmin := !UserById(us, id).value.isAdmin))
  {
    var r := FlipAdmin(us, id);
    var i := FindUser(us, id).value;
    assert forall k :: 0 <= k < |us| ==> r[k].id == us[k].id;
    assert FindUser(r, id).value == i;
  }

  lemma FlipAdminOthers(us: seq<User>, id: int)
    ensures forall u :: u in us && u.id != id ==> u in FlipAdmin(us, id)
  {
    var r := FlipAdmin(us, id);
    forall u | u in us && u.id != id ensures u in r {
      var k :| 0 <= k < |us| && us[k] == u;
      assert r[k] == u;
    }
  }

  /** DELETE /admin/users/:id: 403 for a non-admin, 404 for an unknown key,
      400 for one's own key, otherwise the row removed. */
  method DeleteUser(db: Database, session: Option<User>, id: int) returns (o: Outcome)
    requires db.Valid()
    modifies db
    ensures db.Valid()
    ensures db.homework == old(db.homework) && db.completions == old(db.completions)
    ensures db.comments == old(db.comments) && db.notifications == old(db.notifications)
    ensures !IsAdminSession(session) ==> o == Forbidden
    ensures IsAdminSession(session) && UserById(old(db.users), id).None? ==> o == NotFound
    ensures IsAdminSession(session) && UserById(old(db.users), id).Some? && id == session.value.id ==> o == BadRequest
    ensures o == Redirected <==>
              IsAdminSession(session) && UserById(old(db.users), id).Some? && id != session.value.id
    ensures o != Redirected ==> db.users == old(db.users)
    ensures o == Redirected ==>
              db.users == WithoutUser(old(db.users), id)
              && forall u :: u in db.users <==> u in old(db.users) && u.id != id
    ensures session.Some? ==> forall u :: u in old(db.users) && u.id == session.value.id ==> u in db.users
  {
    if !IsAdminSession(session) {
      return Forbidden;
    }
    var user := UserById(db.users, id);
    if user.None? {
      return NotFound;
    }
    if user.value.id == session.value.id {
      return BadRequest;
    }
    WithoutUserRemovesKey(db.users, id);
    db.users := WithoutUser(db.users, id);
    o := Redirected;
  }

  /** POST /admin/users/:id/toggle-admin: the same checks, then the flag flipped. */
  method ToggleAdmin(db: Database, session: Option<User>, id: int) returns (o: Outcome)
    requires db.Valid()
    modifies db
    ensures db.Valid()
    ensures db.homework == old(db.homework) && db.completions == old(db.completions)
    ensures db.comments == old(db.comments) && db.notifications == old(db.notifications)
    ensures !IsAdminSession(session) ==> o == Forbidden
    ensures IsAdminSession(session) && UserById(old(db.users), id).None? ==> o == NotFound
    ensures IsAdminSession(session) && UserById(old(db.users), id).Some? && id == session.value.id ==> o == BadRequest
    ensures o == Redirected <==>
              IsAdminSession(session) && UserById(old(db.users), id).Some? && id != session.value.id
    ensures o != Redirected ==> db.users == old(db.users)
    ensures o == Redirected ==>
              db.users == FlipAdmin(old(db.users), id)
              && UserById(db.users, id).Some?
              && UserById(db.users, id).value.isAdmin == !UserById(old(db.users), id).value.isAdmin
    ensures session.Some? ==> forall u :: u in old(db.users) && u.id == session.value.id ==> u in db.users
  {
    if !IsAdminSession(session) {
      return Forbidden;
    }
    var user := UserById(db.users, id);
    if user.None? {
      return NotFound;
    }
    if user.value.id == session.value.id {
      return BadRequest;
    }
    FlipAdminKeys(db.users, id);
    FlipAdminTarget(db.users, id);
    FlipAdminOthers(db.users, id);
    db.users := FlipAdmin(db.users, id);
    o := Redirected;
  }
}
