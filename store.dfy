/**
 * The four tables of the application's SQLite database (app.py,
 * `create_tables`) and the statements the application runs on them.
 * Row ids and timestamps that the database fills in are not modelled.
 */
module Store {
  import opened Wrappers

  /** A row of `users`: `uid` is UNIQUE, `role` is "Admin" or "User" in practice. */
  datatype User = User(uid: string, name: string, role: string)

  /** The `status` column of `access_logs`: the text "Granted" or "Denied". */
  datatype Status = Granted | Denied

  /** A row of `access_logs`; its uid need not belong to any user. */
  datatype AccessEntry = AccessEntry(uid: string, status: Status)

  /** A row of `stock`; several rows may carry the same name. */
  datatype StockItem = StockItem(name: string, quantity: int)

  /** A row of `stock_logs`: a signed change and the acting user's identity. */
  datatype StockLogEntry = StockLogEntry(name: string, change: int, userName: string, userUid: string)

  /** The range of an SQLite INTEGER, a signed 64-bit number. */
  const MinInteger: int := -0x8000_0000_0000_0000
  const MaxInteger: int := 0x7fff_ffff_ffff_ffff

  /** Python's sqlite3 binds an int only in that range and raises OverflowError on any other. */
  predicate Fits(x: int) {
    MinInteger <= x <= MaxInteger
  }

  /** The master card the database is seeded with. */
  const DefaultAdminUid: string := "63:19:CE:12"
  const DefaultAdmin: User := User(DefaultAdminUid, "Default Admin", "Admin")

  /** `SELECT * FROM users WHERE uid = ?` finds a row. */
  predicate HasUid(users: seq<User>, uid: string) {
    exists k :: 0 <= k < |users| && users[k].uid == uid
  }

  /** The UNIQUE constraint on `users.uid`. */
  ghost predicate UniqueUids(users: seq<User>) {
    forall i, j :: 0 <= i < j < |users| ==> users[i].uid != users[j].uid
  }

  /** How many rows carry `uid`. */
  function UidCount(users: seq<User>, uid: string): (n: nat)
    ensures n <= |users|
    ensures n > 0 <==> HasUid(users, uid)
  {
    if users == [] then 0
    else
      var init := users[..|users| - 1];
      assert forall k :: 0 <= k < |init| ==> init[k] == users[k];
      UidCount(init, uid) + (if users[|users| - 1].uid == uid then 1 else 0)
  }

  /** Under the UNIQUE constraint a uid names at most one row. */
  lemma {:induction false} UniqueCount(users: seq<User>, uid: string)
    requires UniqueUids(users)
    ensures UidCount(users, uid) <= 1
    decreases |users|
  {
    if users != [] {
      var init := users[..|users| - 1];
      assert UniqueUids(init) by {
        forall i, j | 0 <= i < j < |init| ensures init[i].uid != init[j].uid {
          assert init[i] == users[i] && init[j] == users[j];
        }
      }
      UniqueCount(init, uid);
    }
  }

  /** `SELECT * FROM users WHERE uid = ?` followed by `fetchone()`: the first row with that uid. */
  function FindUser(users: seq<User>, uid: string): (r: Option<User>)
    ensures r.None? <==> !HasUid(users, uid)
    ensures r.Some? ==> exists k :: 0 <= k < |users| && users[k] == r.value && r.value.uid == uid
                                    && forall j :: 0 <= j < k ==> users[j].uid != uid
  {
    if users == [] then None
    else if users[0].uid == uid then Some(users[0])
    else
      var r := FindUser(users[1..], uid);
      assert forall k :: 1 <= k < |users| ==> users[1..][k - 1] == users[k];
      r
  }

  /** Under the UNIQUE constraint, looking up the uid of a row finds that row. */
  lemma FindRow(users: seq<User>, k: nat)
    requires UniqueUids(users) && k < |users|
    ensures FindUser(users, users[k].uid) == Some(users[k])
  {
    var r := FindUser(users, users[k].uid);
    var i :| 0 <= i < |users| && users[i] == r.value && r.value.uid == users[k].uid
             && forall j :: 0 <= j < i ==> users[j].uid != users[k].uid;
    assert !(k < i);
    assert !(i < k);
  }

  /** The users table after the bootstrap in `create_tables`. */
  function WithDefaultAdmin(users: seq<User>): (r: seq<User>)
    ensures HasUid(r, DefaultAdminUid)
    ensures users <= r && |r| <= |users| + 1
    ensures HasUid(users, DefaultAdminUid) <==> r == users
    ensures !HasUid(users, DefaultAdminUid) ==> r == users + [DefaultAdmin]
  {
    if HasUid(users, DefaultAdminUid) then users
    else
      assert (users + [DefaultAdmin])[|users|] == DefaultAdmin;
      users + [DefaultAdmin]
  }

  /**
   * The bootstrap adds the default admin only when its uid is absent, so the
   * admin's uid is then held by exactly one row and the constraint still holds.
   * A row it inserts is ("63:19:CE:12", "Default Admin", "Admin").
   */
  lemma BootstrapAdmin(users: seq<User>)
    requires UniqueUids(users)
    ensures UniqueUids(WithDefaultAdmin(users))
    ensures UidCount(WithDefaultAdmin(users), DefaultAdminUid) == 1
    ensures FindUser(WithDefaultAdmin(users), DefaultAdminUid).Some?
    ensures !HasUid(users, DefaultAdminUid) ==>
              FindUser(WithDefaultAdmin(users), DefaultAdminUid) == Some(User("63:19:CE:12", "Default Admin", "Admin"))
    ensures forall u :: u in users ==> u in WithDefaultAdmin(users)
  {
    var r := WithDefaultAdmin(users);
    if !HasUid(users, DefaultAdminUid) {
      assert r[|users|] == DefaultAdmin;
    }
    UniqueCount(r, DefaultAdminUid);
  }

  /** Running the bootstrap on every start-up adds the default admin at most once. */
  lemma BootstrapIdempotent(users: seq<User>)
    ensures WithDefaultAdmin(WithDefaultAdmin(users)) == WithDefaultAdmin(users)
  {
    if !HasUid(users, DefaultAdminUid) {
      assert (users + [DefaultAdmin])[|users|] == DefaultAdmin;
    }
  }

  /** The users table after `DELETE FROM users WHERE uid = ?`. */
  function WithoutUid(users: seq<User>, uid: string): (r: seq<User>)
    ensures |r| <= |users|
    ensures forall u :: u in r <==> u in users && u.uid != uid
  {
    if users == [] then []
    else
      var init := users[..|users| - 1];
      var last := users[|users| - 1];
      assert users == init + [last];
      WithoutUid(init, uid) + (if last.uid == uid then [] else [last])
  }

  /** Deleting rows keeps the UNIQUE constraint and leaves no row with the deleted uid. */
  lemma {:induction false} DeleteKeepsUnique(users: seq<User>, uid: string)
    requires UniqueUids(users)
    ensures UniqueUids(WithoutUid(users, uid)) && !HasUid(WithoutUid(users, uid), uid)
    decreases |users|
  {
    if users != [] {
      var init := users[..|users| - 1];
      var last := users[|users| - 1];
      assert UniqueUids(init) by {
        forall i, j | 0 <= i < j < |init| ensures init[i].uid != init[j].uid {
          assert init[i] == users[i] && init[j] == users[j];
        }
      }
      DeleteKeepsUnique(init, uid);
      var r0 := WithoutUid(init, uid);
      if last.uid != uid {
        forall i | 0 <= i < |r0| ensures r0[i].uid != last.uid {
          assert r0[i] in r0;
          var m :| 0 <= m < |init| && init[m] == r0[i];
          assert users[m] == init[m];
        }
      }
    }
  }

  /** The delete is a filter: it treats the rows one by one and keeps the survivors in their order. */
  lemma {:induction false} WithoutUidConcat(a: seq<User>, b: seq<User>, uid: string)
    ensures WithoutUid(a + b, uid) == WithoutUid(a, uid) + WithoutUid(b, uid)
    decreases |b|
  {
    if b == [] {
      assert a + b == a;
    } else {
      var b' := b[..|b| - 1];
      assert (a + b)[..|a + b| - 1] == a + b';
      assert (a + b)[|a + b| - 1] == b[|b| - 1];
      WithoutUidConcat(a, b', uid);
    }
  }

  /** A single row is kept exactly when its uid is not the deleted one. */
  lemma WithoutUidOne(u: User, uid: string)
    ensures WithoutUid([u], uid) == if u.uid == uid then [] else [u]
  {
    assert [u][..0] == [];
  }

  /** Deleting a uid no row carries changes nothing. */
  lemma {:induction false} DeleteAbsent(users: seq<User>, uid: string)
    requires !HasUid(users, uid)
    ensures WithoutUid(users, uid) == users
    decreases |users|
  {
    if users != [] {
      var init := users[..|users| - 1];
      assert !HasUid(init, uid);
      DeleteAbsent(init, uid);
      assert users == init + [users[|users| - 1]];
    }
  }

  /** Under the UNIQUE constraint no row before or after row `k` has its uid. */
  lemma UniqueAround(users: seq<User>, k: nat)
    requires UniqueUids(users) && k < |users|
    ensures !HasUid(users[..k], users[k].uid) && !HasUid(users[k + 1..], users[k].uid)
  {
    var before, after := users[..k], users[k + 1..];
    forall j | 0 <= j < |before| ensures before[j].uid != users[k].uid {
      assert before[j] == users[j];
    }
    forall j | 0 <= j < |after| ensures after[j].uid != users[k].uid {
      assert after[j] == users[k + 1 + j];
    }
  }

  /**
   * Under the UNIQUE constraint, deleting by the uid of row `k` removes that
   * row and keeps every other row, in its order.
   */
  lemma DeleteRow(users: seq<User>, k: nat)
    requires UniqueUids(users) && k < |users|
    ensures WithoutUid(users, users[k].uid) == users[..k] + users[k + 1..]
  {
    var uid := users[k].uid;
    var before, after := users[..k], users[k + 1..];
    assert users == (before + [users[k]]) + after;
    UniqueAround(users, k);
    WithoutUidConcat(before + [users[k]], after, uid);
    WithoutUidConcat(before, [users[k]], uid);
    WithoutUidOne(users[k], uid);
    DeleteAbsent(before, uid);
    DeleteAbsent(after, uid);
    assert before + [] == before;
  }

  /** Under the UNIQUE constraint, deleting by the uid of row `k` removes that row and no other. */
  lemma DeleteRowMembers(users: seq<User>, k: nat)
    requires UniqueUids(users) && k < |users|
    ensures forall u :: u in WithoutUid(users, users[k].uid) <==> u in users && u != users[k]
  {
    forall u | u in users && u.uid == users[k].uid ensures u == users[k] {
      var m :| 0 <= m < |users| && users[m] == u;
      assert !(m < k) && !(k < m);
    }
  }

  /** The stock table after `UPDATE stock SET quantity = ? WHERE name = ?`. */
  function SetQuantity(stock: seq<StockItem>, name: string, q: int): (r: seq<StockItem>)
    ensures |r| == |stock|
    ensures forall k :: 0 <= k < |r| ==> r[k].name == stock[k].name
    ensures forall k :: 0 <= k < |r| && stock[k].name == name ==> r[k].quantity == q
    ensures forall k :: 0 <= k < |r| && stock[k].name != name ==> r[k] == stock[k]
  {
    if stock == [] then []
    else
      var row := stock[0];
      var rest := SetQuantity(stock[1..], name, q);
      var r := [if row.name == name then StockItem(name, q) else row] + rest;
      assert forall k :: 1 <= k < |r| ==> r[k] == rest[k - 1] && stock[k] == stock[1..][k - 1];
      r
  }

  /** The application's database: its four tables. */
  class Database {
    var users: seq<User>
    var accessLog: seq<AccessEntry>
    var stock: seq<StockItem>
    var stockLog: seq<StockLogEntry>

    ghost predicate Valid()
      reads this
    {
      UniqueUids(users)
    }

    /** A database file that holds no rows yet. */
    constructor ()
      ensures Valid()
      ensures users == [] && accessLog == [] && stock == [] && stockLog == []
    {
      users, accessLog, stock, stockLog := [], [], [], [];
    }

    /** The tables are kept; the default admin is inserted unless a row already has its uid. */
    method CreateTables()
      requires Valid()
      modifies this
      ensures Valid()
      ensures users == WithDefaultAdmin(old(users))
      ensures accessLog == old(accessLog) && stock == old(stock) && stockLog == old(stockLog)
    {
      if FindUser(users, DefaultAdminUid).None? {
        var ok := InsertUser(DefaultAdmin);
      }
    }

    /** `INSERT INTO users`: refused (IntegrityError) when the uid is already present. */
    method InsertUser(u: User) returns (ok: bool)
      requires Valid()
      modifies this
      ensures Valid()
      ensures ok <==> !HasUid(old(users), u.uid)
      ensures users == if ok then old(users) + [u] else old(users)
      ensures accessLog == old(accessLog) && stock == old(stock) && stockLog == old(stockLog)
    {
      ok := !HasUid(users, u.uid);
      if ok {
        users := users + [u];
      }
    }

    /** `DELETE FROM users WHERE uid = ?`. */
    method DeleteUser(uid: string)
      requires Valid()
      modifies this
      ensures Valid()
      ensures users == WithoutUid(old(users), uid)
      ensures accessLog == old(accessLog) && stock == old(stock) && stockLog == old(stockLog)
    {
      DeleteKeepsUnique(users, uid);
      users := WithoutUid(users, uid);
    }

    /** `INSERT INTO access_logs (uid, status)`. */
    method InsertAccessLog(e: AccessEntry)
      modifies this
      ensures accessLog == old(accessLog) + [e]
      ensures users == old(users) && stock == old(stock) && stockLog == old(stockLog)
    {
      accessLog := accessLog + [e];
    }

    /** `INSERT INTO stock (name, quantity)`: refused (OverflowError) when the quantity does not fit. */
    method InsertStock(item: StockItem) returns (ok: bool)
      modifies this
      ensures ok <==> Fits(item.quantity)
      ensures stock == if ok then old(stock) + [item] else old(stock)
      ensures users == old(users) && accessLog == old(accessLog) && stockLog == old(stockLog)
    {
      ok := Fits(item.quantity);
      if ok {
        stock := stock + [item];
      }
    }

    /** `UPDATE stock SET quantity = ? WHERE name = ?`: refused (OverflowError) when the quantity does not fit. */
    method UpdateStock(name: string, q: int) returns (ok: bool)
      modifies this
      ensures ok <==> Fits(q)
      ensures stock == if ok then SetQuantity(old(stock), name, q) else old(stock)
      ensures users == old(users) && accessLog == old(accessLog) && stockLog == old(stockLog)
    {
      ok := Fits(q);
      if ok {
        stock := SetQuantity(stock, name, q);
      }
    }

    /** `INSERT INTO stock_logs (name, change, user_name, user_uid)`: refused (OverflowError) when the change does not fit. */
    method InsertStockLog(e: StockLogEntry) returns (ok: bool)
      modifies this
      ensures ok <==> Fits(e.change)
      ensures stockLog == if ok then old(stockLog) + [e] else old(stockLog)
      ensures users == old(users) && accessLog == old(accessLog) && stock == old(stock)
    {
      ok := Fits(e.change);
      if ok {
        stockLog := stockLog + [e];
      }
    }
  }
}
