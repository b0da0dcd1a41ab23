/**
 * The two management windows (app.py, `UserManager` and `StockManager`).
 * What the dialogs return is passed in: `None` for a cancelled dialog, and
 * for a quantity, `None` also when Python's `int()` rejects the text.
 * `shown` is the list the window's Treeview displays, reloaded from the
 * database by each refresh.
 */
module Managers {
  import opened Wrappers
  import opened Store
  import opened Access

  /** What adding a user came to. */
  datatype AddUserOutcome =
    | Aborted              // no uid or no name was entered
    | Added(user: User)
    | Duplicate(uid: string)  // the insert raised IntegrityError

  /** The role `add_user` stores: the one entered, or "User" when none was. */
  function RoleOrDefault(roleIn: Option<string>): (role: string)
    ensures role != []
    ensures Truthy(roleIn) ==> role == roleIn.value
    ensures !Truthy(roleIn) ==> role == "User"
  {
    if Truthy(roleIn) then roleIn.value else "User"
  }

  /** What a stock operation came to. */
  datatype StockOutcome =
    | Skipped        // returned before any statement: no name, no selection or no quantity
    | Done
    | StockRefused   // the stock statement raised OverflowError: nothing changed
    | LedgerRefused  // the stock update was committed, then the log insert raised

  class UserManager {
    const db: Database
    var shown: seq<User>

    constructor (db: Database)
      ensures this.db == db && shown == db.users
    {
      this.db := db;
      shown := db.users;
    }

    /** `refresh_user_list`. */
    method Refresh()
      modifies this
      ensures shown == db.users
    {
      shown := db.users;
    }

    /** `add_user`: with a uid and a name, inserts the user unless the uid is taken. */
    method AddUser(uidIn: Option<string>, nameIn: Option<string>, roleIn: Option<string>)
      returns (r: AddUserOutcome)
      requires db.Valid()
      modifies this, db
      ensures db.Valid()
      ensures db.accessLog == old(db.accessLog) && db.stock == old(db.stock) && db.stockLog == old(db.stockLog)
      ensures !Truthy(uidIn) || !Truthy(nameIn) ==>
                r == Aborted && db.users == old(db.users) && shown == old(shown)
      ensures Truthy(uidIn) && Truthy(nameIn) ==>
                var u := User(uidIn.value, nameIn.value, RoleOrDefault(roleIn));
                var taken := HasUid(old(db.users), u.uid);
                && r == (if taken then Duplicate(u.uid) else Added(u))
                && db.users == (if taken then old(db.users) else old(db.users) + [u])
                && shown == db.users
    {
      if !Truthy(uidIn) {
        return Aborted;
      }
      if !Truthy(nameIn) {
        return Aborted;
      }
      var u := User(uidIn.value, nameIn.value, RoleOrDefault(roleIn));
      var ok := db.InsertUser(u);
      r := if ok then Added(u) else Duplicate(u.uid);
      Refresh();
    }

    /** `delete_user`: the selected row's uid is deleted once the deletion is confirmed. */
    method DeleteUser(selected: Option<nat>, confirm: bool)
      requires db.Valid()
      requires selected.Some? ==> selected.value < |shown|
      modifies this, db
      ensures db.Valid()
      ensures db.accessLog == old(db.accessLog) && db.stock == old(db.stock) && db.stockLog == old(db.stockLog)
      ensures selected.Some? && confirm ==>
                db.users == WithoutUid(old(db.users), old(shown)[selected.value].uid) && shown == db.users
      ensures !(selected.Some? && confirm) ==> db.users == old(db.users) && shown == old(shown)
    {
      if selected.None? {
        return;
      }
      var uid := shown[selected.value].uid;
      if confirm {
        db.DeleteUser(uid);
        Refresh();
      }
    }
  }

  class StockManager {
    const db: Database
    const userName: string
    const userUid: string
    var shown: seq<StockItem>

    /** Opened from the main frame with the identity of the logged-in user. */
    constructor (db: Database, userName: string, userUid: string)
      ensures this.db == db && this.userName == userName && this.userUid == userUid
      ensures shown == db.stock
    {
      this.db := db;
      this.userName := userName;
      this.userUid := userUid;
      shown := db.stock;
    }

    /** `refresh_stock_list`. */
    method Refresh()
      modifies this
      ensures shown == db.stock
    {
      shown := db.stock;
    }

    /**
     * `add_item`: with a name, inserts the item with the quantity entered, or 0
     * when none could be read, and logs that quantity as the change. A
     * quantity outside SQLite's range makes the insert raise, and nothing else
     * happens.
     */
    method AddItem(nameIn: Option<string>, qtyIn: Option<int>) returns (r: StockOutcome)
      modifies this, db
      ensures db.users == old(db.users) && db.accessLog == old(db.accessLog)
      ensures !Truthy(nameIn) ==>
                r == Skipped && db.stock == old(db.stock) && db.stockLog == old(db.stockLog) && shown == old(shown)
      ensures Truthy(nameIn) ==>
                var q := if qtyIn.Some? then qtyIn.value else 0;
                if Fits(q) then
                  && r == Done
                  && db.stock == old(db.stock) + [StockItem(nameIn.value, q)]
                  && db.stockLog == old(db.stockLog) + [StockLogEntry(nameIn.value, q, userName, userUid)]
                  && shown == db.stock
                else
                  r == StockRefused && db.stock == old(db.stock) && db.stockLog == old(db.stockLog) && shown == old(shown)
    {
      if !Truthy(nameIn) {
        return Skipped;
      }
      var name := nameIn.value;
      var q := if qtyIn.Some? then qtyIn.value else 0;
      var stored := db.InsertStock(StockItem(name, q));
      if !stored {
        return StockRefused;
      }
      var logged := db.InsertStockLog(StockLogEntry(name, q, userName, userUid));
      assert logged;
      r := Done;
      Refresh();
    }

    /**
     * `update_quantity`: every row named like the selected one gets the new
     * quantity, and the change against the quantity displayed for the selected
     * row is logged. Without a selection or a readable quantity nothing happens.
     * A new quantity outside SQLite's range makes the update raise; a change
     * outside it lets the committed update stand and makes the log insert raise.
     */
    method UpdateQuantity(selected: Option<nat>, newQty: Option<int>) returns (r: StockOutcome)
      requires selected.Some? ==> selected.value < |shown|
      modifies this, db
      ensures db.users == old(db.users) && db.accessLog == old(db.accessLog)
      ensures selected.None? || newQty.None? ==>
                r == Skipped && db.stock == old(db.stock) && db.stockLog == old(db.stockLog) && shown == old(shown)
      ensures selected.Some? && newQty.Some? ==>
                var row := old(shown)[selected.value];
                var change := newQty.value - row.quantity;
                && r == (if !Fits(newQty.value) then StockRefused else if !Fits(change) then LedgerRefused else Done)
                && db.stock == (if r == StockRefused then old(db.stock)
                                else SetQuantity(old(db.stock), row.name, newQty.value))
                && db.stockLog == (if r == Done then old(db.stockLog) + [StockLogEntry(row.name, change, userName, userUid)]
                                   else old(db.stockLog))
                && shown == (if r == Done then db.stock else old(shown))
    {
      if selected.None? {
        return Skipped;
      }
      var name := shown[selected.value].name;
      var current := shown[selected.value].quantity;
      if newQty.None? {
        return Skipped;
      }
      var change := newQty.value - current;
      var stored := db.UpdateStock(name, newQty.value);
      if !stored {
        return StockRefused;
      }
      var logged := db.InsertStockLog(StockLogEntry(name, change, userName, userUid));
      if !logged {
        return LedgerRefused;
      }
      r := Done;
      Refresh();
    }
  }
}
