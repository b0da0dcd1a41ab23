/**
 * Proved scenarios: the model applied to the situations the application is built
 * for: the bootstrap admin's card, an unknown card, a blank scan, a
 * duplicate user and a stock update.
 */
module Scenarios {
  import opened Wrappers
  import opened Text
  import opened ScanRouter
  import opened Framing
  import opened Store
  import opened Access
  import opened Managers

  /** The reader's line for a scan of `uid`; its format is taken as "Scanned UID: " + uid + "\r\n". */
  function ScanLine(uid: string): string {
    "Scanned UID: " + uid + "\r\n"
  }

  /** A stream of one complete line emits that line, stripped, and leaves no partial line. */
  lemma SingleLine(body: string)
    requires '\n' !in body
    ensures Lines(body + "\n") == [Strip(body)] && Rest(body + "\n") == []
  {
    NoNewlineNoLines(body);
    StepStream(body, '\n');
  }

  /** A line that is a text without surrounding white space, then white space, then `'\n'`, frames to that text. */
  lemma FramedLine(core: string, post: string)
    requires core == [] || (!IsSpace(core[0]) && !IsSpace(core[|core| - 1]))
    requires AllSpace(post) && '\n' !in core && '\n' !in post
    ensures Lines(core + post + "\n") == [core] && Rest(core + post + "\n") == []
  {
    var body := core + post;
    SingleLine(body);
    assert [] + core == core;
    StripExact([], core, post);
  }

  /** A single line is forwarded as routed, and stops the reader exactly when it is malformed. */
  lemma ForwardedOne(line: string)
    ensures Forwarded([line]) == Handed(Route(line))
    ensures Halts([line]) <==> Route(line).Malformed?
  {
    ForwardedStep([], line);
    assert [] + [line] == [line];
  }

  /** The device's line for a UID without surrounding white space frames to the line without its "\r\n". */
  lemma ScanLineStrips(uid: string)
    requires uid != [] && !IsSpace(uid[0]) && !IsSpace(uid[|uid| - 1]) && '\n' !in uid
    ensures Lines(ScanLine(uid)) == ["Scanned UID: " + uid] && Rest(ScanLine(uid)) == []
  {
    var core := "Scanned UID: " + uid;
    assert ScanLine(uid) == core + "\r" + "\n";
    assert core[0] == 'S' && core[|core| - 1] == uid[|uid| - 1];
    FramedLine(core, "\r");
  }

  /** A scan line whose UID has no surrounding white space forwards exactly that UID and keeps the reader going. */
  lemma OneScanForwards(uid: string)
    requires uid != [] && !IsSpace(uid[0]) && !IsSpace(uid[|uid| - 1]) && '\n' !in uid
    ensures Forwarded(Lines(ScanLine(uid))) == [uid]
    ensures !Halts(Lines(ScanLine(uid))) && Rest(ScanLine(uid)) == []
  {
    ScanLineStrips(uid);
    RouteStrippedUid(uid);
    ForwardedOne("Scanned UID: " + uid);
  }

  /** The device's line for a blank UID frames to `"Scanned UID:"`. */
  lemma BlankLineStrips(pad: string)
    requires AllSpace(pad) && '\n' !in pad
    ensures Lines(ScanLine(pad)) == ["Scanned UID:"]
  {
    var post := " " + pad + "\r";
    assert ScanLine(pad) == "Scanned UID:" + post + "\n";
    forall k | 0 <= k < |post| ensures IsSpace(post[k]) {
      if 0 < k < |post| - 1 {
        assert post[k] == pad[k - 1];
      }
    }
    FramedLine("Scanned UID:", post);
  }

  /**
   * A scan whose UID is blank frames to `"Scanned UID:"`, which has no `": "`:
   * nothing is forwarded and the reader stops.
   */
  lemma BlankScanHalts(pad: string)
    requires AllSpace(pad) && '\n' !in pad
    ensures Forwarded(Lines(ScanLine(pad))) == [] && Halts(Lines(ScanLine(pad)))
  {
    BlankLineStrips(pad);
    RouteEmptyScan();
    ForwardedOne("Scanned UID:");
  }

  /** Draining a queue of one UID is processing that UID. */
  lemma QueueOfOne(users: seq<User>, s: Session, u: string)
    ensures LogFor(users, [u]) == [AccessEntry(u, StatusOf(Decide(users, u)))]
    ensures TokensFor(users, [u]) == [TokenOf(Decide(users, u))]
    ensures SessionAfter(users, s, [u]) == if Decide(users, u).Grant? then SessionOf(Decide(users, u).user) else s
    ensures AnyGrant(users, [u]) <==> Decide(users, u).Grant?
  {
    assert [u][..0] == [];
  }

  /** The default admin's card, read from the device into an empty database with a port. */
  method AdminCardScenario() returns (session: Session, view: View, log: seq<AccessEntry>, port: Port)
    ensures session == Session(Some("Admin"), Some("Default Admin"), Some("63:19:CE:12"))
    ensures view == MainView
    ensures log == [AccessEntry("63:19:CE:12", Granted)]
    ensures port == Open(["GRANTED\n"])
  {
    var db := new Database();
    db.CreateTables();
    var reader := new SerialReader();
    var uid := DefaultAdminUid;
    var line := ScanLine(uid);
    assert reader.buffer + line == line;
    OneScanForwards(uid);
    var uids := reader.Consume(line);
    assert uids == [uid];
    var app := new AccessApp(db, Open([]));
    assert db.users == [DefaultAdmin];
    FindRow(db.users, 0);
    ghost var users := db.users;
    assert Decide(users, uid) == Grant(DefaultAdmin);
    QueueOfOne(users, LoggedOut, uid);
    app.ProcessQueued(uids);
    session, view, log, port := app.session, app.view, db.accessLog, app.port;
  }

  /** A card nobody holds: one denial is logged and sent, and nobody is logged in. */
  method UnknownCardScenario() returns (session: Session, view: View, log: seq<AccessEntry>, port: Port)
    ensures session == LoggedOut && view == LoginView
    ensures log == [AccessEntry("AA:BB:CC:DD", Denied)]
    ensures port == Open(["DENIED\n"])
  {
    var db := new Database();
    db.CreateTables();
    var app := new AccessApp(db, Open([]));
    var d := app.ProcessUid("AA:BB:CC:DD", false);
    session, view, log, port := app.session, app.view, db.accessLog, app.port;
  }

  /** Adding two users with one uid keeps exactly one row for it. */
  method DuplicateUserScenario() returns (second: AddUserOutcome, count: nat)
    ensures second == Duplicate("AA:BB:CC:DD")
    ensures count == 1
  {
    var db := new Database();
    var manager := new UserManager(db);
    var first := manager.AddUser(Some("AA:BB:CC:DD"), Some("John"), None);
    second := manager.AddUser(Some("AA:BB:CC:DD"), Some("Jane"), Some("Admin"));
    UniqueCount(db.users, "AA:BB:CC:DD");
    count := UidCount(db.users, "AA:BB:CC:DD");
  }

  /** "Widgets" added with quantity 10 and then set to 7 logs +10 and -3 and shows 7. */
  method WidgetsScenario() returns (stock: seq<StockItem>, log: seq<StockLogEntry>)
    ensures stock == [StockItem("Widgets", 7)]
    ensures log == [StockLogEntry("Widgets", 10, "Default Admin", "63:19:CE:12"),
                    StockLogEntry("Widgets", -3, "Default Admin", "63:19:CE:12")]
  {
    var db := new Database();
    var manager := new StockManager(db, "Default Admin", DefaultAdminUid);
    var added := manager.AddItem(Some("Widgets"), Some(10));
    var updated := manager.UpdateQuantity(Some(0), Some(7));
    stock, log := db.stock, db.stockLog;
    assert stock[0] == StockItem("Widgets", 7);
  }
}
