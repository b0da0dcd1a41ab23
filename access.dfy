/**
 * The access decision of the main window (app.py, `RFIDApp.process_uid`),
 * the logged-in session it maintains, `MainFrame.logout`, and the greeting
 * shown by `MainFrame.update_greeting`.
 */
module Access {
  import opened Wrappers
  import opened Store

  /** The fields `current_user_role`, `current_user_name` and `current_user_uid`. */
  datatype Session = Session(role: Option<string>, name: Option<string>, uid: Option<string>)

  /** Nobody is logged in: all three fields are None. */
  const LoggedOut: Session := Session(None, None, None)

  /** The session of a user whose card was accepted. */
  function SessionOf(u: User): Session {
    Session(Some(u.role), Some(u.name), Some(u.uid))
  }

  /** Which of the two frames of the main window is packed. */
  datatype View = LoginView | MainView

  /**
   * The global `ser`: absent when the port could not be opened, otherwise
   * the tokens written to the reader device so far.
   */
  datatype Port = NoPort | Open(sent: seq<string>)

  /** `ser.write(token)`; without a port nothing is written. */
  function Written(p: Port, tokens: seq<string>): (r: Port)
    ensures r.NoPort? <==> p.NoPort?
    ensures r.Open? ==> r.sent == p.sent + tokens
  {
    match p
    case NoPort => NoPort
    case Open(sent) => Open(sent + tokens)
  }

  /** The outcome of looking a UID up in the users table. */
  datatype Decision = Grant(user: User) | Deny

  /** A UID is granted exactly when some user has it, and then as that user. */
  function Decide(users: seq<User>, uid: string): (d: Decision)
    ensures d.Grant? <==> HasUid(users, uid)
    ensures d.Grant? ==> d.user.uid == uid && d.user in users
  {
    match FindUser(users, uid)
    case Some(u) => Grant(u)
    case None => Deny
  }

  /** The status recorded in `access_logs`. */
  function StatusOf(d: Decision): (s: Status)
    ensures s == Granted <==> d.Grant?
  {
    if d.Grant? then Granted else Denied
  }

  /** The token sent back to the reader device. */
  function TokenOf(d: Decision): (t: string)
    ensures t == "GRANTED\n" <==> d.Grant?
    ensures t == "DENIED\n" <==> d.Deny?
  {
    if d.Grant? then "GRANTED\n" else "DENIED\n"
  }

  /** Python's truth value of an optional string: neither None nor empty. */
  predicate Truthy(s: Option<string>) {
    s.Some? && s.value != []
  }

  /** The text of the greeting label: personal only when both role and name are truthy. */
  function Greeting(s: Session): (g: string)
    ensures g == "Welcome!" <==> !(Truthy(s.role) && Truthy(s.name))
    ensures Truthy(s.role) && Truthy(s.name) ==> g == "Welcome, " + s.role.value + " - " + s.name.value + "!"
  {
    if Truthy(s.role) && Truthy(s.name) then
      var g := "Welcome, " + s.role.value + " - " + s.name.value + "!";
      assert |g| > |"Welcome!"|;
      g
    else "Welcome!"
  }

  /** The "Manage Users" button is packed exactly when the role is "Admin". */
  predicate ShowsManageUsers(s: Session) {
    s.role == Some("Admin")
  }

  /**
   * For a session whose three fields are None, `update_greeting` would show
   * the anonymous greeting and hide the admin button. (`logout` itself does
   * not call `update_greeting`, so the window keeps what it last showed.)
   */
  lemma AnonymousGreeting()
    ensures Greeting(LoggedOut) == "Welcome!" && !ShowsManageUsers(LoggedOut)
  {
  }

  /**
   * Scanning the card of the user in row `k` logs that user in, and the
   * admin button is shown exactly when that row's role is "Admin".
   */
  lemma ScanLogsInRow(users: seq<User>, k: nat)
    requires UniqueUids(users) && k < |users|
    ensures Decide(users, users[k].uid) == Grant(users[k])
    ensures ShowsManageUsers(SessionOf(Decide(users, users[k].uid).user)) <==> users[k].role == "Admin"
  {
    FindRow(users, k);
  }

  /** The `access_logs` rows appended by processing the queued UIDs in order: one per UID. */
  ghost function LogFor(users: seq<User>, queue: seq<string>): (log: seq<AccessEntry>)
    ensures |log| == |queue|
    ensures forall k :: 0 <= k < |queue| ==> log[k] == AccessEntry(queue[k], StatusOf(Decide(users, queue[k])))
  {
    if queue == [] then []
    else
      var init := queue[..|queue| - 1];
      var u := queue[|queue| - 1];
      var log := LogFor(users, init) + [AccessEntry(u, StatusOf(Decide(users, u)))];
      assert forall k :: 0 <= k < |init| ==> queue[k] == init[k];
      log
  }

  /** The tokens written to the device for the queued UIDs, in order: one per UID. */
  ghost function TokensFor(users: seq<User>, queue: seq<string>): (ts: seq<string>)
    ensures |ts| == |queue|
    ensures forall k :: 0 <= k < |queue| ==> ts[k] == TokenOf(Decide(users, queue[k]))
  {
    if queue == [] then []
    else
      var init := queue[..|queue| - 1];
      var ts := TokensFor(users, init) + [TokenOf(Decide(users, queue[|queue| - 1]))];
      assert forall k :: 0 <= k < |init| ==> queue[k] == init[k];
      ts
  }

  /** The session after the queued UIDs: each grant replaces it, each denial keeps it. */
  ghost function SessionAfter(users: seq<User>, s: Session, queue: seq<string>): Session {
    if queue == [] then s
    else
      match Decide(users, queue[|queue| - 1])
      case Grant(u) => SessionOf(u)
      case Deny => SessionAfter(users, s, queue[..|queue| - 1])
  }

  /** Some queued UID is granted. */
  ghost predicate AnyGrant(users: seq<User>, queue: seq<string>) {
    exists k :: 0 <= k < |queue| && Decide(users, queue[k]).Grant?
  }

  /** The most recently processed grant decides the session (last applied wins). */
  lemma {:induction false} LastGrantWins(users: seq<User>, s: Session, queue: seq<string>, k: nat)
    requires k < |queue| && Decide(users, queue[k]).Grant?
    requires forall j :: k < j < |queue| ==> Decide(users, queue[j]).Deny?
    ensures SessionAfter(users, s, queue) == SessionOf(Decide(users, queue[k]).user)
    decreases |queue|
  {
    if k < |queue| - 1 {
      var init := queue[..|queue| - 1];
      assert Decide(users, queue[|queue| - 1]).Deny?;
      assert forall j :: k <= j < |init| ==> init[j] == queue[j];
      LastGrantWins(users, s, init, k);
    }
  }

  /** Denials alone leave the session as it was. */
  lemma {:induction false} DenialsKeepSession(users: seq<User>, s: Session, queue: seq<string>)
    requires !AnyGrant(users, queue)
    ensures SessionAfter(users, s, queue) == s
    decreases |queue|
  {
    if queue != [] {
      var init := queue[..|queue| - 1];
      assert Decide(users, queue[|queue| - 1]).Deny?;
      assert !AnyGrant(users, init) by {
        forall j | 0 <= j < |init| ensures Decide(users, init[j]).Deny? {
          assert init[j] == queue[j];
        }
      }
      DenialsKeepSession(users, s, init);
    }
  }

  /** What processing one more queued UID adds to each of the summaries above. */
  lemma QueueStep(users: seq<User>, s: Session, queue: seq<string>, i: nat)
    requires i < |queue|
    ensures var d := Decide(users, queue[i]);
            && LogFor(users, queue[..i + 1]) == LogFor(users, queue[..i]) + [AccessEntry(queue[i], StatusOf(d))]
            && TokensFor(users, queue[..i + 1]) == TokensFor(users, queue[..i]) + [TokenOf(d)]
            && SessionAfter(users, s, queue[..i + 1])
               == (if d.Grant? then SessionOf(d.user) else SessionAfter(users, s, queue[..i]))
            && (AnyGrant(users, queue[..i + 1]) <==> AnyGrant(users, queue[..i]) || d.Grant?)
  {
    var q := queue[..i + 1];
    assert q[..i] == queue[..i];
    assert q[i] == queue[i];
    if AnyGrant(users, q) && !Decide(users, queue[i]).Grant? {
      var k :| 0 <= k < i + 1 && Decide(users, q[k]).Grant?;
      assert q[k] == queue[..i][k];
    }
    if AnyGrant(users, queue[..i]) {
      var k :| 0 <= k < i && Decide(users, queue[..i][k]).Grant?;
      assert q[k] == queue[..i][k];
    }
  }

  /** Appending tokens to a port in two steps is appending them at once. */
  lemma WrittenTwice(p: Port, ts: seq<string>, t: string)
    ensures Written(Written(p, ts), [t]) == Written(p, ts + [t])
  {
  }

  /** The main window's state that the scan pipeline reads and changes. */
  class AccessApp {
    const db: Database
    var session: Session
    var view: View
    var port: Port

    /** The window starts on the login frame with nobody logged in. */
    constructor (db: Database, port: Port)
      ensures this.db == db && this.port == port
      ensures session == LoggedOut && view == LoginView
    {
      this.db := db;
      this.port := port;
      session := LoggedOut;
      view := LoginView;
    }

    /**
     * One scanned UID. The log row is committed first; a write to the port
     * that raises then leaves `process_uid` before the session or the view
     * changes, so the recorded decision is never lost.
     */
    method ProcessUid(uid: string, writeFails: bool) returns (d: Decision)
      modifies this, db
      ensures d == Decide(old(db.users), uid)
      ensures db.accessLog == old(db.accessLog) + [AccessEntry(uid, StatusOf(d))]
      ensures db.users == old(db.users) && db.stock == old(db.stock) && db.stockLog == old(db.stockLog)
      ensures var failed := old(port).Open? && writeFails;
              && port == (if failed then old(port) else Written(old(port), [TokenOf(d)]))
              && session == (if d.Grant? && !failed then SessionOf(d.user) else old(session))
              && view == (if d.Grant? && !failed then MainView else old(view))
    {
      match FindUser(db.users, uid)
      case Some(user) =>
        d := Grant(user);
        db.InsertAccessLog(AccessEntry(uid, Granted));
        if port.Open? {
          if writeFails {
            return;
          }
          port := Written(port, ["GRANTED\n"]);
        }
        session := SessionOf(user);
        view := MainView;
      case None =>
        d := Deny;
        db.InsertAccessLog(AccessEntry(uid, Denied));
        if port.Open? {
          if writeFails {
            return;
          }
          port := Written(port, ["DENIED\n"]);
        }
    }

    /** `MainFrame.logout`: the session is cleared and the login frame shown again. */
    method Logout()
      modifies this
      ensures session == LoggedOut && view == LoginView && port == old(port)
    {
      session := LoggedOut;
      view := LoginView;
    }

    /**
     * The Tk event loop running the callbacks that `after(0, process_uid, uid)`
     * queued, in order, with every port write succeeding.
     */
    method ProcessQueued(queue: seq<string>)
      modifies this, db
      ensures db.users == old(db.users) && db.stock == old(db.stock) && db.stockLog == old(db.stockLog)
      ensures db.accessLog == old(db.accessLog) + LogFor(old(db.users), queue)
      ensures port == Written(old(port), TokensFor(old(db.users), queue))
      ensures session == SessionAfter(old(db.users), old(session), queue)
      ensures view == if AnyGrant(old(db.users), queue) then MainView else old(view)
    {
      ghost var users := db.users;
      ghost var log0 := db.accessLog;
      ghost var p0 := port;
      ghost var s0 := session;
      ghost var v0 := view;
      var i := 0;
      while i < |queue|
        invariant 0 <= i <= |queue|
        invariant db.users == users && db.stock == old(db.stock) && db.stockLog == old(db.stockLog)
        invariant db.accessLog == log0 + LogFor(users, queue[..i])
        invariant port == Written(p0, TokensFor(users, queue[..i]))
        invariant session == SessionAfter(users, s0, queue[..i])
        invariant view == if AnyGrant(users, queue[..i]) then MainView else v0
      {
        QueueStep(users, s0, queue, i);
        WrittenTwice(p0, TokensFor(users, queue[..i]), TokenOf(Decide(users, queue[i])));
        assert (log0 + LogFor(users, queue[..i])) + [AccessEntry(queue[i], StatusOf(Decide(users, queue[i])))]
               == log0 + LogFor(users, queue[..i + 1]);
        var d := ProcessUid(queue[i], false);
        i := i + 1;
      }
      assert queue[..i] == queue;
    }
  }
}
