# RFID access control and stock management — a Dafny model

The application (`app.py`) is a desktop program. It reads the lines an RFID reader prints over a serial port. It grants or denies access for each scanned card against a `users` table and records every decision in `access_logs`. It writes `GRANTED` or `DENIED` back to the reader and keeps the logged-in user as a session. It also offers two windows, one to manage users and one to manage a stock inventory whose changes are recorded in `stock_logs`.

This project models the part of the program that has rules:

- **Serial reader** (`framing.dfy`, `router.dfy`, `text.dfy`): the character-at-a-time line framer of `read_serial_data`, with the class `SerialReader` holding `buffer`. Also the routing of a framed line: a scan line forwards a UID, any other line is only a diagnostic. Python's `str.strip()`, `str.startswith` and `str.split(": ", 1)[1]` are modelled exactly, including the `IndexError` on a scan line that has no `": "`.
- **Access decision** (`access.dfy`): `process_uid` and `logout` on the class `AccessApp`, which holds the session triple (role, name, uid), the visible frame and the serial port's output. Also the greeting and the "Manage Users" rule of `update_greeting`.
- **Database** (`store.dfy`): the four tables as sequences of rows in the class `Database`, one method per `INSERT`, `UPDATE` or `DELETE` the program runs. Its `SELECT`s are pure functions over the tables (`HasUid`, `FindUser`) or reads of a table field. Pure functions also give each table after a statement. 64-bit SQLite integers are modelled: a quantity outside that range makes the statement fail. It also covers the bootstrap of the default admin in `create_tables`.
- **Management windows** (`managers.dfy`): `add_user`, `delete_user`, `add_item` and `update_quantity`. The dialog results are method parameters: `None` stands for a cancelled dialog, and for a quantity also for text that `int()` rejects.
- **Proved scenarios** (`scenarios.dfy`): the device's line for the default admin's card, read, framed and processed end to end. Also an unknown card, a blank scan, a duplicate user and a stock update.

Two behaviours of the code need saying, because they are easy to miss:
- A scan line with the prefix but without `": "` is not just discarded. `split(": ", 1)[1]` raises `IndexError` there (app.py:200). The `try`/`except` inside the loop body catches it and its `break` leaves the reading loop (app.py:208-210), so no later line is read. `SerialReader.running` records this.
- A failing `ser.write` is not caught. It raises out of `process_uid` (app.py:153-154 and 170-171) after the access-log row has been committed (app.py:149-150), so the session and the frame stay as they were. `ProcessUid`'s `writeFails` parameter stands for this.

## Model

| member | source | states |
|---|---|---|
| Text.IsSpace | app.py:196 | the white space `str.strip()` removes: Python's `str.isspace()` on one character, given as its code point ranges |
| Text.SkipSpace | app.py:196 | from a start index, the first index that is not white space, or the end; everything skipped is white space |
| Text.BackSpace | app.py:196 | from an end index backwards, the index just after the last character that is not white space, or 0; everything skipped is white space |
| Text.Strip | app.py:196 | the result is a contiguous piece of the input; everything before and after it is `str.isspace()` white space; its own first and last characters are not |
| Text.StripCut | app.py:196 | the cut before a first non-space and after a last non-space leaves only white space outside it |
| Text.SkipSpaceAt | app.py:196 | uniqueness: an index reached over white space alone and standing at a non-space (or the end) is the one `SkipSpace` returns |
| Text.BackSpaceAt | app.py:196 | uniqueness: an index with white space alone after it and a non-space (or the start) before it is the one `BackSpace` returns |
| Text.StripAllSpace | app.py:196 | a text of white space only strips to the empty text |
| Text.StripAround | app.py:196 | white space around a non-empty text whose ends are not white space is removed exactly |
| Text.StripExact | app.py:196 | white space put around a text whose ends are not white space is removed exactly, so `strip()` is determined by its contract |
| Text.StripIdempotent | app.py:200 | stripping an already stripped text changes nothing |
| Text.SepIndex | app.py:200 | the index of the first `": "`, or none exactly when the text holds no `": "` |
| Text.AfterSep | app.py:200 | `split(": ", 1)[1]`: None (the `IndexError`) exactly when there is no `": "`, otherwise the text after the first one |
| Text.SplitAfterHead | app.py:200 | splitting `head + ": " + tail`, where `head` has no colon, yields `tail` even when `tail` holds further `": "` |
| ScanRouter.Route | app.py:198-205 | a line is a diagnostic exactly when it lacks the prefix `"Scanned UID:"`, malformed exactly when it has it but no `": "`, and otherwise forwards the stripped text after the first `": "` |
| ScanRouter.RouteScannedUid | app.py:198-200 | `"Scanned UID: " + t` forwards `strip(t)` |
| ScanRouter.RouteStrippedUid | app.py:198-202 | a UID without surrounding white space is forwarded unchanged, inner colons included |
| ScanRouter.RouteWithoutSeparator | app.py:198-210 | a prefixed line whose prefix is not followed by a space and that holds no `": "` forwards nothing and is malformed |
| ScanRouter.RouteEmptyScan | app.py:198-210 | the line `"Scanned UID:"` alone is malformed |
| ScanRouter.Forwarded | app.py:187-210 | the UIDs forwarded for a sequence of lines number at most one per line |
| ScanRouter.ForwardedStep | app.py:195-210 | one more line is forwarded as routed unless the loop has already stopped, and stops the loop exactly when malformed |
| ScanRouter.ForwardedAfterHalt | app.py:208-210 | after a malformed line nothing further is forwarded and the loop stays stopped |
| ScanRouter.ForwardedPrefix | app.py:198-202 | later lines never change the UIDs already forwarded (they are handed on in order) |
| Framing.Rest | app.py:195-207 | the partial line held in the buffer never contains `'\n'` |
| Framing.Segments | app.py:195-197 | no raw line of the stream contains `'\n'` |
| Framing.Lines | app.py:195-197 | the lines the loop hands on: for each `'\n'` of the stream, the buffer before it, stripped |
| Framing.Reconstruct | app.py:195-207 | the raw lines, each followed by `'\n'`, and then the partial line, give back the stream |
| Framing.LinesAreStrippedSegments | app.py:195-197 | the lines emitted are, one for one, the stripped raw lines |
| Framing.NoNewlineNoLines | app.py:206-207 | input without `'\n'` emits nothing and is all kept in the buffer |
| Framing.HaltKeeps | app.py:208-210 | once a malformed line was read, further input forwards nothing and the loop stays stopped |
| Framing.StepStream | app.py:195-207 | one more character: `'\n'` emits the stripped buffer and empties it, any other character is appended |
| Framing.SerialReader.constructor | app.py:185 | the reader starts with an empty buffer, running |
| Framing.SerialReader.Step | app.py:193-210 | on `'\n'` the buffer is emptied and the stripped buffer is routed (a scan returns its UID, a malformed line stops the loop); any other character is appended and nothing is returned |
| Framing.SerialReader.Consume | app.py:185-210 | reading a stream forwards exactly `Forwarded(Lines(buffer + input))`; the loop runs on exactly when no malformed line was read, keeping the partial line |
| Store.Fits | app.py:441-448 | a value SQLite's 64-bit INTEGER can hold; Python's `sqlite3` raises `OverflowError` when binding any other int |
| Store.HasUid | app.py:143-144 | `SELECT * FROM users WHERE uid = ?` finds a row: some row carries the uid |
| Store.UniqueUids | app.py:28 | the `UNIQUE` constraint on `users.uid`: no two rows share a uid |
| Store.UidCount | app.py:143-144 | the number of rows with a uid is positive exactly when a row has it |
| Store.UniqueCount | app.py:28 | under the UNIQUE constraint at most one row carries a uid |
| Store.FindUser | app.py:143-144 | `fetchone()` is None exactly when no row has the uid; otherwise it is the first such row |
| Store.FindRow | app.py:143-146 | under the UNIQUE constraint looking up a row's uid finds that row |
| Store.WithDefaultAdmin | app.py:65-72 | the users table after the bootstrap holds the default admin's uid; it is unchanged exactly when the uid was already present, and otherwise it is the old rows followed by the row `("63:19:CE:12", "Default Admin", "Admin")` |
| Store.BootstrapAdmin | app.py:65-72 | after the bootstrap exactly one row has the default admin's uid, the constraint holds and no row is lost; when the uid was absent, looking it up finds `("63:19:CE:12", "Default Admin", "Admin")` |
| Store.BootstrapIdempotent | app.py:65-72 | running the bootstrap again adds nothing |
| Store.WithoutUid | app.py:376 | after the delete the rows are exactly the old rows with another uid |
| Store.WithoutUidConcat | app.py:376 | the delete treats the rows one by one: deleting from `a + b` is deleting from `a`, then from `b`, in that order |
| Store.WithoutUidOne | app.py:376 | a single row survives the delete exactly when its uid is another one |
| Store.DeleteKeepsUnique | app.py:376 | the delete keeps the UNIQUE constraint and leaves no row with the uid |
| Store.UniqueAround | app.py:28 | under the UNIQUE constraint no row before or after row `k` has that row's uid |
| Store.DeleteRow | app.py:373-376 | deleting by the uid of row `k` leaves exactly `users[..k] + users[k+1..]`: that row goes, every other row stays, in order |
| Store.DeleteRowMembers | app.py:373-376 | deleting by the uid of a row removes that row and no other |
| Store.DeleteAbsent | app.py:376 | deleting a uid that no row has changes nothing |
| Store.SetQuantity | app.py:477 | every row with the name gets the new quantity; rows with other names are unchanged; names and row count are kept |
| Store.Database.constructor | app.py:25-63 | a database holds four empty tables |
| Store.Database.CreateTables | app.py:65-72 | the default admin is inserted exactly when no row has its uid; the other tables are unchanged |
| Store.Database.InsertUser | app.py:358-363 | the insert succeeds exactly when the uid is new, and then appends the row; otherwise nothing changes |
| Store.Database.DeleteUser | app.py:376 | the users table becomes `WithoutUid` of the old one |
| Store.Database.InsertAccessLog | app.py:149 | one row is appended to `access_logs` and nothing else changes |
| Store.Database.InsertStock | app.py:441 | the insert succeeds exactly when the quantity fits a 64-bit INTEGER, and then appends one row to `stock`; nothing else changes |
| Store.Database.UpdateStock | app.py:477 | the update succeeds exactly when the quantity fits a 64-bit INTEGER, and then `stock` becomes `SetQuantity` of the old table; nothing else changes |
| Store.Database.InsertStockLog | app.py:445-448 | the insert succeeds exactly when the change fits a 64-bit INTEGER, and then appends one row to `stock_logs`; nothing else changes |
| Access.Written | app.py:153-154 | without a port nothing is written; with one the tokens are appended to what was sent |
| Access.Truthy | app.py:265 | Python's truth value of an optional string: neither None nor empty |
| Access.Decide | app.py:143-146 | a UID is granted exactly when some user has it, and then as a user with that uid |
| Access.StatusOf | app.py:146-165 | the logged status is Granted exactly for a grant |
| Access.TokenOf | app.py:152-171 | the token is `"GRANTED\n"` exactly on a grant and `"DENIED\n"` exactly on a denial |
| Access.Greeting | app.py:263-268 | the greeting is `"Welcome!"` exactly when role or name is None or empty; otherwise it is `"Welcome, " + role + " - " + name + "!"` |
| Access.ShowsManageUsers | app.py:271-274 | "Manage Users" is packed exactly when the role is `"Admin"`, and hidden otherwise |
| Access.AnonymousGreeting | app.py:263-274 | for a session whose three fields are None, `update_greeting` shows `"Welcome!"` and hides "Manage Users" |
| Access.ScanLogsInRow | app.py:143-158 | scanning the uid of a row logs in as that row's user; "Manage Users" is shown exactly when its role is `"Admin"` |
| Access.LogFor | app.py:149-166 | processing a queue of UIDs logs one row per UID, in order, with its uid and decision |
| Access.TokensFor | app.py:153-171 | processing a queue writes one token per UID, in order |
| Access.SessionAfter | app.py:156-158 | the session after a queue of UIDs: each grant replaces all three fields by the user's row, each denial keeps them |
| Access.LastGrantWins | app.py:156-158 | the last granted UID of a queue decides the session when only denials follow it |
| Access.DenialsKeepSession | app.py:164-175 | a queue of denials leaves the session as it was |
| Access.QueueStep | app.py:134-177 | processing one more UID adds one log row and one token, and replaces the session exactly on a grant |
| Access.AccessApp.constructor | app.py:103-112 | the window starts on the login frame with all three session fields None |
| Access.AccessApp.ProcessUid | app.py:134-177 | the decision is `Decide` on the users table; exactly one log row with the uid and its status is appended before the token is written; users and stock are unchanged; on a grant whose write succeeded the session becomes the user's and the main frame is shown; a denial keeps the session |
| Access.AccessApp.Logout | app.py:291-298 | all three session fields become None and the login frame is shown |
| Access.AccessApp.ProcessQueued | app.py:198-202 | processing N forwarded UIDs appends N log rows and N tokens in order, leaves the users table unchanged, and leaves the session of the last grant |
| Managers.RoleOrDefault | app.py:354-356 | an entered non-empty role is kept; no role or an empty one becomes exactly `"User"` |
| Managers.UserManager.constructor | app.py:307-331 | the window shows the users table |
| Managers.UserManager.Refresh | app.py:333-342 | the list shown becomes the users table |
| Managers.UserManager.AddUser | app.py:344-364 | no uid or no name aborts with nothing changed; a taken uid is refused and leaves the table unchanged; otherwise the user is appended with the role or `"User"` |
| Managers.UserManager.DeleteUser | app.py:366-378 | without a selection or confirmation nothing changes; otherwise every row with the selected uid is deleted |
| Managers.StockManager.constructor | app.py:388-414 | the window keeps the user's name and uid and shows the stock table |
| Managers.StockManager.Refresh | app.py:416-425 | the list shown becomes the stock table |
| Managers.StockManager.AddItem | app.py:427-452 | without a name nothing changes (`Skipped`); a quantity read, or 0, that does not fit a 64-bit INTEGER changes nothing (`StockRefused`); otherwise the item is inserted with it, that quantity is logged as the change with the acting user, and the list shows the new table (`Done`) |
| Managers.StockManager.UpdateQuantity | app.py:454-488 | without a selection or a readable quantity nothing changes (`Skipped`); a new quantity that does not fit a 64-bit INTEGER changes nothing (`StockRefused`); otherwise every row with the selected name gets it, and the change new minus displayed is logged and the list refreshed (`Done`) unless that change does not fit, when the update stays and nothing is logged (`LedgerRefused`) |
| Scenarios.SingleLine | app.py:195-207 | a stream of one `'\n'`-terminated line emits that line stripped and leaves nothing in the buffer |
| Scenarios.ForwardedOne | app.py:198-210 | a single line is forwarded as routed and stops the loop exactly when malformed |
| Scenarios.FramedLine | app.py:195-197 | a text with non-space ends, then white space, then `'\n'` frames to that text |
| Scenarios.ScanLineStrips | app.py:195-197 | the device's `"Scanned UID: " + uid + "\r\n"` frames to the line without its `"\r"` |
| Scenarios.OneScanForwards | app.py:185-202 | that line forwards exactly the UID and keeps the loop running |
| Scenarios.BlankLineStrips | app.py:195-197 | a scan line with a blank UID frames to `"Scanned UID:"` |
| Scenarios.BlankScanHalts | app.py:195-210 | a scan line with a blank UID forwards nothing and stops the reading loop |
| Scenarios.QueueOfOne | app.py:134-177 | processing a queue of one UID is processing that UID |
| Scenarios.AdminCardScenario | app.py:134-162 | the default admin's card read into a fresh database logs one grant, writes `GRANTED`, and logs in the default admin |
| Scenarios.UnknownCardScenario | app.py:164-175 | an unknown card logs one denial, writes `DENIED`, and nobody is logged in |
| Scenarios.DuplicateUserScenario | app.py:358-363 | adding a second user with the same uid is refused and one row keeps the uid |
| Scenarios.WidgetsScenario | app.py:427-488 | adding "Widgets" with 10 and then setting it to 7 leaves 7 and logs +10 then -3 |

## Left out

- The Tk user interface — frames, widgets, Treeview contents, message boxes and dialogs — is UI. Dialog results are parameters. The frame shown is the `View` value, and the Treeview contents are the `shown` fields.
- SQLite connection, commit and close mechanics, `id` autoincrement and `CURRENT_TIMESTAMP` columns are store mechanics. Tables are sequences of rows holding only the other columns. The row order of `SELECT` without `ORDER BY` is taken to be insertion order.
- SQLite failures other than the `UNIQUE` violation and the 64-bit integer overflow, such as a locked or unwritable database file, are store failures and are not modelled. An `OverflowError` that escapes a Tk callback is reported by Tk; the model records only that the callback stopped, as `StockRefused` or `LedgerRefused`.
- pyserial's open, `in_waiting` polling and reads are device I/O. The port is either absent or the tokens sent so far. Bytes arrive as `char`s, so UTF-8 decoding with `errors='replace'` is left out.
- Framing.SerialReader.Consume: reads, their exceptions, `winfo_exists` and `time.sleep` are I/O and timing. The only exit modelled is the `break` after a malformed scan line.
- The background thread and the `after(0, ...)` hand-off are concurrency. `ProcessQueued` runs the forwarded UIDs one after the other on one thread.
- Access.AccessApp.ProcessQueued: assumes every port write succeeds. A failing write is modelled for a single call, in `ProcessUid`.
- Python's `int()` grammar is a library function. Its outcome is an `Option<int>`.
- Tk's conversion of Treeview values, such as a uid of digits read back as a number, is UI behaviour. The selected row is the row of `shown` at the given index.
- The `role` that `StockManager` receives is stored but never read by the program, so it is not modelled.
- The firmware of the reader device is not part of this model. Its line format is taken as `"Scanned UID: " + uid + "\r\n"`.
- `test.py` is not part of this model. It only talks to the serial device.
