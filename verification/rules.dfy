/**
 * The request-level rules of the backend as functions on the rows of its
 * three tables (`users`, `sessions`, `notes`): finding the session a request
 * carries (`with_session`), the admin gate (`is_admin` and the 401/403
 * answers), login's normalisation of the e-mail address and the lifetime of
 * a new session, and the field rules of creating, updating and deleting a
 * note. The table updates themselves are in the `Store` module.
 */
module Rules {
  import opened Wrappers
  import opened Text

  /** Seven days, in seconds. */
  const SESSION_LIFETIME: int := 7 * 24 * 3600

  /** A row of `users`. Optional columns are `None` when NULL. */
  datatype User = User(
    id: int,
    nickname: Option<string>,
    email: string,
    passwordHash: string,
    fullName: Option<string>,
    phone: Option<string>,
    passwordManagerUrl: Option<string>,
    isAdmin: int)

  /** A row of `sessions` (the token is its key). */
  datatype Session = Session(userId: int, expiresAt: int, createdAt: int)

  /** A row of `notes` (the id is its key). */
  datatype Note = Note(
    userId: int,
    title: string,
    content: string,
    published: int,
    createdAt: int,
    updatedAt: int)

  /** The eight columns `with_session` selects, in order: token, user id,
      e-mail, nickname, full name, phone, password-manager link, admin flag. */
  datatype SessionRow = SessionRow(
    token: string,
    userId: int,
    email: string,
    nickname: Option<string>,
    fullName: Option<string>,
    phone: Option<string>,
    passwordManagerUrl: Option<string>,
    isAdmin: int)

  /** The answer of a handler: a success status, or an error status with
      the `error` string of the JSON body. */
  datatype Reply = Done(status: int) | Failed(status: int, error: string)

  /** A key of a JSON request body: missing, present with `null`, or
      present with a value. */
  datatype Field<T> = Absent | Null | Given(value: T)

  predicate UniqueIds(users: seq<User>) {
    forall i, j :: 0 <= i < j < |users| ==> users[i].id != users[j].id
  }

  predicate UniqueEmails(users: seq<User>) {
    forall i, j :: 0 <= i < j < |users| ==> users[i].email != users[j].email
  }

  /** `SELECT ... FROM users WHERE email = ?`. */
  function UserByEmail(users: seq<User>, email: string): (r: Option<User>)
    ensures r.Some? ==> r.value in users && r.value.email == email
    ensures r.None? <==> forall i :: 0 <= i < |users| ==> users[i].email != email
  {
    if users == [] then None
    else if users[0].email == email then Some(users[0])
    else
      var r := UserByEmail(users[1..], email);
      assert forall i :: 1 <= i < |users| ==> users[i] == users[1..][i - 1];
      r
  }

  /** The join `users.id = sessions.user_id`. */
  function UserById(users: seq<User>, id: int): (r: Option<User>)
    ensures r.Some? ==> r.value in users && r.value.id == id
    ensures r.None? <==> forall i :: 0 <= i < |users| ==> users[i].id != id
  {
    if users == [] then None
    else if users[0].id == id then Some(users[0])
    else
      var r := UserById(users[1..], id);
      assert forall i :: 1 <= i < |users| ==> users[i] == users[1..][i - 1];
      r
  }

  /** With unique ids, the join finds exactly the user who owns the id. */
  lemma UserByIdUnique(users: seq<User>, u: User)
    requires UniqueIds(users) && u in users
    ensures UserById(users, u.id) == Some(u)
  {
  }

  /** A session row is still valid strictly before its expiry time. */
  predicate Live(s: Session, now: int) {
    s.expiresAt > now
  }

  /** The session a login at `now` creates. */
  function NewSession(userId: int, now: int): (s: Session)
    ensures forall later :: Live(s, later) <==> later < now + SESSION_LIFETIME
    ensures s.userId == userId && s.createdAt == now
  {
    Session(userId, now + SESSION_LIFETIME, now)
  }

  /** `with_session`: no token, or the empty token, is no session; otherwise
      the session row of that token, if it has not expired and its user
      exists, joined with the user's columns. */
  function LookupSession(users: seq<User>, sessions: map<string, Session>, token: Option<string>, now: int)
    : (r: Option<SessionRow>)
    ensures r.Some? <==>
      && token.Some? && token.value != ""
      && token.value in sessions && Live(sessions[token.value], now)
      && UserById(users, sessions[token.value].userId).Some?
    ensures r.Some? ==>
      && r.value.token == token.value
      && r.value.userId == sessions[token.value].userId
      && r.value.isAdmin == UserById(users, r.value.userId).value.isAdmin
  {
    if token.None? || token.value == "" || token.value !in sessions then None
    else
      var s := sessions[token.value];
      if !Live(s, now) then None
      else match UserById(users, s.userId)
        case None => None
        case Some(u) =>
          Some(SessionRow(token.value, u.id, u.email, u.nickname, u.fullName, u.phone,
                          u.passwordManagerUrl, u.isAdmin))
  }

  /** Once a login has stored a fresh session for an existing user, that
      token opens a session exactly until seven days after the login. */
  lemma SessionAfterLogin(users: seq<User>, sessions: map<string, Session>, token: string, u: User, now: int)
    requires UniqueIds(users) && u in users && token != ""
    requires token in sessions && sessions[token] == NewSession(u.id, now)
    ensures forall later ::
      (LookupSession(users, sessions, Some(token), later).Some? <==> later < now + SESSION_LIFETIME)
  {
    UserByIdUnique(users, u);
  }

  /** `is_admin(session)`: there is a session and its admin column is
      non-zero. The row always has eight columns, so the length test
      `len(session) > 7` always passes. */
  predicate IsAdmin(row: Option<SessionRow>) {
    row.Some? && row.value.isAdmin != 0
  }

  /** The gate every notes and files endpoint opens with: 401 without a
      session, then 403 for a non-admin, else the session row. */
  function Admit(row: Option<SessionRow>): (r: Result<SessionRow, Reply>)
    ensures r.Ok? <==> IsAdmin(row)
    ensures r.Ok? ==> row == Some(r.value)
    ensures r == Err(Failed(401, "auth_required")) <==> row.None?
    ensures r == Err(Failed(403, "admin_only")) <==> row.Some? && !IsAdmin(row)
  {
    if row.None? then Err(Failed(401, "auth_required"))
    else if !IsAdmin(row) then Err(Failed(403, "admin_only"))
    else Ok(row.value)
  }

  /** The e-mail address as login looks it up: the request's `email`
      field (`""` when it is missing or null), stripped and lower-cased. */
  function NormalizeEmail(email: string): string {
    Lower(Strip(email))
  }

  /** A normalised address has no surrounding whitespace and no upper-case
      letter. */
  lemma NormalizeEmailClean(email: string)
    ensures var r := NormalizeEmail(email); Strip(r) == r && NoUpper(r)
  {
    StripIdempotent(email);
    StrippedLower(Strip(email));
  }

  /** Normalising a normalised address changes nothing. */
  lemma NormalizeEmailIdempotent(email: string)
    ensures NormalizeEmail(NormalizeEmail(email)) == NormalizeEmail(email)
  {
    var r := NormalizeEmail(email);
    NormalizeEmailClean(email);
    assert Lower(r) == r;
  }

  /** With unique e-mail addresses, the lookup finds the one user who has
      the address. */
  lemma UserByEmailUnique(users: seq<User>, u: User)
    requires UniqueEmails(users) && u in users
    ensures UserByEmail(users, u.email) == Some(u)
  {
  }

  /** The user a login request signs in as: the one whose address is the
      normalised e-mail, provided `verify_password` accepts the password
      against that user's hash. Missing or null fields arrive as `""`. */
  function Authenticate(users: seq<User>, email: string, password: string,
                        verify: (string, string) -> bool): (r: Option<User>)
    requires UniqueEmails(users)
    ensures r.Some? ==>
      r.value in users && r.value.email == NormalizeEmail(email) && verify(password, r.value.passwordHash)
    ensures r.None? <==> forall u :: u in users && u.email == NormalizeEmail(email) ==>
      !verify(password, u.passwordHash)
  {
    var user := UserByEmail(users, NormalizeEmail(email));
    if user.None? then
      assert forall u :: u in users ==> u.email != NormalizeEmail(email);
      None
    else if !verify(password, user.value.passwordHash) then
      assert forall u :: u in users && u.email == NormalizeEmail(email) ==> u == user.value by {
        forall u | u in users && u.email == NormalizeEmail(email) ensures u == user.value {
          UserByEmailUnique(users, u);
        }
      }
      None
    else user
  }

  /** A title as the handlers store it: non-empty, with no whitespace at
      either end (so `Strip` leaves it unchanged). */
  predicate IsTitle(t: string) {
    t != "" && !IsSpace(t[0]) && !IsSpace(t[|t| - 1])
  }

  /** The rules every stored note satisfies: a stripped, non-empty title
      and a published flag of 0 or 1. */
  predicate ValidNote(n: Note) {
    IsTitle(n.title) && (n.published == 0 || n.published == 1)
  }

  /** The invariant of the `notes` table: every id is below the next
      `AUTOINCREMENT` id and every note keeps the stored-note rules. */
  predicate NotesValid(notes: map<int, Note>, nextId: int) {
    nextId >= 1 && forall id :: id in notes ==> 1 <= id < nextId && ValidNote(notes[id])
  }

  /** Every stored note keeps the rules. */
  lemma NotesValidAt(notes: map<int, Note>, nextId: int, id: int)
    requires NotesValid(notes, nextId) && id in notes
    ensures ValidNote(notes[id]) && id < nextId
  {
  }

  /** Inserting a valid note under the next id keeps the invariant, with
      the next id one further on. */
  lemma NotesValidInsert(notes: map<int, Note>, nextId: int, n: Note)
    requires NotesValid(notes, nextId) && ValidNote(n)
    ensures nextId !in notes
    ensures NotesValid(notes[nextId := n], nextId + 1)
  {
  }

  /** Replacing a stored note by a valid one keeps the invariant. */
  lemma NotesValidReplace(notes: map<int, Note>, nextId: int, id: int, n: Note)
    requires NotesValid(notes, nextId) && id in notes && ValidNote(n)
    ensures NotesValid(notes[id := n], nextId)
  {
  }

  /** Deleting keeps the invariant. */
  lemma NotesValidDelete(notes: map<int, Note>, nextId: int, id: int, owner: int)
    requires NotesValid(notes, nextId)
    ensures NotesValid(DeleteOwned(notes, id, owner), nextId)
  {
  }

  /** `POST /api/notes` after the gate: the title is `(title or "")`
      stripped and must not be empty, the content is `content or ""`, and
      `published` is 1 exactly when the request's value is truthy. */
  function NewNote(owner: int, title: Option<string>, content: Option<string>, published: bool, now: int)
    : (r: Result<Note, Reply>)
    ensures r.Err? <==> title.None? || AllSpace(title.value)
    ensures r.Err? ==> r.error == Failed(400, "title_required")
    ensures r.Ok? ==> title.Some? && r.value.title == Strip(title.value)
    ensures r.Ok? ==> r.value.userId == owner && r.value.createdAt == now && r.value.updatedAt == now
    ensures r.Ok? ==> r.value.content == (if content.None? then "" else content.value)
    ensures r.Ok? ==> (r.value.published == 1 <==> published)
  {
    var raw := if title.None? then "" else title.value;
    var t := Strip(raw);
    if t == "" then Err(Failed(400, "title_required"))
    else
      Ok(Note(owner, t, if content.None? then "" else content.value, if published then 1 else 0, now, now))
  }

  /** A created note satisfies the stored-note rules. */
  lemma NewNoteValid(owner: int, title: Option<string>, content: Option<string>, published: bool, now: int)
    requires NewNote(owner, title, content, published, now).Ok?
    ensures ValidNote(NewNote(owner, title, content, published, now).value)
  {
    StripIdempotent(title.value);
  }

  /** The title an update asks for: the stored one when the key is missing,
      `""` for `null`. */
  function RequestedTitle(stored: Note, title: Field<string>): string {
    match title
    case Absent => stored.title
    case Null => ""
    case Given(t) => t
  }

  /** `PUT /api/notes/{id}` once the note is found: the merged note, or
      `title_required` when the merged title is empty after stripping. */
  function MergeNote(stored: Note, title: Field<string>, content: Field<string>, published: Field<bool>, now: int)
    : (r: Result<Note, Reply>)
    ensures r.Err? <==> AllSpace(RequestedTitle(stored, title))
    ensures r.Err? ==> r.error == Failed(400, "title_required")
    ensures r.Ok? ==> r.value.title == Strip(RequestedTitle(stored, title))
    ensures r.Ok? ==> r.value.content == (if content.Given? then content.value else stored.content)
    ensures r.Ok? && published.Absent? ==> r.value.published == stored.published
    ensures r.Ok? && published.Null? ==> r.value.published == 0
    ensures r.Ok? && published.Given? ==> (r.value.published == 1 <==> published.value)
    ensures r.Ok? && published.Given? ==> (r.value.published == 0 <==> !published.value)
    ensures r.Ok? ==> r.value.userId == stored.userId && r.value.createdAt == stored.createdAt
    ensures r.Ok? ==> r.value.updatedAt == now
  {
    var t := Strip(RequestedTitle(stored, title));
    var c := if content.Given? then content.value else stored.content;
    var p := match published
      case Absent => stored.published
      case Null => 0
      case Given(b) => if b then 1 else 0;
    if t == "" then Err(Failed(400, "title_required"))
    else Ok(stored.(title := t, content := c, published := p, updatedAt := now))
  }

  /** A merge keeps the stored-note rules. */
  lemma MergeKeepsValid(stored: Note, title: Field<string>, content: Field<string>, published: Field<bool>, now: int)
    requires ValidNote(stored) && MergeNote(stored, title, content, published, now).Ok?
    ensures ValidNote(MergeNote(stored, title, content, published, now).value)
  {
    StripIdempotent(RequestedTitle(stored, title));
  }

  /** An update that names no field only touches the update time. */
  lemma MergeNothing(stored: Note, now: int)
    requires ValidNote(stored)
    ensures MergeNote(stored, Absent, Absent, Absent, now) == Ok(stored.(updatedAt := now))
  {
    assert !AllSpace(stored.title) by {
      assert !IsSpace(stored.title[0]);
    }
    StripUnchanged(stored.title);
  }

  /** A `null` title always fails: it is not the stored title. */
  lemma MergeNullTitle(stored: Note, content: Field<string>, published: Field<bool>, now: int)
    ensures MergeNote(stored, Null, content, published, now) == Err(Failed(400, "title_required"))
  {
  }

  /** `PUT /api/notes/{id}` after the gate, on the notes table, for the
      session's user `owner`: `invalid_id` when the path does not end in an
      integer, `not_found` unless `owner` has a note with that id, and
      otherwise the merge of that note, which replaces it and nothing else. */
  function EditNote(notes: map<int, Note>, owner: int, id: Option<int>,
                    title: Field<string>, content: Field<string>, published: Field<bool>, now: int)
    : (r: Result<map<int, Note>, Reply>)
    ensures id.None? ==> r == Err(Failed(400, "invalid_id"))
    ensures id.Some? && (id.value !in notes || notes[id.value].userId != owner) ==>
      r == Err(Failed(404, "not_found"))
    ensures id.Some? && id.value in notes && notes[id.value].userId == owner ==>
      (r.Ok? <==> !AllSpace(RequestedTitle(notes[id.value], title)))
    ensures r.Err? ==> r.error.Failed?
    ensures r.Ok? ==>
      && id.Some? && id.value in notes && notes[id.value].userId == owner
      && r.value.Keys == notes.Keys
      && (forall k :: k in notes && k != id.value ==> r.value[k] == notes[k])
      && MergeNote(notes[id.value], title, content, published, now) == Ok(r.value[id.value])
  {
    if id.None? then Err(Failed(400, "invalid_id"))
    else if id.value !in notes || notes[id.value].userId != owner then Err(Failed(404, "not_found"))
    else
      match MergeNote(notes[id.value], title, content, published, now)
      case Err(e) => Err(e)
      case Ok(n) => Ok(notes[id.value := n])
  }

  /** An update keeps the table invariant. */
  lemma EditNoteValid(notes: map<int, Note>, nextId: int, owner: int, id: Option<int>,
                      title: Field<string>, content: Field<string>, published: Field<bool>, now: int)
    requires NotesValid(notes, nextId)
    requires EditNote(notes, owner, id, title, content, published, now).Ok?
    ensures NotesValid(EditNote(notes, owner, id, title, content, published, now).value, nextId)
  {
    NotesValidAt(notes, nextId, id.value);
    MergeKeepsValid(notes[id.value], title, content, published, now);
    NotesValidReplace(notes, nextId, id.value, MergeNote(notes[id.value], title, content, published, now).value);
  }

  /** `DELETE FROM notes WHERE id = ? AND user_id = ?`. */
  function DeleteOwned(notes: map<int, Note>, id: int, owner: int): (r: map<int, Note>)
    ensures forall k :: k in r <==> k in notes && !(k == id && notes[k].userId == owner)
    ensures forall k :: k in r ==> r[k] == notes[k]
  {
    if id in notes && notes[id].userId == owner then notes - {id} else notes
  }

  /** Deleting never removes a note of another user, and never removes
      anything when the id is not stored. */
  lemma DeleteKeepsOthers(notes: map<int, Note>, id: int, owner: int)
    ensures forall k :: k in notes && notes[k].userId != owner ==> k in DeleteOwned(notes, id, owner)
    ensures id !in notes ==> DeleteOwned(notes, id, owner) == notes
  {
  }

  /** One entry `os.scandir` reports: its name, whether it is a directory,
      its size and its modification time in seconds. */
  datatype DirEntry = DirEntry(name: string, isDir: bool, size: int, mtime: real)

  /** The JSON object the listing returns for one entry. */
  datatype FileInfo = FileInfo(name: string, isDir: bool, size: int, modified: int)

  /** Python's `int(x)` on a float: truncation toward zero. */
  function Truncate(x: real): (r: int)
    ensures x >= 0.0 ==> r as real <= x < r as real + 1.0
    ensures x < 0.0 ==> r as real - 1.0 < x <= r as real
  {
    if x >= 0.0 then x.Floor else -((-x).Floor)
  }

  /** The listing entry for one directory entry. */
  function Describe(e: DirEntry): FileInfo {
    FileInfo(e.name, e.isDir, e.size, Truncate(e.mtime))
  }
}
