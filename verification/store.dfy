/**
 * The handlers that change the tables, on an in-memory store: login
 * (`POST /api/login`), creating, updating and deleting a note
 * (`POST /api/notes`, `PUT /api/notes/{id}`, `DELETE /api/notes/{id}`), and
 * the directory listing of `GET /api/files`, which builds its entries in a
 * loop.
 *
 * The request's `Cookie` header, the parsed JSON fields and the clock
 * reading `now` are parameters; so are the password check and the fresh
 * session token, which the backend takes from scrypt and from its random
 * source.
 */
module Store {
  import opened Wrappers
  import opened Text
  import opened Rules
  import Cookies
  import Paths

  /** A token as `secrets.token_bytes(32)` and `urlsafe_b64encode` produce
      it: 44 characters of the URL-safe Base64 alphabet and padding. */
  predicate IsTokenText(t: string) {
    |t| == 44 &&
    forall i :: 0 <= i < |t| ==>
      ('A' <= t[i] <= 'Z') || ('a' <= t[i] <= 'z') || ('0' <= t[i] <= '9') ||
      t[i] == '-' || t[i] == '_' || t[i] == '='
  }

  class Store {
    var users: seq<User>
    var sessions: map<string, Session>
    var notes: map<int, Note>
    /** The next `AUTOINCREMENT` id of `notes`. */
    var nextNoteId: int

    /** The table constraints and the rules every handler keeps. */
    ghost predicate Valid()
      reads this`users, this`notes, this`nextNoteId
    {
      && UniqueIds(users) && UniqueEmails(users)
      && NotesValid(notes, nextNoteId)
    }

    /** A store with the given users and no sessions or notes. */
    constructor (users: seq<User>)
      requires UniqueIds(users) && UniqueEmails(users)
      ensures Valid()
      ensures this.users == users && sessions == map[] && notes == map[] && nextNoteId == 1
    {
      this.users := users;
      sessions := map[];
      notes := map[];
      nextNoteId := 1;
    }

    /** `with_session(handler)` for a request whose `Cookie` header
        `get_session_token` read as `token`. */
    function CurrentSession(token: Option<string>, now: int): Option<SessionRow>
      reads this`users, this`sessions
    {
      LookupSession(users, sessions, token, now)
    }

    /** `POST /api/login`: look the normalised e-mail up, check the
        password, and store a session that lasts seven days. The cookie
        that carries the new token then opens a session exactly until it
        expires. */
    method Login(email: string, password: string, verify: (string, string) -> bool,
                 token: string, now: int)
      returns (reply: Reply)
      requires Valid() && IsTokenText(token)
      modifies this
      ensures Valid()
      ensures unchanged(this`users, this`notes, this`nextNoteId)
      ensures match Authenticate(users, email, password, verify)
        case None => reply == Failed(401, "invalid_credentials") && sessions == old(sessions)
        case Some(u) => reply == Done(200) && sessions == old(sessions)[token := NewSession(u.id, now)]
      ensures reply.Done? ==>
        forall later :: CurrentSession(Some(token), later).Some? <==> later < now + SESSION_LIFETIME
    {
      var user := Authenticate(users, email, password, verify);
      if user.None? {
        return Failed(401, "invalid_credentials");
      }
      sessions := sessions[token := NewSession(user.value.id, now)];
      SessionAfterLogin(users, sessions, token, user.value, now);
      reply := Done(200);
    }

    /** `POST /api/notes`: behind the gate, store a new note for the
        session's user under the next id. */
    method CreateNote(token: Option<string>, now: int, title: Option<string>, content: Option<string>,
                      published: bool)
      returns (reply: Reply)
      requires Valid()
      modifies this
      ensures Valid()
      ensures unchanged(this`users, this`sessions)
      ensures match Admit(old(CurrentSession(token, now)))
        case Err(e) => reply == e && notes == old(notes) && nextNoteId == old(nextNoteId)
        case Ok(row) =>
          match NewNote(row.userId, title, content, published, now)
          case Err(e) => reply == e && notes == old(notes) && nextNoteId == old(nextNoteId)
          case Ok(n) =>
            && reply == Done(201)
            && notes == old(notes)[old(nextNoteId) := n]
            && nextNoteId == old(nextNoteId) + 1
    {
      var gate := Admit(CurrentSession(token, now));
      if gate.Err? {
        return gate.error;
      }
      var note := NewNote(gate.value.userId, title, content, published, now);
      if note.Err? {
        return note.error;
      }
      NewNoteValid(gate.value.userId, title, content, published, now);
      NotesValidInsert(notes, nextNoteId, note.value);
      notes := notes[nextNoteId := note.value];
      nextNoteId := nextNoteId + 1;
      reply := Done(201);
    }

    /** `PUT /api/notes/{id}`: behind the gate, merge the request into the
        session user's note with that id. `id` is `None` when the path's
        last segment is not an integer. */
    method UpdateNote(token: Option<string>, now: int, id: Option<int>,
                      title: Field<string>, content: Field<string>, published: Field<bool>)
      returns (reply: Reply)
      requires Valid()
      modifies this
      ensures Valid()
      ensures unchanged(this`users, this`sessions, this`nextNoteId)
      ensures match Admit(old(CurrentSession(token, now)))
        case Err(e) => reply == e && notes == old(notes)
        case Ok(row) =>
          match EditNote(old(notes), row.userId, id, title, content, published, now)
          case Err(e) => reply == e && notes == old(notes)
          case Ok(updated) => reply == Done(200) && notes == updated
    {
      var gate := Admit(CurrentSession(token, now));
      if gate.Err? {
        return gate.error;
      }
      var edited := EditNote(notes, gate.value.userId, id, title, content, published, now);
      if edited.Err? {
        return edited.error;
      }
      EditNoteValid(notes, nextNoteId, gate.value.userId, id, title, content, published, now);
      notes := edited.value;
      reply := Done(200);
    }

    /** `DELETE /api/notes/{id}`: behind the gate, delete the note only if
        the session's user owns it; the answer is 200 either way. */
    method DeleteNote(token: Option<string>, now: int, id: Option<int>)
      returns (reply: Reply)
      requires Valid()
      modifies this
      ensures Valid()
      ensures unchanged(this`users, this`sessions, this`nextNoteId)
      ensures match Admit(old(CurrentSession(token, now)))
        case Err(e) => reply == e && notes == old(notes)
        case Ok(row) =>
          if id.None? then reply == Failed(400, "invalid_id") && notes == old(notes)
          else reply == Done(200) && notes == DeleteOwned(old(notes), id.value, row.userId)
    {
      var gate := Admit(CurrentSession(token, now));
      if gate.Err? {
        return gate.error;
      }
      if id.None? {
        return Failed(400, "invalid_id");
      }
      NotesValidDelete(notes, nextNoteId, id.value, gate.value.userId);
      notes := DeleteOwned(notes, id.value, gate.value.userId);
      reply := Done(200);
    }

    /** `GET /api/files`: behind the gate, resolve the requested path under
        `root` with the string-prefix test of `resolve_path` and describe
        the entries of that directory, in the order the directory reports
        them; a path that does not exist lists nothing. `dirs` maps each
        existing directory to its entries. */
    method ListFiles(token: Option<string>, now: int, root: seq<string>, rel: string,
                     dirs: map<string, seq<DirEntry>>)
      returns (reply: Reply, entries: seq<FileInfo>)
      requires Paths.IsNormal(root)
      ensures match Admit(CurrentSession(token, now))
        case Err(e) => reply == e && entries == []
        case Ok(_) => ListedAs(Paths.ResolvePath(root, rel), dirs, reply, entries)
    {
      var gate := Admit(CurrentSession(token, now));
      if gate.Err? {
        return gate.error, [];
      }
      reply, entries := ListDirectory(Paths.ResolvePath(root, rel), dirs);
    }

    /** `GET /api/files` with the containment test corrected to compare
        whole components, `Paths.ResolveInside`: a sibling directory whose
        name extends the root's last component is refused. */
    method ListFilesInside(token: Option<string>, now: int, root: seq<string>, rel: string,
                           dirs: map<string, seq<DirEntry>>)
      returns (reply: Reply, entries: seq<FileInfo>)
      requires Paths.IsNormal(root)
      ensures match Admit(CurrentSession(token, now))
        case Err(e) => reply == e && entries == []
        case Ok(_) => ListedAs(Paths.ResolveInside(root, rel), dirs, reply, entries)
      ensures reply == Done(200) ==> root <= Paths.Target(root, rel)
    {
      var gate := Admit(CurrentSession(token, now));
      if gate.Err? {
        return gate.error, [];
      }
      reply, entries := ListDirectory(Paths.ResolveInside(root, rel), dirs);
    }
  }

  /** The reply and listing for a resolved path: `invalid_path` when it was
      refused, otherwise one description per entry of the directory, and
      none when the directory does not exist. */
  predicate ListedAs(target: Result<string, string>, dirs: map<string, seq<DirEntry>>,
                     reply: Reply, entries: seq<FileInfo>)
  {
    match target
    case Err(_) => reply == Failed(400, "invalid_path") && entries == []
    case Ok(path) =>
      && reply == Done(200)
      && (path !in dirs ==> entries == [])
      && (path in dirs ==>
           |entries| == |dirs[path]| &&
           forall k :: 0 <= k < |entries| ==> entries[k] == Describe(dirs[path][k]))
  }

  /** The listing step of `GET /api/files` once the path is resolved. */
  method ListDirectory(target: Result<string, string>, dirs: map<string, seq<DirEntry>>)
    returns (reply: Reply, entries: seq<FileInfo>)
    ensures ListedAs(target, dirs, reply, entries)
    ensures reply == Done(200) <==> target.Ok?
  {
    if target.Err? {
      return Failed(400, "invalid_path"), [];
    }
    entries := [];
    if target.value in dirs {
      entries := DescribeAll(dirs[target.value]);
    }
    reply := Done(200);
  }

  /** The loop of `GET /api/files` over `os.scandir`: one description per
      entry, in the directory's order. */
  method DescribeAll(listing: seq<DirEntry>) returns (entries: seq<FileInfo>)
    ensures |entries| == |listing|
    ensures forall k :: 0 <= k < |entries| ==> entries[k] == Describe(listing[k])
  {
    entries := [];
    var i := 0;
    while i < |listing|
      invariant 0 <= i <= |listing|
      invariant |entries| == i
      invariant forall k :: 0 <= k < i ==> entries[k] == Describe(listing[k])
    {
      entries := entries + [Describe(listing[i])];
      i := i + 1;
    }
  }

  /** The cookie the browser sends back after login reads as the token:
      a token has neither `;` nor whitespace. */
  lemma TokenCookie(token: string)
    requires IsTokenText(token)
    ensures Cookies.SessionToken(Some(Cookies.SESSION_PREFIX + token)) == Some(token)
    ensures token != ""
  {
    assert ';' !in token by {
      forall i | 0 <= i < |token| ensures token[i] != ';' { }
    }
    NotSpace(token[|token| - 1]);
    Cookies.SessionCookieRead(token);
  }
}
