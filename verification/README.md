# Notes-and-files backend: a Dafny model

This project models the request logic of a small admin backend
(`backend/app.py`). The backend serves a profile page, private notes and a
file area over HTTP, and stores its state in SQLite. The model covers:

- the reversible obfuscation of stored profile fields (`simple_encrypt`,
  `simple_decrypt`): UTF-8, XOR with a repeating 32-octet key, then Base64;
- the link normalisation `clean_url`;
- the sandboxed path resolution `resolve_path`, i.e. `os.path.join` and
  POSIX `normpath` followed by a string-prefix test against the root;
- reading the session cookie (`get_session_token`);
- the session lookup `with_session` and the admin test `is_admin`, which
  together make the gate of the notes and files handlers: 401 without a
  session, then 403 for a non-admin;
- login, and creating, updating and deleting notes, as methods of a `Store`
  class. The class holds the `users`, `sessions` and `notes` tables and the
  next note id;
- the directory listing loop of `GET /api/files`.

The modules follow the program's layers:

- `Text` holds the Python string operations the code uses.
- `Bytes`, `Utf8`, `Base64` and `Obfuscation` hold the field obfuscation.
- `Urls`, `Paths` and `Cookies` hold the request helpers.
- `Rules` holds the table rows and handler rules as functions.
- `Store` holds the stateful handlers.

Some inputs are parameters of the model:

- The current time `now`.
- The password check `verify`, which stands for `verify_password` (scrypt
  with `hmac.compare_digest`).
- The new session token, required to look like `secrets` output put through
  URL-safe Base64.
- The obfuscation key, which stands for the SHA-256 digest of the
  application secret.
- The directory contents seen by `os.scandir`.

## Model

| member | source | states |
|---|---|---|
| Text.Strip | backend/app.py:144 | `strip()` gives `""` exactly for an all-whitespace input; otherwise the result starts and ends with a non-whitespace character and is no longer than the input |
| Text.StripSlice | backend/app.py:144 | the stripped string is a contiguous slice of the input, and everything cut off on either side is whitespace |
| Text.StripUnchanged | backend/app.py:144 | a string with no whitespace at either end is its own strip |
| Text.StripIdempotent | backend/app.py:144 | stripping twice is stripping once |
| Text.StripKeeps | backend/app.py:196 | a non-whitespace character of a piece is still there after stripping |
| Text.StripWithin | backend/app.py:196 | stripping never introduces a character |
| Text.TrimLeading | backend/app.py:154 | `lstrip(c)` returns a suffix of the input; it removes only copies of `c` and does not start with `c` |
| Text.IndexOf | backend/app.py:196 | the first occurrence of a character: `None` exactly when absent; otherwise an index holding it, with no earlier copy |
| Text.Split | backend/app.py:194 | `split(sep)` gives at least one piece; no piece holds `sep`; joining the pieces with `sep` restores the input |
| Text.SplitConcat | backend/app.py:194 | splitting `a + sep + b` is splitting `a` followed by splitting `b` |
| Text.SplitJoin | backend/app.py:194 | `split` inverts `join` on pieces without the separator |
| Text.SplitNoSeparator | backend/app.py:194 | a string without the separator is one piece |
| Text.LowerChar | backend/app.py:361 | lower-casing changes exactly the ASCII capitals, leaves no capital, and keeps whitespace as whitespace |
| Text.Lower | backend/app.py:361 | `lower()` maps every character by `LowerChar`, keeps the length and leaves no capital |
| Text.StrippedLower | backend/app.py:361 | lower-casing a stripped string leaves it stripped |
| Bytes.Xor | backend/app.py:128 | Python's `^` on octets, bit by bit; `Bytes.XorInvolutive` proves it undoes itself |
| Bytes.XorBitsInvolutive | backend/app.py:128 | XOR with the same `k` twice gives back every value that fits the width |
| Bytes.XorInvolutive | backend/app.py:128 | `(b ^ k) ^ k == b` for octets |
| Utf8.Encode | backend/app.py:127 | `str.encode()` produces at least one octet per character |
| Utf8.Decode | backend/app.py:138 | strict `decode()`, `None` where Python raises; `Utf8.DecodeEncode` and `Utf8.EncodeDecode` prove it the exact inverse of `encode()` |
| Utf8.DecodeFirst | backend/app.py:138 | the strict decoder consumes between one octet and the rest of the input for each character, or fails |
| Utf8.DecodeFirstOfEncoded | backend/app.py:127-138 | the decoder reads back each character from its encoding, consuming exactly those octets |
| Utf8.DecodeTwo | backend/app.py:138 | a two-octet form of U+0080..U+07FF decodes to its scalar value |
| Utf8.DecodeThree | backend/app.py:138 | a three-octet form of a non-surrogate in U+0800..U+FFFF decodes to its scalar value |
| Utf8.DecodeFour | backend/app.py:138 | a four-octet form of U+10000..U+10FFFF decodes to its scalar value |
| Utf8.DecodeEncode | backend/app.py:127-138 | `text.encode().decode() == text` for every text |
| Utf8.DecodeFirstIsEncoding | backend/app.py:138 | the octets the decoder consumes for a character are exactly that character's encoding |
| Utf8.TwoIsEncoding | backend/app.py:138 | every accepted two-octet form is the encoding of a scalar in U+0080..U+07FF |
| Utf8.ThreeIsEncoding | backend/app.py:138 | every accepted three-octet form is the encoding of a non-surrogate scalar in U+0800..U+FFFF |
| Utf8.FourIsEncoding | backend/app.py:138 | every accepted four-octet form is the encoding of a scalar in U+10000..U+10FFFF |
| Utf8.EncodeDecode | backend/app.py:127-138 | whatever decodes strictly is the encoding of its decoding; no two octet strings decode to one text |
| Utf8.DecodeStep | backend/app.py:138 | decoding splits into the first character, which the first octets encode, and the decoding of the rest |
| Utf8.EncodeCons | backend/app.py:127 | the encoding of a text is its first character's encoding followed by the rest's |
| Base64.Letter | backend/app.py:129 | no six-bit value is written as the pad `=` |
| Base64.Value | backend/app.py:136 | an alphabet character reads as the six-bit value it was written for; any other character is skipped |
| Base64.ValueOfLetter | backend/app.py:129-136 | every letter reads back as its value |
| Base64.Encode | backend/app.py:129 | `b64encode` over groups of three octets with `=` padding; `Base64.EncodedLength` gives its length and `Base64.DecodeEncode` its inverse |
| Base64.Decode | backend/app.py:136 | `b64decode` without validation: characters outside the alphabet are dropped, and incomplete data is refused (`None` where Python raises); `Base64.DecodeEncode`, `Base64.DecodeRejectsLoneCharacter` and `Base64.DecodeSkipsEarlyPad` state its behaviour |
| Base64.Run | backend/app.py:136 | the decoder loop over the characters; `Base64.RunGroup`, `Base64.RunEncoded` and `Base64.RunEncodedGroups` state what it does on encoded input |
| Base64.EncodedLength | backend/app.py:129 | `b64encode` writes four characters per started group of three octets |
| Base64.Feed | backend/app.py:136 | reading a character keeps the decoder's carried bits within what the next octet can hold |
| Base64.RunLetter | backend/app.py:136 | an alphabet character at the front of the input is fed to the decoder |
| Base64.RunGroup | backend/app.py:129-136 | decoding a full encoded group appends its three octets and returns to the start of a quantum |
| Base64.GroupBits | backend/app.py:129 | the four six-bit values of a group fit the alphabet and rebuild its three octets |
| Base64.FeedGroup | backend/app.py:136 | four values fed from the start of a quantum append three octets |
| Base64.RunEncoded | backend/app.py:129-136 | decoding the encoding of any octets appends exactly those octets |
| Base64.RunLastOne | backend/app.py:129-136 | a final single octet, two letters and `==`, decodes back |
| Base64.RunLastTwo | backend/app.py:129-136 | a final pair of octets, three letters and `=`, decodes back |
| Base64.DecodeEncode | backend/app.py:129-136 | `b64decode(b64encode(b)) == b` for every byte string |
| Base64.RunEncodedGroups | backend/app.py:129-136 | decoding the encoding of whole groups of three octets, followed by any text, appends those octets and goes on with the text from the start of a quantum |
| Base64.DecodeRejectsLoneCharacter | backend/app.py:136 | for every octet string whose length is a multiple of three and every alphabet letter, the encoding followed by that lone letter is refused |
| Base64.LoneCharacterExample | backend/app.py:136 | instance: `QUJDQ` is refused |
| Base64.EarlyPadSkipped | backend/app.py:136 | for every remaining text, a `=` before the second character of a quantum is skipped |
| Base64.DecodeSkipsEarlyPad | backend/app.py:136 | instance of `Base64.EarlyPadSkipped`: `====` decodes to nothing |
| Obfuscation.Encrypt | backend/app.py:125-130 | `simple_encrypt`: the ciphertext Base64-decodes to the key-XORed UTF-8 octets of the text |
| Obfuscation.Decrypt | backend/app.py:133-140 | `simple_decrypt`: every ciphertext that is not Base64 decrypts to `""`, and so does every ciphertext whose XORed octets are not UTF-8, instead of raising |
| Obfuscation.XorWithKey | backend/app.py:128 | the XOR stream keeps the length: output octet `i` is `data[i] ^ key[i % 32]` |
| Obfuscation.XorWithKeyInvolutive | backend/app.py:128-137 | XOR with the key stream twice restores the data |
| Obfuscation.DecryptEncrypt | backend/app.py:125-140 | `simple_decrypt(simple_encrypt(t)) == t` for every text of Unicode scalar values |
| Obfuscation.EncryptLength | backend/app.py:125-130 | the ciphertext has `4 * ceil(n / 3)` characters for an `n`-octet UTF-8 text |
| Obfuscation.DecryptSound | backend/app.py:133-140 | a non-empty decryption carries the same octets as re-encrypting it |
| Obfuscation.DecryptRejectsBadBase64 | backend/app.py:133-140 | witness of `Obfuscation.Decrypt`'s first rejection: `QUJDQ` is not Base64 and decrypts to `""` for every key |
| Obfuscation.DecryptRejectsBadUtf8 | backend/app.py:133-140 | witness of the second rejection: for every key there is a well-formed ciphertext whose octets are not UTF-8, and it decrypts to `""` |
| Urls.CleanUrl | backend/app.py:143-149 | `None`, empty and all-whitespace input give `""`. Otherwise the result is the stripped input, with `https://` added exactly when neither scheme is present; it has a scheme and is already stripped |
| Urls.CleanUrlIdempotent | backend/app.py:143-149 | cleaning a cleaned link changes nothing |
| Paths.Step | backend/app.py:155 | one `normpath` step on a normal path and a slash-free component gives a normal path |
| Paths.Normalize | backend/app.py:155 | the `normpath` fold keeps a path normal: no empty, `.` or `..` component |
| Paths.Relative | backend/app.py:153-154 | after `strip()` and `lstrip("/")` the relative part does not start with `/` |
| Paths.PathJoin | backend/app.py:155 | `os.path.join` of two strings: an absolute second part replaces the first, otherwise one `/` joins them; `Paths.NormPathOfJoined` states what normalising the join gives |
| Paths.NormPath | backend/app.py:155 | POSIX `normpath` of an absolute path, keeping a leading `//`; `Paths.NormPathAbsolute` states it is the fold of the components |
| Paths.SafePath | backend/app.py:155 | `normpath(join(root, rel))` is the rendering of the components that folding `rel` onto the root gives, and those are normal |
| Paths.SafePathIsTarget | backend/app.py:155 | the joined string is absolute and normalises to the folded components |
| Paths.JoinedIsFold | backend/app.py:155 | for any relative part without a leading `/`, the join onto the root is absolute and normalises to the fold of its components, which is normal |
| Paths.ResolvePath | backend/app.py:152-158 | `resolve_path` as written: the error `invalid_path` exactly when the normalised string does not start with the root's string; otherwise that string |
| Paths.NormPathOfJoined | backend/app.py:155 | joining the root and a relative part and normalising the string is the fold of the relative components onto the root |
| Paths.SplitUnderRoot | backend/app.py:155 | the components of the root followed by a relative part fold to the relative part folded onto the root |
| Paths.NormPathAbsolute | backend/app.py:155 | a path with one leading slash normalises to the fold of the components after it |
| Paths.NormalizeConcat | backend/app.py:155 | folding two component lists is folding the second from the result of the first |
| Paths.NormalizeNames | backend/app.py:155 | plain names are appended unchanged |
| Paths.JoinAppend | backend/app.py:155 | joining a path extended by more names extends its string after a `/` |
| Paths.JoinEnds | backend/app.py:155 | the joined components of a non-empty normal path neither start nor end with `/` |
| Paths.InsideRootAccepted | backend/app.py:156-158 | a path whose components start with the root's is accepted with its normalised string |
| Paths.RenderPrefix | backend/app.py:156 | a component prefix is a string prefix |
| Paths.NoParentStaysInside | backend/app.py:155 | without `..` components the fold only appends to the root |
| Paths.NoParentAccepted | backend/app.py:152-158 | every relative path without `..` is accepted and stays under the root |
| Paths.LeadingSlashIgnored | backend/app.py:153-154 | for a `p` that does not start with whitespace, `/p` resolves exactly as `p`: absolute inputs are taken relative to the root |
| Paths.RelativeDropsSlash | backend/app.py:153-154 | for a `p` that does not start with whitespace, the prepared relative part of `/p` is that of `p` |
| Paths.StripAfterSlash | backend/app.py:153 | for a `p` that does not start with whitespace, `("/" + p).strip()` is `"/" + p.strip()` |
| Paths.TrailingSpaceAfterSlash | backend/app.py:153 | `/p` and `p` end in the same run of whitespace |
| Paths.SameRelative | backend/app.py:152-158 | two inputs with the same prepared relative part resolve alike |
| Paths.ParentOfRootRejected | backend/app.py:156-157 | `..` under a non-empty root is refused with `invalid_path` |
| Paths.TargetOfParent | backend/app.py:155 | `..` names the root's parent |
| Paths.RelativeOfPlain | backend/app.py:153-154 | a part that needs no stripping and has no leading slash is used as it is |
| Paths.RenderShorter | backend/app.py:156 | a parent's string is shorter than its child's |
| Paths.SiblingAccepted | backend/app.py:156-157 | as written, `../<sibling>` whose name extends the root's last name resolves to the sibling, outside the root |
| Paths.SiblingRenderPrefix | backend/app.py:156 | the root's string is a prefix of such a sibling's string |
| Paths.SiblingTarget | backend/app.py:155 | `../sibling` under `up/name` has the components `up/sibling` |
| Paths.ResolveInside | backend/app.py:156-157 | corrected check: accepted exactly when the resolved components start with the root's components |
| Paths.ResolveInsideRefines | backend/app.py:152-158 | whatever the corrected check accepts, `resolve_path` accepts with the same result |
| Paths.SiblingRejectedInside | backend/app.py:156-157 | the corrected check refuses the sibling directory |
| Cookies.PieceToken | backend/app.py:195-198 | a piece yields a token exactly when its stripped text starts with `session=`; the token is the rest of it |
| Cookies.NamedToken | backend/app.py:196-198 | cutting at the first `=` yields the value exactly when the name is `session` |
| Cookies.NoEqualsNoSession | backend/app.py:195-196 | a piece without `=` is never the session piece |
| Cookies.SessionName | backend/app.py:196-197 | in a piece starting `session=`, the first `=` ends the name `session` |
| Cookies.FirstSome | backend/app.py:194-199 | the first piece that yields a token decides; none yields `None` |
| Cookies.Tokens | backend/app.py:194-197 | the per-piece tokens, in order; `Cookies.FirstToken` and `Cookies.TokensConcat` state what the scan yields |
| Cookies.SessionToken | backend/app.py:189-199 | no token exactly when the header is missing, empty, or none of its `;`-pieces strips to a text starting `session=`; otherwise the token is the rest of the first such piece |
| Cookies.FirstToken | backend/app.py:194-199 | over any pieces, the first session piece gives the token, and there is none exactly when no piece is a session piece |
| Cookies.SessionCookieRead | backend/app.py:184-199 | the cookie `session=<token>` is read back as the token when it has no `;` and no trailing whitespace |
| Cookies.SingleCookie | backend/app.py:194 | a header without `;` is one piece |
| Cookies.SessionPieceRead | backend/app.py:195-198 | the piece `session=<token>` yields the token |
| Cookies.SessionTokenConcat | backend/app.py:194-199 | pieces are searched in order: the first part of a header wins if it has a session piece |
| Cookies.TokensConcat | backend/app.py:194-197 | the pieces of two parts of a header are examined as the first part's, then the second's |
| Cookies.FirstSomeConcat | backend/app.py:194-199 | the first value in two lists is the first of the first list, else of the second |
| Rules.UserByEmail | backend/app.py:364-367 | the lookup returns a user with that address; `None` exactly when there is none |
| Rules.UserById | backend/app.py:207-211 | the join returns a user with that id; `None` exactly when there is none |
| Rules.UserByIdUnique | backend/app.py:207-211 | with unique ids the join finds exactly the owner of the id |
| Rules.UserByEmailUnique | backend/app.py:364-367 | with unique addresses the lookup finds exactly the user with the address |
| Rules.NewSession | backend/app.py:373-377 | a new session belongs to the user, records `now`, and is live exactly before `now + 7*24*3600` |
| Rules.LookupSession | backend/app.py:202-214 | a session row exists exactly for a non-empty token that is stored, not expired (`expires_at > now`) and whose user exists; the row carries the token, the user id and that user's admin flag |
| Rules.SessionAfterLogin | backend/app.py:373-378 | after login stores the session, its token opens a session exactly until seven days after the login |
| Rules.IsAdmin | backend/app.py:217-218 | `is_admin`: a session whose admin column is non-zero; `Rules.Admit` states the gate it makes |
| Rules.Admit | backend/app.py:492-498 | 401 `auth_required` exactly without a session; 403 `admin_only` exactly for a non-admin session; otherwise the session row |
| Rules.NormalizeEmail | backend/app.py:361 | the login address, stripped and lower-cased; `Rules.NormalizeEmailClean` and `Rules.NormalizeEmailIdempotent` state what that gives |
| Rules.NormalizeEmailClean | backend/app.py:361 | the normalised address has no surrounding whitespace and no capital |
| Rules.NormalizeEmailIdempotent | backend/app.py:361 | normalising a normalised address changes nothing |
| Rules.Authenticate | backend/app.py:361-371 | login accepts a user whose address is the normalised e-mail and whose hash the password passes; it fails exactly when no user with that address passes |
| Rules.NotesValidAt | backend/app.py:58-69 | every stored note keeps the title and flag rules, under an id below the next id |
| Rules.NotesValidInsert | backend/app.py:509-512 | inserting a valid note under the next id keeps the table invariant, with the next id advanced |
| Rules.NotesValidReplace | backend/app.py:580-583 | replacing a note by a valid one keeps the invariant |
| Rules.NotesValidDelete | backend/app.py:606-609 | deleting keeps the invariant |
| Rules.NewNote | backend/app.py:500-511 | `title_required` exactly when the title is missing or all whitespace; otherwise the stripped title, `content or ""`, `published` 1 exactly when truthy, both times `now` |
| Rules.NewNoteValid | backend/app.py:500-511 | a created note keeps the stored-note rules |
| Rules.MergeNote | backend/app.py:569-583 | the merge: title from the request, or the stored one when the key is absent, stripped, and refused with `title_required` when empty; content replaced only when given; `published` kept when absent, 0 for `null`, else 1 exactly when truthy; owner and creation time kept; update time `now` |
| Rules.MergeKeepsValid | backend/app.py:569-583 | a merge keeps the stored-note rules |
| Rules.MergeNothing | backend/app.py:569-575 | an update naming no field only changes the update time |
| Rules.MergeNullTitle | backend/app.py:569-579 | a `null` title always fails with `title_required` |
| Rules.EditNote | backend/app.py:554-583 | `invalid_id` without an integer id; `not_found` unless the user owns the note; success exactly when the merged title is non-empty; on success only that note changes, to its merge |
| Rules.EditNoteValid | backend/app.py:569-583 | an update keeps the table invariant |
| Rules.DeleteOwned | backend/app.py:606-609 | exactly the note with that id and that owner is removed; every other note stays as it was |
| Rules.DeleteKeepsOthers | backend/app.py:606-609 | another user's note is never removed; a missing id removes nothing |
| Rules.Truncate | backend/app.py:324 | `int(x)` truncates toward zero |
| Rules.Describe | backend/app.py:318-325 | one entry's description; `Rules.Truncate` and `Store.DescribeAll` state it |
| Store.Store.constructor | backend/app.py:33-69 | an empty store with unique users satisfies the table invariant |
| Store.Store.CurrentSession | backend/app.py:202-214 | `with_session` on the store's tables: `Rules.LookupSession`, whose contract gives when a session row exists and what it carries |
| Store.Store.Login | backend/app.py:359-387 | on failed authentication 401 `invalid_credentials` and no change. Otherwise 200 and the session table gains the token for the user with a seven-day expiry, after which the token opens a session exactly until then. Users and notes are unchanged and the invariant is kept |
| Store.Store.CreateNote | backend/app.py:492-516 | gate errors and `title_required` change nothing. Otherwise 201, the note is stored under the next id and the next id advances. Users and sessions are unchanged and the invariant is kept |
| Store.Store.UpdateNote | backend/app.py:546-587 | gate errors, then `EditNote`'s errors, change nothing; otherwise 200 and the notes table is `EditNote`'s result; the invariant is kept |
| Store.Store.DeleteNote | backend/app.py:592-612 | gate errors and `invalid_id` change nothing; otherwise 200 and the notes table is `DeleteOwned`'s result, even when nothing matched |
| Store.Store.ListFiles | backend/app.py:300-328 | as written, with `resolve_path`'s string-prefix test: gate errors first, then `invalid_path`; otherwise 200 with one description per entry of the resolved directory, in order, and none when it does not exist |
| Store.Store.ListFilesInside | backend/app.py:300-328 | the same handler with the corrected containment test: a 200 reply only for a path whose components start with the root's |
| Store.ListedAs | backend/app.py:311-326 | the reply and entries for a resolved path: `invalid_path` for a refused one, otherwise the descriptions of the directory's entries |
| Store.ListDirectory | backend/app.py:311-326 | the listing step after resolution yields exactly `ListedAs`, and 200 exactly when the path was accepted |
| Store.DescribeAll | backend/app.py:315-326 | the listing loop yields, for every entry in order, its description |
| Store.TokenCookie | backend/app.py:184-199 | a token as login makes it is non-empty, and the cookie set for it is read back as that token |

## Left out

- HTTP serving, headers, CORS and JSON bodies (`json_response`, `do_OPTIONS`, `set_session_cookie`'s header writing, `parse_json`, `run`) are not modelled. Handlers take the parsed fields and the token read from the `Cookie` header. `Store.TokenCookie` links that token to the header login sets.
- SQLite, the schema set-up and `seed_default_admin` are left out. The three tables are fields of `Store`. The `UNIQUE` e-mail column and the id keys become the invariant `Valid`.
- `hash_password` and `verify_password` (scrypt, `hmac.compare_digest`) are foreign calls. Login takes the check as the parameter `verify`.
- The SHA-256 key derivation is not modelled; the key is any 32 octets. `secrets.token_bytes` is randomness; the token is a parameter with the shape the URL-safe encoding gives it.
- The clock is the parameter `now`.
- The real filesystem is left out. The listing takes the directories as a map, and `os.path.exists` becomes membership in it. `os.scandir` failing on a path that is a file is not modelled.
- Store.Store.Login: the `email` and `password` fields are strings, `""` when missing or `null`. JSON values of other types are not modelled. The same holds for the note fields; `published` is a boolean, not any truthy JSON value.
- Store.Store.UpdateNote, Store.Store.DeleteNote: `int()` parsing of the last path segment is not modelled; the id arrives as `Option<int>`, `None` when parsing fails.
- Text.LowerChar, Text.Lower: `str.lower()` is modelled for ASCII capitals only; other scripts' case mappings are left out.
- Obfuscation.DecryptEncrypt: holds for texts of Unicode scalar values, the only texts the model has. A Python string can also hold a lone surrogate (a JSON body with `"\ud800"` gives one). For such a text `plaintext.encode()` raises in `simple_encrypt`, and `simple_decrypt` on a ciphertext containing one returns `""`. Those strings are not modelled.
- Paths.ResolvePath: `FILES_ROOT` is taken to be absolute and already normalised, given by its components, so `os.path.abspath(FILES_ROOT)` is its rendering.
- Handlers outside login and the notes endpoints are not modelled: `/api/me`, the admin users endpoints, logout, the blog, the notes listing, upload, folder creation and file deletion. Of the file endpoints only `resolve_path` and the listing loop are modelled.
- The frontend is not modelled; it is DOM and `fetch` glue.

## Findings

| source | as written | input that shows it | evidently intended | confidence | as-written member | corrected member |
|---|---|---|---|---|---|---|
| backend/app.py:156-157 | the containment test is `safe_path.startswith(abspath(FILES_ROOT))`, a string prefix | root `/data/files`, path `../files2`: it resolves to `/data/files2`, which starts with `/data/files` and is accepted | only paths inside the root directory are accepted: the resolved components start with the root's components | not executed | Paths.SiblingAccepted (with Paths.ResolvePath) | Paths.ResolveInside, with Paths.ResolveInsideRefines and Paths.SiblingRejectedInside; Store.Store.ListFilesInside is the handler using it |
