# Token-based accounts and sessions, in Dafny

This project models the account and session module of a small TypeScript
back end. A single JSON document `{ users: User[] }` is kept in a
process-wide cache in front of the file `database.json`. Three operations
change it:

- `userRegister` validates an email, two names and a password, appends a
  user and opens its first session;
- `userLogin` checks a password against the stored hash and either counts a
  failed attempt or counts the login and opens a session;
- `userLogout` removes the session a token names.

A token is `encodeURIComponent(JSON.stringify({sessionId, userId}))`. It is
valid while the user it names lists its session id among its active
sessions.

Modules, one per source file, plus two for the codecs the token uses:

- `DataStore` (`data_store.dfy`): the `User`, `Data` and `TokenObject`
  records. A `Store` class has two fields: `cache` (the module-level
  `dataStore`) and `file` (the parsed content of `database.json`, `None`
  while the file does not exist). `getData` and `saveData` are methods on
  it. `WellFormed` is the store invariant: every user's id is its position,
  and emails are unique.
- `HelperFunctions` (`helper_functions.dfy`): the name and password
  validators, the email lookup and the two answer-option predicates, as
  pure functions.
- `UriComponent` (`uri_component.dfy`): `encodeURIComponent` and
  `decodeURIComponent` over UTF-8. The main result is
  `DecodeURIComponent(EncodeURIComponent(s)) == Ok(s)` for every string.
- `Json` (`json.dfy`): `JSON.stringify` of the token object, and the part
  of `JSON.parse` that reads a flat object of scalar members back.
- `Token` (`token.dfy`): `generateToken`, `decodeToken` and their round
  trip. It also has `validateToken` and `findUserWithToken` as search
  loops over the store, plus `checkToken` and `generateSessionId`.
- `Auth` (`main.dfy`): the three account operations.
  - Each is first a function from the document to an `Outcome`: the result
    the caller gets, and the document written back if one is written. The
    lemmas state what the operation promises.
  - Each is then a module-level method that takes the `Store`, runs the
    source's steps and is proved to produce that outcome.

The foreign pieces are parameters:

- `hashPassword : string -> string`: it is imported by `main.ts` but not
  defined in `helperFunctions.ts`.
- `isEmail : string -> bool`: from the `is-email` package.
- `random : real` in `[0, 1)`: the value `Math.random()` would return.

## Model

| member | source | states |
|---|---|---|
| `DataStore.Store.constructor` | dataStore.ts:24 | a fresh process has nothing cached; the file is whatever is on disk |
| `DataStore.Store.ViewIsFileContent` | dataStore.ts:37-51 | while the cache agrees with the file, the document `getData` returns is the file's document, or the default one when there is no file |
| `DataStore.Store.GetData` | dataStore.ts:37-51 | a set cache is returned without consulting the file; with no cache and no file the result is `{users: []}`; with no cache and a file it is the file's document; the result becomes the cache, the file is not touched and the visible document does not change |
| `DataStore.Store.SaveData` | dataStore.ts:53-56 | the whole document replaces both the file's content and the cache, so the next `getData` returns it |
| `HelperFunctions.Utf16Length` | helperFunctions.ts:36 | JavaScript's `length` of a string (UTF-16 code units) lies between its number of characters and twice that |
| `HelperFunctions.Utf16LengthOfAscii` | helperFunctions.ts:22 | for ASCII text, `length` is the number of characters |
| `HelperFunctions.MatchesNamePattern` | helperFunctions.ts:22 | `/^[a-zA-Z'\- ]+$/` matches exactly the non-empty strings of ASCII letters, apostrophes, hyphens and spaces |
| `HelperFunctions.ContainsLetter` | helperFunctions.ts:36 | `/[A-Za-z]/` matches exactly when some character is an ASCII letter |
| `HelperFunctions.ContainsDigit` | helperFunctions.ts:36 | `/\d/` matches exactly when some character is a decimal digit |
| `HelperFunctions.CheckNameIsValidInput` | helperFunctions.ts:21-26 | true exactly when the name has 2 to 20 characters, each an ASCII letter, apostrophe, hyphen or space |
| `HelperFunctions.CheckValidPassword` | helperFunctions.ts:35-40 | true exactly when the password has an ASCII letter, a digit, and a length of at least 8 |
| `HelperFunctions.PasswordExamples` | helperFunctions.ts:35-40 | `"abc12345"` passes; `"12345678"`, `"abcdefgh"` and `"ab1"` fail |
| `HelperFunctions.NameExamples` | helperFunctions.ts:21-26 | `"Anne-Marie"` passes; a one-letter name, a name with a digit and a 21-letter name fail |
| `HelperFunctions.FirstIndexWithEmail` | helperFunctions.ts:11 | `find` by email: no index exactly when no user has the email, otherwise the lowest index that has it |
| `HelperFunctions.FindUserWithEmail` | helperFunctions.ts:10-12 | `undefined` exactly when no user has the email, otherwise the first user (lowest index) with it |
| `HelperFunctions.Answers` | helperFunctions.ts:48 | the `map` to answer texts keeps the length and the order |
| `HelperFunctions.ElementsSize` | helperFunctions.ts:49 | a `Set` built from a list is never larger than the list, and is as large exactly when the list has no repeated element |
| `HelperFunctions.HasDuplicateStrings` | helperFunctions.ts:47-50 | true exactly when two different positions carry the same answer text |
| `HelperFunctions.FirstCorrect` | helperFunctions.ts:58 | `find` on `correct`: nothing exactly when no option is correct, otherwise the first correct one |
| `HelperFunctions.HasCorrect` | helperFunctions.ts:57-62 | true exactly when some option is marked correct |
| `UriComponent.HexValue` | token.ts:26 | a character read as a hexadecimal digit, of either case, has a value in 0..15 |
| `UriComponent.HexDigit` | token.ts:11-16 | escapes are written with upper-case hexadecimal digits that read back as the same value |
| `UriComponent.Utf8Encode` | token.ts:11-16 | UTF-8 encodes a character as 1 to 4 bytes, and as 1 byte exactly when it is ASCII |
| `UriComponent.Utf8RoundTrip` | token.ts:11-26 | decoding the UTF-8 bytes of a character gives the character back, and the leading byte announces the sequence's length |
| `UriComponent.Utf8Decode` | token.ts:26 | a UTF-8 sequence is accepted only when its leading byte announces its length and the rest are continuation bytes; it is one byte exactly when it decodes to an ASCII character |
| `UriComponent.Utf8DecodeRoundTrip` | token.ts:11-26 | encoding the character an accepted sequence decodes to gives that sequence back, so each accepted sequence is the one encoding of its character |
| `UriComponent.EscapeByte` | token.ts:11-16 | a byte is written as a well-formed `%XX` escape |
| `UriComponent.EscapeBytes` | token.ts:11-16 | each byte becomes exactly three characters |
| `UriComponent.EncodeChar` | token.ts:11-16 | a character is left alone or written as well-formed escapes |
| `UriComponent.EncodedChars` | token.ts:11-16 | encoded text holds only unescaped characters and `%` |
| `UriComponent.EncodeURIComponent` | token.ts:11-16 | the output contains only unescaped characters and well-formed `%XX` escapes |
| `UriComponent.ReadEscape` | token.ts:26 | a read escape is one byte, and consumes exactly three characters |
| `UriComponent.ReadEscapes` | token.ts:26 | reading `k` escapes gives `k` bytes and consumes `3k` characters |
| `UriComponent.DecodeEscape` | token.ts:26 | decoding one escaped character consumes input |
| `UriComponent.ReadEscapeByte` | token.ts:11-26 | reading an escape that was written for a byte gives the byte back |
| `UriComponent.ReadEscapeBytes` | token.ts:11-26 | reading back the escapes written for a byte sequence gives the sequence back |
| `UriComponent.DecodeEncodedChar` | token.ts:11-26 | decoding an encoded character followed by more text gives the character followed by the decoding of the rest |
| `UriComponent.DecodeURIComponent` | token.ts:26 | `decodeURIComponent` never lengthens its input, and text without `%` decodes to itself |
| `UriComponent.DecodeEncode` | token.ts:11-26 | `decodeURIComponent(encodeURIComponent(s)) == s` for every string |
| `Json.DigitChar` | token.ts:12-15 | a digit value is written as a decimal digit character |
| `Json.NatToDecimal` | token.ts:12-15 | a natural number is written as decimal digits with no leading zero |
| `Json.DecimalRoundTrip` | token.ts:12-26 | the value of the digits written for a number is that number |
| `Json.IntToDecimal` | token.ts:12-15 | an integer is written as decimal digits whose value is the number, after a `-` exactly when it is negative |
| `Json.SpanDigits` | token.ts:26 | splits the text into its longest run of leading digits and the rest |
| `Json.SpanDigitsOf` | token.ts:26 | digits followed by a non-digit split exactly there |
| `Json.ParseNumber` | token.ts:26 | reading a number consumes input |
| `Json.ParseIntToDecimal` | token.ts:12-26 | reading an integer written by `JSON.stringify`, followed by something that ends a number, gives the integer back |
| `Json.SkipWhitespace` | token.ts:26 | skipping whitespace leaves a suffix that starts with something else |
| `Json.SpanStringChars` | token.ts:26 | splits off the characters allowed unescaped inside a string |
| `Json.ParseString` | token.ts:26 | reading a string consumes input |
| `Json.ParsePlainString` | token.ts:12-26 | a quoted string without escapes reads back as itself |
| `Json.SpanPlain` | token.ts:26 | plain string characters followed by something else split exactly there |
| `Json.ParseValue` | token.ts:26 | reading a value consumes input |
| `Json.ParseMember` | token.ts:26 | reading a member consumes input |
| `Json.ParseMembers` | token.ts:26 | reading the members consumes input |
| `Json.Lookup` | token.ts:26 | a property read on a parsed object sees the last member with that key, and nothing when no member has it |
| `Json.ParseIntValue` | token.ts:12-26 | an integer member value written by `JSON.stringify` reads back as that number |
| `Json.ParseIntMember` | token.ts:12-26 | a member `"key":n` reads back as the pair `(key, n)` |
| `Json.ParseLastMember` | token.ts:12-26 | a last member followed by `}` reads back as a one-member list |
| `Json.ParseMemberThenMore` | token.ts:12-26 | a member, then a comma, then further members read back as that member in front of the others |
| `Json.TokenProperties` | token.ts:26 | reading `sessionId` and `userId` from the parsed token object gives the two numbers |
| `Json.ParseObjectOfMembers` | token.ts:26 | an opening brace followed by members that fill the text reads back as an object of those members |
| `Json.ParseObject` | token.ts:26 | `JSON.parse` refuses empty or whitespace-only text as a syntax error, and an object it accepts has an opening brace |
| `Json.ParseTokenMembers` | token.ts:12-26 | the text after the token object's brace reads back as its two members, in order |
| `Json.StringifyToken` | token.ts:12-15 | `JSON.stringify({sessionId, userId})` is a braced object and pure ASCII text |
| `Json.ParseStringifiedToken` | token.ts:12-26 | `JSON.parse(JSON.stringify({sessionId, userId}))` gives back both members |
| `Token.GenerateToken` | token.ts:10-18 | a token consists only of unescaped characters and well-formed `%XX` escapes with upper-case hexadecimal digits, and never holds a raw `{`, `"`, `:`, `,` or `}` |
| `Token.DecodeToken` | token.ts:25-28 | the empty string is refused as JSON with a syntax error; because the model reads only a top-level object, it also refuses a token with neither `%` nor `{` |
| `Token.DecodeGenerateToken` | token.ts:10-28 | decoding a generated token gives back exactly its session id and user id |
| `Token.GenerateTokenInjective` | token.ts:10-18 | two different (user, session) pairs never produce the same token |
| `Token.ValidateToken` | token.ts:50-59 | true exactly when some user has the token's user id and lists its session id as active; the store's document and file are unchanged |
| `Token.CheckToken` | token.ts:35-43 | the empty token is refused before decoding; an undecodable token is refused with the decoding error; a decoded token is accepted exactly when it is active |
| `Token.FirstUserHoldingSession` | token.ts:69-72 | the search finds nothing exactly when no user holds the session; otherwise it returns the first user that does |
| `Token.FindUserWithToken` | token.ts:66-74 | a decoding error propagates; otherwise the result is a stored user holding the token's session, or `undefined` exactly when the token is not active; the store's document and file are unchanged |
| `Token.GenerateSessionId` | token.ts:80-82 | a session id lies in [10000000, 99999999] |
| `Token.SessionIdHasEightDigits` | token.ts:80-82 | every session id is written with exactly eight digits |
| `Auth.Register` | main.ts:25-76 | a registration writes the document exactly when it succeeds, and then it holds one more user |
| `Auth.RegisterAccepted` | main.ts:56-75 | a registration that passes every check returns the token for a fresh session of a user whose id is the old user count, and appends exactly that user |
| `Auth.RegisterChecks` | main.ts:33-54 | registration succeeds exactly when all five checks pass, and a rejected one writes nothing. The checks run in order and the first failure decides the error: email in use, then invalid email, first name, last name, weak password |
| `Auth.RegisterAppendsUser` | main.ts:56-75 | success appends exactly one user with id the old user count and leaves earlier users unchanged. The new user has the email, the hashed password and `first + " " + last`. Its counters are 1/0/1, `oldPasswords` is empty, it has one session, and the token decodes to that session and user |
| `Auth.RegisterTokenIsActive` | main.ts:67-75 | the returned token is valid in the document written back |
| `Auth.RegisterPreservesWellFormed` | main.ts:33-73 | registration keeps user ids equal to positions and emails unique |
| `Auth.Login` | main.ts:82-107 | every failure is the same credentials error, a success writes the document, and a write keeps the number of users |
| `Auth.LoginSucceedsIff` | main.ts:86-96 | in a well-formed document, login succeeds exactly when some user has the email and the password's hash. Every failure is the same credentials error. Only an unknown email leaves the document unwritten |
| `Auth.LoginAccepted` | main.ts:87-106 | a found email with a matching hash logs in |
| `Auth.LoginChangesOneUser` | main.ts:92-104 | login changes only the found user, never its id, name, email, password or old passwords. A wrong password adds one failed attempt and no session. A right one clears failures, counts the login and the session, and appends one session, keeping the old ones |
| `Auth.LoginTokenIsActive` | main.ts:98-106 | login ends no session, and the returned token is valid afterwards |
| `Auth.LoginReturnsNewSession` | main.ts:98-106 | the token a successful login returns decodes to the found user's id and the session id just appended to its active sessions |
| `Auth.LoginPreservesWellFormed` | main.ts:86-104 | login keeps user ids equal to positions and emails unique |
| `Auth.RegisteredUserCanLogIn` | main.ts:56-106 | right after registering, the same email and password log in |
| `Auth.FirstIndexWithUserId` | main.ts:117 | `find` by user id: no index exactly when no user has the token's id, otherwise the first index that has it |
| `Auth.WithoutSession` | main.ts:118 | the `filter` removes every occurrence of the session and keeps every other id as often as it occurred; an absent session id removes nothing |
| `Auth.WithoutSessionOne` | main.ts:118 | on one id the `filter` keeps it exactly when it differs from the session |
| `Auth.WithoutSessionConcat` | main.ts:118 | the `filter` of a concatenation is the concatenation of the filters, so the kept ids stay in their original order |
| `Auth.EndSession` | main.ts:117-120 | ending a session fails only with `UserNotFound` and then writes nothing; a success writes a document with the same number of users |
| `Auth.EndSessionChangesOneUser` | main.ts:117-120 | logout changes only the user the token names, and only its active sessions. Their new list is the `filter` of the old one, `WithoutSession`: exactly the token's session goes |
| `Auth.EndSessionRevokes` | main.ts:117-120 | in a well-formed document the token is no longer valid after a successful logout; a failed one writes nothing |
| `Auth.EndSessionKeepsOthers` | main.ts:117-120 | every other token that was valid before a logout is still valid after it |
| `Auth.EndSessionPreservesWellFormed` | main.ts:117-120 | logout keeps user ids equal to positions and emails unique |
| `Auth.Logout` | main.ts:112-122 | a logout writes the document exactly when it succeeds, keeps the number of users, and refuses the empty token |
| `Auth.LogoutEndsOnlyThatSession` | main.ts:112-122 | a failed logout writes nothing. A successful one invalidates the token, keeps every other valid token valid and keeps the document well formed |
| `Auth.LoginThenLogout` | main.ts:98-120 | the token a login returns logs out successfully and is invalid afterwards |
| `Auth.UserRegister` | main.ts:25-76 | the method gives the caller `Register`'s result. It leaves the store holding `Register`'s document, and writes the file only when `Register` saves |
| `Auth.UserLogin` | main.ts:82-107 | the method gives the caller `Login`'s result. It writes the file on a wrong password and on success, and leaves it untouched for an unknown email |
| `Auth.UserLogout` | main.ts:112-122 | the method loads the document before decoding, then gives the caller `Logout`'s result and writes the file only on success |

## Left out

- Real hashing and email validation: `hashPassword` and `isEmail` are parameters with no properties.
- Randomness: `Math.random()` is the parameter `random`, read as an exact real. Floating-point rounding in `Math.floor(10000000 + r * 90000000)` is not modelled.
- `generatePlayerId` (token.ts:87-89): not modelled. It is the same expression as `generateSessionId`, and no account operation uses it.
- File I/O:
  - the file is an abstract `Option<Data>`;
  - `JSON.stringify`/`JSON.parse` of the whole document are taken to round-trip;
  - read and write failures and corrupt files are not modelled.
- Concurrency: requests are not interleaved, so lost updates are out of scope.
- JavaScript numbers are unbounded integers here. Ids, counters and session ids stay far below 2^53, so double precision does not matter for them.
- Records are values:
  - a user found with `find` and changed in place becomes `users[i := user']`;
  - the cache and the saved document are the same value, not shared objects.
- `Json.ParseObject` covers the part of `JSON.parse` that tokens need: an object of strings, integers, `true`, `false` and `null`. It reports "unsupported" as soon as it meets the first character of something outside that fragment: a `.`, `e` or `E` after digits, a `\` in a string, a nested `{` or `[`, or a scalar at the top level. It does not read further, so "unsupported" covers valid JSON beyond the fragment and invalid text alike. For example `-` alone, `{"sessionId":1.}`, an unterminated string `"abc` and an unknown escape `"\x"` are all "unsupported", though `JSON.parse` throws a `SyntaxError` on each. None of these occurs in a generated token, but a caller may send them; see the next line.
- Token.CheckToken, Token.FindUserWithToken, Auth.Logout: on hand-written tokens the model refuses with `MalformedJson(Unsupported)` both where the source throws a `SyntaxError` (the invalid texts above) and where the source goes on. A token that decodes to a number, string or boolean such as `5` reads as a value with no `sessionId` or `userId`. The source's `checkToken` then throws 'Invalid token provided' rather than a parse error, `findUserWithToken` returns `undefined`, and `userLogout` fails on the missing user. A token that decodes to `null` behaves differently: once a user exists, reading `token.userId` in `validateToken` (token.ts:52) and `decodedToken.sessionId` in the `find` callback of `findUserWithToken` (token.ts:70) throw a `TypeError`, and so does `userLogout`. With no users, `checkToken` throws 'Invalid token provided' and `findUserWithToken` returns `undefined`. A token written with a fraction, such as `{"sessionId":12345678.0,"userId":0}`, denotes the integers 12345678 and 0, so the source accepts it in `checkToken` and `userLogout` ends that session when user 0 holds it; the model refuses it.
- Strings are sequences of Unicode scalar values. A string with a lone surrogate cannot be expressed, so the `URIError` that `encodeURIComponent` throws for one is not modelled. `encodeURIComponent` also leaves `! * ' ( )` unescaped, beyond the unreserved set of section 2.3 of RFC 3986; the model follows the code.
- `userLogout` with a token that decodes but names no user: the source dereferences `undefined` and throws a `TypeError` before saving. The model reports `UserNotFound` and writes nothing.
- `oldPasswords` is carried but never written by any operation, as in the source.
- helperFunctions.ts calls `getData` and uses the types `Data` and `answerOption` without importing them. The model's lookups read the document the caller loaded, and an answer option is a record of an answer text and a `correct` flag. `findUserWithEmail` reads the document (helperFunctions.ts:11); the other four read only their argument. None of them changes anything, which the functional model makes true by construction.
- Session-id collisions: a new session id equal to one the user already holds is appended again, as in the source. A logout then removes every copy.
- Json.ParseNumber, Json.ParseString, Json.ParseValue, Json.ParseMember, Json.ParseMembers: their contracts state only that they consume input, which is what makes the member loop end. What they read is stated where it matters, by the lemmas that read back the text `JSON.stringify` writes (`ParseIntValue`, `ParseIntMember`, `ParseStringifiedToken`).
- UriComponent.DecodeEscape, UriComponent.ReadEscape, UriComponent.ReadEscapes: their contracts state only the shape of what they read. Their meaning is stated by the round trips `ReadEscapeBytes`, `DecodeEncodedChar` and `DecodeEncode`.
- UriComponent.HexValue: its contract states only the range of the value; `HexDigit` states the round trip.
- HelperFunctions.Utf16Length: its contract only bounds the UTF-16 length between the number of characters and twice that number; `Utf16LengthOfAscii` states the exact value for ASCII text.
- Token.DecodeToken, Json.ParseObject, UriComponent.DecodeURIComponent: their own contracts state only the cases above. Their meaning on tokens is stated by `DecodeGenerateToken`, `ParseStringifiedToken` and `DecodeEncode`.
- Auth.Register, Auth.Login, Auth.Logout, Auth.EndSession: their own contracts state only when they write and the number of users. Their full behaviour is stated by the lemmas named after them in the table.
