# tinyapp helpers — a Dafny model

tinyapp is a tutorial URL shortener. It keeps two in-memory tables as plain
JavaScript objects. The user table maps a user id to `{id, email, password}`.
The URL table maps a six-character short code to `{longURL, userID}`.
Its helper module `helpers.js` holds the logic that works on those tables:

- `getUserByEmail(email, database)` scans the user table in key order. It
  returns the first user whose email is exactly `email`, or `null`.
- `generateRandomString(nbChars = 6)` builds an identifier. It appends
  `nbChars` characters, each drawn from the 62-character alphabet `A-Z a-z 0-9`.
- `urlsForUser(id, database)` builds a new object. It holds the entries of the
  URL table whose `userID` is `id`, in the table's key order.

The model has three files:

- `objects.dfy` (module `Objects`) models the JavaScript values involved.
  `Option` stands for `null` or a record. `Dict` stands for a plain object: its
  keys in `Object.keys` order plus a map from key to value. `Dict.Valid()`
  holds of every real object: the keys are distinct and are exactly the keys
  it holds. `Dict.Put` is the assignment `obj[k] = v`.
- `helpers.dfy` (module `Helpers`) models the three helpers. Each is a method
  with the source's loop, proved equal to a recursive specification function.
  The specification functions are `FirstWithEmail`, `RandomString` and
  `OwnedBy`. The properties the source promises are lemmas about them.
- `helpers_test.dfy` (module `HelpersTest`) restates the unit tests' fixture
  tables and proves each expected result. The email scenarios call
  `GetUserByEmail` on the two-user fixture, as the tests do, and its contract
  gives the result; the URL scenarios rest on `UrlsForUserExactly` and
  `UrlsForUserEmpty`.

Two points about the code itself:

- Emails are meant to be unique, but `getUserByEmail` returns the first match
  in key order either way. `FirstWithEmailEarliest` states that, and
  `UniqueEmailFound` covers the case where exactly one user has the email.
- Six characters is only the default of `nbChars`. Any count is accepted, and
  a negative count gives the empty string.

## Model

| member | source | states |
|---|---|---|
| `Objects.Dict.Put` | helpers.js:26 | Assigning a property keeps the object well formed. The key maps to the new value. A new key (other than an array index) is enumerated last, and an existing key keeps its place. |
| `Objects.EmptyDict` | helpers.js:23 | The literal `{}` is a well-formed object with no entries. |
| `Helpers.GetUserByEmail` | helpers.js:2-9 | The key-order scan with early return gives exactly `FirstWithEmail` of the table's keys and records. |
| `Helpers.FirstWithEmailFound` | helpers.js:3-6 | A non-null result is the record under some enumerated key. Its email equals the query exactly. Every user enumerated before it has a different email. |
| `Helpers.FirstWithEmailEarliest` | helpers.js:3-6 | The converse: the user at the earliest key whose email matches is the one returned, even when later users share the email. |
| `Helpers.FirstWithEmailNone` | helpers.js:3-8 | The result is null if and only if no enumerated user has the queried email. |
| `Helpers.GetUserByEmailNull` | helpers.js:2-9 | On a whole table, null is returned if and only if no user in the table has the email. This includes the empty-string query. |
| `Helpers.UniqueEmailFound` | helpers.js:3-5 | When exactly one user has the email, that user's record is returned. |
| `Helpers.CharAt` | helpers.js:16 | `charAt` gives a one-character string exactly when the index is in range, and that character is the string's character at the index. Otherwise it gives the empty string. |
| `Helpers.GenerateRandomString` | helpers.js:12-19 | The counted loop gives `RandomString` of the draws, one draw per iteration. With draws in [0, 62), the result has exactly `nbChars` characters (none when `nbChars` is negative), and every one is alphanumeric. |
| `Helpers.CharsAt` | helpers.js:13 | The alphabet has 62 characters, and character i is `CharOf(i)`: the upper-case letters, then the lower-case letters, then the digits. |
| `Helpers.CharsAreAlphanumeric` | helpers.js:13 | The alphabet holds each alphanumeric character exactly once and nothing else. |
| `Helpers.IndexOf` | helpers.js:13 | Every alphanumeric character sits at a position in [0, 62) of the alphabet. |
| `Helpers.RandomStringShape` | helpers.js:15-18 | With in-range draws, the string has one character per draw. Character i is the alphabet character that draw i selects. |
| `Helpers.RandomStringInjective` | helpers.js:13-18 | Different in-range draw sequences of the same length give different strings, so each of the 62^n identifiers comes from exactly one sequence of draws. |
| `Helpers.DrawsFor` | helpers.js:16 | Every alphanumeric string has a sequence of in-range draws of the same length. |
| `Helpers.RandomStringCovers` | helpers.js:13-18 | Those draws generate that exact string, so every alphanumeric identifier of every length can be generated. |
| `Helpers.UrlsForUser` | helpers.js:22-30 | The loop over the table's keys, assigning each owned entry into a fresh `{}`, gives exactly `OwnedBy` of the table's keys and records. The table itself is only read. |
| `Helpers.OwnedKeysSnoc` | helpers.js:24-27 | Visiting one more key extends the owned keys by that key exactly when its owner is `id`. |
| `Helpers.OwnedByExactly` | helpers.js:23-29 | Over distinct keys, the built object is well formed. It holds a key if and only if that key was visited and its owner is `id`. Its value is the table's record, and its keys are the owned keys in visiting order. |
| `Helpers.UrlsForUserExactly` | helpers.js:22-30 | On a table: a key is in the result if and only if the table holds it with `userID == id`. It maps to the table's own record, and the result enumerates the table's owned keys in the table's order. |
| `Helpers.UrlsForUserEmpty` | helpers.js:22-30 | The result is `{}` if and only if no entry of the table belongs to `id`, as for an unknown user. |
| `HelpersTest.FixturesValid` | test/helpersTest.js:8-60 | The two fixture tables are well-formed objects. |
| `HelpersTest.ValidEmailFindsUser` | test/helpersTest.js:23-27 | `user@example.com` finds the user whose id is `userRandomID`. |
| `HelpersTest.UnknownEmailIsNull` | test/helpersTest.js:29-33 | `user3@example.com` gives null. |
| `HelpersTest.EmptyEmailIsNull` | test/helpersTest.js:35-39 | The empty email gives null. |
| `HelpersTest.UrlsOfSecondUser` | test/helpersTest.js:64-73 | `user2RandomID` gets exactly `{i3BoGr: …}`. |
| `HelpersTest.UrlsOfFirstUser` | test/helpersTest.js:75-92 | `userRandomID` gets exactly b6UTxQ, Y6UTA5 and TTTxQ3 with their records, in that order. |
| `HelpersTest.UrlsOfUnknownUser` | test/helpersTest.js:94-98 | `user3RandomID` gets `{}`. |

## Left out

- express_server.js is not modelled. It holds Express routing, view rendering, redirects, body parsing, logging and `app.listen`, which are all HTTP and I/O.
- The insert and delete on `urlDatabase` in express_server.js are left out. They are one-line map writes inside route handlers, in an earlier version where the values are bare strings rather than `{longURL, userID}` records.
- The copy of `generateRandomString` in express_server.js:13-20 is identical to the helpers.js one, which is modelled once.
- `Math.random()` and `Math.floor` are not modelled. Their results enter as the `draws` parameter, one integer per loop iteration. `InRange` states the fact that `Math.floor(Math.random() * 62)` lies in [0, 62). The length and alphabet properties assume it.
- Helpers.GenerateRandomString: the probabilities are not modelled, including uniformity and collisions between calls. The model states the combinatorial fact behind uniformity instead: each identifier comes from exactly one draw sequence.
- Helpers.GenerateRandomString: `nbChars` is an integer. A fractional count, which JavaScript would round up through `i < nbChars`, or a non-number is not modelled. Nor is a count above the engine's maximum string length, for which `result +=` throws a RangeError while the model returns a string of `nbChars` characters.
- Helpers.UrlsForUser: the order of `Object.keys` is taken as the order the table records. JavaScript enumerates array-index-like keys, such as an all-digit short code like `123456`, first in numeric order. The model does not reproduce that reordering in the table or in the result.
- Helpers.UrlsForUser: records are immutable values. In JavaScript the result shares the record objects of `database`, so a later in-place change through one is seen through the other. That aliasing is not captured.
- Records always have their fields. A record without an `email` or `userID` property, whose lookup JavaScript would give as `undefined`, is not modelled. Inherited prototype properties are not modelled either.
- The record-store operations put, get, update and delete are not part of the helper module. Neither are the visit log, user registration with its duplicate-email conflict, or password hashing. None of them is modelled.
- Objects.Dict.Put: a new key is always enumerated last. JavaScript enumerates array-index keys (such as an all-digit short code like `123456`) first, in numeric order; that reordering is not modelled. Assigning an object to the key `"__proto__"` sets the prototype of a plain object and adds no own key, so `urlsForUser` would drop such an entry while the model keeps it; short codes are alphanumeric, so the application never produces that key.
- Helpers.GetUserByEmail: the returned user is a value. In JavaScript it is the table's own user object (helpers.js:5), so a later in-place change through either is seen through the other. That aliasing is not captured.
- `database` is always an object and every record is an object. The TypeError JavaScript throws when `database` is `null` or `undefined` (`Object.keys`, helpers.js:3 and 24), or when a stored record is `null` (helpers.js:4 and 25), is ruled out by the types and not modelled.
- Helpers.CharAt: strings are sequences of Unicode scalar values, not of UTF-16 code units. `===` agrees with that on well-formed strings. `charAt` and `length` count UTF-16 code units, so `CharAt` matches `charAt` only on strings without astral-plane characters (for `"😀"`, JavaScript's `charAt(0)` is a lone surrogate, the model's is the whole character). The only string indexed is the ASCII alphabet at helpers.js:13, so no stated property depends on the difference.
