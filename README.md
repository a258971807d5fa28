# User registry and user endpoints, modelled in Dafny

This project models the core of a small HTTP API (postman-demo): an in-memory
user registry and the decision logic of the three user endpoints.

- `users.dfy`, module `Users`, models `list_users.py`. The module-level
  dictionary `users` and its accessor class `Context` become one class,
  `Registry`. Its `users` field maps a lower-cased name to a `Record`: the
  display name as submitted, the password, and the optional `status` and
  `created_at` fields. The `order` field keeps the keys in insertion order,
  the order in which a Python dictionary lists them. `Valid()` states the
  registry's invariant. Every key is the lower-casing of its record's display
  name. No record holds `status` or `created_at`. `order` lists every key
  exactly once.
- `app.dfy`, module `App`, models the user handlers of `app.py`. Each handler
  yields a `Response`: a status code and a payload (`Message`, `UserList` or
  `UserInfo`). Query parameters are `Option<string>`. A parameter counts as
  given only when it is present and non-empty, as Python's `if not name`
  decides. `users_get_all` and `user_get` only read the registry and are
  functions. `user_add` changes it and is a method.
- `wrappers.dfy`, module `Wrappers`, holds the `Option` type.

A lookup result in `user_get` is tested with `if not user`. A stored record is
a dictionary with two keys, so it is always truthy, and only a missing user
gives 404. The model matches on `None` for that test.

`/user/get` is the only lookup route; it answers with the lower-cased name
(app.py:156).

## Model

| member | source | states |
|---|---|---|
| `Users.Registry.constructor` | list_users.py:1 | the registry starts with no users and an empty key list, and satisfies its invariant |
| `Users.Registry.GetUsers` | list_users.py:5-7 | the list holds exactly the stored keys, each once, and its length is the number of users |
| `Users.ListedCount` | list_users.py:7 | a duplicate-free list that enumerates a set of keys has as many elements as the set |
| `Users.Registry.GetUser` | list_users.py:9-11 | the lookup finds a record exactly when the lower-cased name is a key, and returns that entry; under the invariant, the found record's display name lower-cases to the same key, and its status and created_at are absent |
| `Users.GetUserCaseInsensitive` | list_users.py:11 | two names with the same lower-casing get the same answer from the lookup |
| `Users.Registry.AddUser` | list_users.py:13-23 | returns false exactly when the lower-cased name is already a key, and then changes nothing; the blocking entry is a case variant of the name. Otherwise it adds one entry under the lower-cased name, holding the name and password verbatim, leaves every other entry alone, appends the key to the key list and returns true. The invariant is preserved, and afterwards every case variant of the name looks up the new record |
| `Users.CaseVariantScenario` | list_users.py:14-23 | after "Bob" is added, adding "bob" fails, and the record under "bob" keeps display name "Bob" and the first password |
| `App.FromUnixGuard` | app.py:91-96 | `datetime_from_unix` answers 400 "Missing parameters" exactly when `timestamp` is absent or empty |
| `App.UsersGetAll` | app.py:112-125 | status 200; the user list holds exactly the stored names, each once; `total` equals both the list's length and the number of users |
| `App.UserGet` | app.py:128-162 | 400 "Missing parameters" when `name` is absent or empty, whatever the registry holds; 404 "User not found" when the lower-cased name is no key; otherwise 200 with the lower-cased name, the stored display name, and status and created_at null; on 200 the display name lower-cases to the returned name |
| `App.UserAdd` | app.py:165-197 | 400 when either parameter is absent or empty; with both given, 409 exactly when the lower-cased name is taken; 201 exactly when both are given and the name is free, and then the registry gains that one record; every answer other than 201 leaves the registry unchanged, and the invariant is preserved |
| `App.CarolScenario` | app.py:141-197 | adding "Carol" answers 201; getting "carol" then answers 200 with name "carol", display name "Carol" and null status and created_at; adding "CAROL" answers 409 |

`users_get_all` and `user_get` are functions that only read the registry, so
neither of them can change it.

## Left out

- The Flask application, routing, `Response`/`jsonify` serialisation, MIME
  types and JSON key order. Responses are modelled as a status and a payload
  value.
- The static discovery payload of `root` (app.py:13-54). It is a constant
  with no behaviour.
- `datetime_now` and the calendar conversion of `datetime_from_unix`
  (app.py:57-109). They read the wall clock, use the local time zone and parse
  floats. Only the 400 check on `timestamp` is modelled. A non-numeric
  timestamp raises an uncaught error in the source; the model does not cover it.
- Users.Lower: only ASCII letters A-Z are lower-cased. Python's full Unicode
  `str.lower()` is not modelled, and no property of lower-casing beyond its
  use as the key is claimed.
- Concurrency on the unsynchronised module-level dictionary (list_users.py:1).
  Each call is modelled as one atomic step on one registry object.
- `app.run()` (app.py:200-201) and the process lifetime of the registry.
