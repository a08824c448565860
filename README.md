# PlantShout backend: upload names, profile pictures and registration

This project models the part of the PlantShout Flask backend (`backend/app.py`)
that holds decisions rather than I/O:

- `allowed_file`, the check that a file name ends in one of the picture
  extensions `png`, `jpg`, `jpeg`, `gif`, looking only at the text after the
  last dot and ignoring letter case (`Uploads`);
- `get_random_profile_pic`, which keeps the names of a directory listing that
  pass `allowed_file` and picks one of them at random, or none
  (`ProfilePics`);
- the `users` table created by `backend/setup_db.py` (`id SERIAL`, `email NOT
  NULL UNIQUE`, `password NOT NULL`, `profile_pic` optional), as a store of
  rows keyed by email with a counter for ids, both as values (`Users.Store`,
  `Users.InsertUser`) and as a table updated in place (`Users.UsersTable`);
- the `POST /api/register` handler, which inserts the user and answers 201
  with the new id, 409 "Email already exists" for any integrity error, or 500
  "An error occurred" for any other database failure (`Register`).

The driver's refusal of a NUL character in a value and the 4-byte limit of
the `SERIAL` id are part of the model, both answering 500. The directory
listing, the random choice and any other database failure are inputs: the listing is a `seq<string>`, the random
choice is a nondeterministic pick (`:|`) among the accepted names, and a
`fault` flag says whether the database fails for another reason.

The shown `register` stores the password verbatim (`backend/app.py:62`) and
returns no token (`backend/app.py:65`). The frontend also calls a login
endpoint and sends `Bearer` tokens, but `backend/app.py` stops at a comment
saying the rest of the code is unchanged (`backend/app.py:75`); login and
token checking do not appear in it and are not modelled.

## Model

| member | source | states |
|---|---|---|
| `Uploads.AllowedExtensions` | backend/app.py:22 | the accepted extensions are the four lower-case strings png, jpg, jpeg and gif |
| `Uploads.LowerChar` | backend/app.py:35 | a lower-cased character is never an upper-case ASCII letter, is a dot exactly when the input is, and is a letter exactly when the input is |
| `Uploads.Lower` | backend/app.py:35 | lower-casing keeps the length, leaves no upper-case ASCII letter, and keeps every dot where it was and adds none |
| `Uploads.LowerIdempotent` | backend/app.py:35 | lower-casing an already lower-cased name changes nothing |
| `Uploads.AllowedFile` | backend/app.py:34-35 | an accepted name holds a dot and is at least four characters long (the shortest is a dot and a three-letter extension) |
| `Uploads.LastIndexOf` | backend/app.py:35 | the result is absent exactly when the character does not occur; otherwise it is a position holding it with no occurrence after it |
| `Uploads.RSplitOnce` | backend/app.py:35 | `rsplit(sep, 1)` gives the whole name when there is no separator, otherwise a head and a tail that rebuild the name around the separator, the tail holding no separator |
| `Uploads.NoDotRejected` | backend/app.py:35 | a name with no dot is never accepted |
| `Uploads.RSplitOnceAtLastDot` | backend/app.py:35 | splitting `stem.ext` with a dot-free `ext` gives back exactly `stem` and `ext`, whatever dots `stem` holds |
| `Uploads.LastExtensionDecides` | backend/app.py:34-35 | `stem.ext` is accepted exactly when the lower-cased last extension is in the accepted set, whatever `stem` is |
| `Uploads.AcceptedExtensionsAre` | backend/app.py:22 | the accepted last extensions are exactly png, jpg, jpeg and gif after lower-casing |
| `Uploads.EmptyExtensionRejected` | backend/app.py:35 | a name ending in a dot is rejected |
| `Uploads.LowerKeepsDots` | backend/app.py:35 | two names that lower-case alike have the same length and dots at the same positions |
| `Uploads.LowerSuffix` | backend/app.py:35 | lower-casing a name and then taking its tail equals lower-casing the tail |
| `Uploads.CaseInsensitiveNoDot` | backend/app.py:35 | names without a dot are rejected in every letter case |
| `Uploads.CaseInsensitiveSplit` | backend/app.py:35 | names that lower-case alike have their last dot at the same place and extensions that lower-case alike |
| `Uploads.CaseInsensitive` | backend/app.py:35 | two names that lower-case alike are both accepted or both rejected |
| `Uploads.InnerDotIgnored` | backend/app.py:35 | `a.tar.png` is accepted |
| `Uploads.EarlierExtensionIgnored` | backend/app.py:35 | `a.png.exe` is rejected |
| `Uploads.UpperCaseAccepted` | backend/app.py:35 | `IMG.PNG` is accepted |
| `Uploads.MixedCaseAccepted` | backend/app.py:35 | `x.JpEg` is accepted |
| `ProfilePics.Pictures` | backend/app.py:38 | the filtered list holds exactly the listed names that pass `allowed_file`, and is no longer than the listing |
| `ProfilePics.IsPictureChoice` | backend/app.py:39-42 | what a pick may be: `None` exactly when no listed name passes `allowed_file`, otherwise a listed name that passes |
| `ProfilePics.GetRandomProfilePic` | backend/app.py:37-42 | the result is `None` exactly when no listed name passes `allowed_file`; otherwise it is a listed name that passes |
| `Users.WellFormed` | backend/setup_db.py:17-22 | the table's invariant: every row sits under its own email, ids are distinct, at least 1 and below the counter; no id passes the 4-byte `SERIAL` maximum, and the counter is at most one past it |
| `Users.MaxId` | backend/setup_db.py:18 | the largest id the 4-byte `SERIAL` hands out, 2147483647 |
| `Users.HasNul` | backend/app.py:62 | a present value holding a NUL character, which the driver refuses before sending anything |
| `Users.Violation` | backend/setup_db.py:17-22 | no constraint is violated exactly when email and password are present and the email is not stored; the unique constraint is the one violated exactly when both are present and the email is stored |
| `Users.InsertUser` | backend/app.py:62-64 | a failed INSERT commits nothing; a NUL character in any value always fails with the driver's refusal; a returned id never exceeds the 4-byte `SERIAL` maximum |
| `Users.InsertPreservesWellFormed` | backend/setup_db.py:17-22 | every insert keeps rows under their own email, with distinct ids from 1 below the counter |
| `Users.InsertSucceeds` | backend/app.py:62-64 | an insert succeeds exactly when no value holds a NUL, the database does not fail, ids are not used up, both values are present and the email is new; the new id belongs to no stored row, the new row holds the email, the password as supplied and the picture, and every earlier row is unchanged |
| `Users.DuplicateEmailRejected` | backend/setup_db.py:19 | inserting a stored email always fails and leaves the table unchanged; when no earlier check fails the error is an integrity error |
| `Users.MissingValueRejected` | backend/setup_db.py:19-20 | a missing email or password always fails and leaves the table unchanged; when no earlier check fails the error is a NOT NULL integrity error |
| `Users.UsersTable.constructor` | backend/setup_db.py:16-23 | a new table is well formed, empty and starts ids at 1 |
| `Users.UsersTable.Insert` | backend/app.py:62-64 | the table afterwards and the result are those of `InsertUser` on the table before; the table stays well formed; a failure changes nothing |
| `Register.Respond` | backend/app.py:65-70 | 201 with the id and the success message exactly for a success, 409 "Email already exists" exactly for an integrity error, 500 "An error occurred" exactly for any other failure |
| `Register.Register` | backend/app.py:52-73 | the chosen picture is a valid choice from the listing, the table and reply follow `InsertUser` and `Respond`, the table stays well formed, and any reply other than 201 leaves the table unchanged |
| `Register.RegisterStatus` | backend/app.py:61-70 | 201 exactly when no value holds a NUL, the database does not fail, ids remain, both fields are present and the email is new; 500 exactly when one of the first three fails; 409 otherwise, including a missing email or password; only 201 changes the table, by adding the new user's row |
| `Register.NulEmailRefused` | backend/app.py:62 | an email holding a NUL character gets 500 and nothing is stored |
| `Register.RegisterTwice` | backend/app.py:62-67 | a new email registers with 201 when its values hold no NUL and ids remain; after that 201 a second registration of the same email leaves the table and the first user's row as stored, and gets 409 when its values hold no NUL and an id is left |

## Left out

- Login, password hashing, token issuing and checking, and the `Bearer` middleware: `backend/app.py` stops at a comment saying the rest of the code is unchanged (`backend/app.py:75`), and none of them appears in it.
- `Uploads.Lower`, `Uploads.LowerChar`: lower-case only the ASCII letters A-Z, one character at a time, where Python's `str.lower` covers all of Unicode, can change the length (U+0130 becomes two characters) and depends on context (a final capital sigma). The accept/reject answer is the same, because no other character lower-cases to a single letter of `png`, `jpg`, `jpeg` or `gif`.
- The routes that serve files (`backend/app.py:44-50`), creating the upload folders, reading `.env`, the OpenAI client and the image imports: I/O and foreign calls.
- The directory listing and `random.choice`: the listing is an input and the choice is any accepted name, not a uniform random draw.
- Database connection set-up and closing (`get_db`, `cursor.close`, `conn.close`): only their effect on the table is modelled. A failure to connect, or to list the picture folder, happens outside the `try` and would reach Flask's own error page; that path is not modelled.
- `Users.InsertUser`: database failures other than constraint violations, NUL characters and id exhaustion (lost connection, full disk, other server errors) are only the free `fault` input, not tied to the values. The order of checks is taken as: NUL refusal by the driver, then `fault`, then drawing the next id, then NOT NULL and UNIQUE.
- The error message `register` prints before answering 500 (`backend/app.py:69`) is not modelled.
- `Users.InsertUser`: the database draws the next `SERIAL` value before checking NOT NULL and UNIQUE, so a 409 or a failed commit also uses up an id. The model advances its counter only on a successful insert. It therefore runs out of ids only after `MaxId` successful inserts, while the database can run out earlier and answer 500 where the model answers 201 or 409. The "ids remain" conditions of `Users.InsertSucceeds`, `Register.RegisterStatus` and `Register.RegisterTwice` are about the model's counter, not the database sequence.
- The request body: a body that is not a JSON object, and field values that are not strings, are not modelled. A missing or null field is `None`.
- The frontend (`frontend/src/`): React views, HTTP calls and browser storage.
