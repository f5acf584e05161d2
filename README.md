# User accounts: sign-up and login over a JSON users file

This project models the account core of a small Streamlit demo application: the users
table kept in `data/users.json`, the primitives that read and rewrite it and digest
passwords (`utils/auth.py`), and the two form handlers of the login page (`login.py`)
that validate a sign-up and append a record, or look a user up and log the session in.

- `auth.dfy`, module `Auth`: the record type `User`, the file as abstract state
  (`Missing | Corrupt | Valid(users)`), the password digest as a function `Hasher`
  supplied by the caller (deterministic because it is a function, not assumed
  injective), `HashPassword`, `VerifyPassword`, `Load` (what a read yields) and the
  class `UsersFile` whose methods `GetUsers` and `SaveUsers` read and overwrite the file.
- `login.dfy`, module `Login`: the duplicate check (`UsernameTaken`, the source's
  `any`), the first-match lookup (`FirstMatch`, the source's `next`), the login decision
  (`LoginAccepted`), the ordered sign-up validator (`SignUpDecision`), lemmas relating
  them, and the class `App`: one browser session (`sessionStarted`, `loggedIn`,
  `username`) over a shared `UsersFile`, with the page run (`Submit`), its two form
  handlers (`Login`, `SignUp`), the session defaults (`StartSession`) and `Logout`.
  `SignUpLoginScenario` is a client of `App` that walks a fresh install through a
  sign-up, a rejected duplicate, a login, a repeat visit, a logout and a failed login.

The code has no operation that updates a stored profile and no password-strength rule,
so neither is modelled. The sign-up checks the empty username and password only after
the duplicate check, so an empty username that is already stored is reported as a
duplicate. A successful sign-up over a file that is not valid JSON rewrites the file
with the single new record, which the contract of `App.SignUp` states.

## Model

| member | source | states |
|---|---|---|
| `Auth.Load` | utils/auth.py:7-11 | a missing file, or one that is not valid JSON, reads as the empty list; a file holding a list of records reads as that list |
| `Auth.UsersFile.GetUsers` | utils/auth.py:5-11 | returns the stored list, or the empty list for a missing file or one that is not valid JSON, and changes nothing |
| `Auth.UsersFile.SaveUsers` | utils/auth.py:13-16 | overwrites the whole file, so the next read returns exactly the saved list whatever the file held |
| `Auth.HashDeterministic` | utils/auth.py:18-20 | equal passwords have equal digests |
| `Auth.VerifyPassword` | utils/auth.py:22-24 | accepts exactly when the stored digest equals the password's digest, and rejects any other digest |
| `Auth.VerifyOwnDigest` | utils/auth.py:18-24 | every password verifies against its own digest |
| `Login.UsernameTaken` | login.py:56 | true exactly when some record has exactly that username |
| `Login.FirstMatch` | login.py:37 | none only when no record has the username; otherwise the position of the first record that has it |
| `Login.LoginAccepted` | login.py:36-38 | true exactly when a record has that username and the first such record's digest equals the password's digest |
| `Login.NewRecord` | login.py:61-68 | the appended record has the new username, the digest of the password, empty first and last name and no date of birth |
| `Login.SignUpDecision` | login.py:53-68 | checks run in order mismatch, duplicate, empty; it succeeds exactly when all pass, and then the list grows by one record at the end with earlier records unchanged |
| `Login.SignUpPreservesUniqueness` | login.py:56-68 | if usernames were pairwise distinct before a successful sign-up they still are after it |
| `Login.SignUpThenLogin` | login.py:36-68 | right after a successful sign-up the same username and password are accepted by login |
| `Login.SignUpKeepsOtherLogins` | login.py:36-68 | a sign-up does not change whether any other username logs in with any password |
| `Login.CollidingPasswordLogsIn` | login.py:38 | since the digest need not be injective, a different password with the same digest is also accepted |
| `Login.App.StartSession` | login.py:18-20 | a session without the logged-in entry gets logged out with an empty username; a started session is untouched |
| `Login.App.Login` | login.py:35-43 | called on a session that has its defaults; the result is the login decision on the stored list; on success the session is logged in as the submitted username, on failure the session is unchanged; the file is not written |
| `Login.App.SignUp` | login.py:52-70 | a rejected sign-up reports its error and leaves the file unchanged; an accepted one overwrites the file with the loaded list plus the new record |
| `Login.App.Submit` | login.py:14-70 | a logged-in session is welcomed and no form is processed, nothing changes; otherwise the submitted form is decided as by Login or SignUp, and a session left logged out keeps its previous username (empty on a fresh session) |
| `Login.App.Logout` | pages/logout.py:9-12 | the session is logged out and its username cleared |

## Left out

- The Streamlit page: page configuration, CSS, the radio button, form widgets, the success and error messages, `st.rerun` and the page links. Each branch is reduced to a `Page` value.
- `pages/profile.py` only displays the session username behind a logged-in guard; it has no store logic and is not modelled.
- File I/O, JSON encoding and decoding and the indentation of the written file: the file is the abstract `FileState`, whose `Corrupt` state stands for contents that are not valid JSON.
- Reads that fail for other reasons (bytes that do not decode as text, a permission error, a directory at the path) raise in the code and end the page; they are not modelled. Neither is a failing write.
- Valid JSON that is not a list of complete records is not modelled: for an empty object or an empty string the login finds no user and the sign-up fails when appending; other non-list values and records without a `username` key make the lookups fail; a matching record without a `password` key makes the login fail when it reads the digest.
- SHA-256 and hex encoding: the digest is an arbitrary function passed in. Consequently the model cannot show that a wrong password is refused, only that a password is refused when its digest differs from the stored one.
- Concurrent sessions writing the file between another session's read and write (lost updates): the model is sequential.
- The updating of profile fields (names, date of birth, avatar) exists in no code of this repository and is not modelled.
