/** The credential store: the users file, read and rewritten as a whole, and the
    password digest. The file's bytes, the JSON codec and SHA-256 are abstracted:
    the file is one of three states, and the digest is a function handed in by the
    caller about which nothing is assumed except that it is a function. */
module Auth {

  datatype Option<T> = None | Some(value: T)

  /** One record of the users file. `password` holds a digest of the password. */
  datatype User = User(
    username: string,
    password: string,
    firstName: string,
    lastName: string,
    dob: Option<string>)

  /** What the users file holds: no file, contents that are not valid JSON, or a list of records. */
  datatype FileState = Missing | Corrupt | Valid(users: seq<User>)

  /** A password digest. Being a total function it is deterministic; it need not be injective. */
  type Hasher = string -> string

  /** The digest stored for `password`. */
  function HashPassword(h: Hasher, password: string): (digest: string)
  {
    h(password)
  }

  /** Equal passwords give equal digests. */
  lemma HashDeterministic(h: Hasher, p: string, q: string)
    requires p == q
    ensures HashPassword(h, p) == HashPassword(h, q)
  {
  }

  /** A password is accepted against a stored digest exactly when its own digest is that digest. */
  function VerifyPassword(h: Hasher, password: string, hashed: string): (ok: bool)
    ensures hashed == HashPassword(h, password) ==> ok
    ensures hashed != HashPassword(h, password) ==> !ok
  {
    HashPassword(h, password) == hashed
  }

  /** Every password verifies against its own digest. */
  lemma VerifyOwnDigest(h: Hasher, password: string)
    ensures VerifyPassword(h, password, HashPassword(h, password))
  {
  }

  /** The list a read of the file yields: a missing file, or one that is not valid JSON, reads as no users. */
  function Load(f: FileState): (users: seq<User>)
    ensures f.Valid? ==> users == f.users
    ensures f == Missing || f == Corrupt ==> users == []
  {
    match f
    case Valid(us) => us
    case _ => []
  }

  /** The users file. Every read loads the whole list; every write replaces it. */
  class UsersFile {
    var file: FileState

    constructor (initial: FileState)
      ensures file == initial
    {
      file := initial;
    }

    /** Reads the stored list; a missing or corrupt file yields the empty list. The file is not changed. */
    method GetUsers() returns (users: seq<User>)
      ensures file.Valid? ==> users == file.users
      ensures !file.Valid? ==> users == []
    {
      match file
      case Valid(us) =>
        users := us;
      case Missing =>
        users := [];
      case Corrupt =>
        users := [];
    }

    /** Overwrites the file with `users`: whatever it held before is gone, and the next read yields `users`. */
    method SaveUsers(users: seq<User>)
      modifies this
      ensures file == Valid(users)
      ensures Load(file) == users
    {
      file := Valid(users);
    }
  }
}
