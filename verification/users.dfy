/**
 * Accounts: the `users` table and its CRUD (`crud/user.py`), registration and login
 * (`endpoints/auth.py`), and the profile endpoints (`endpoints/profile.py`).
 *
 * The table is a sequence of rows in insertion order (so "first match" is meaningful)
 * plus an abstract supply of fresh primary keys. bcrypt enters as a pair of functions,
 * and the one property the model assumes of them is `CryptoContract`.
 */
module Users {
  import opened Common
  import Text

  /** A `users` row (timestamps and the admin flag left out). */
  datatype User = User(id: nat, email: string, username: string, passwordHash: string)

  /** The table in insertion order, plus the next autoincrement key. */
  datatype UserTable = UserTable(rows: seq<User>, nextId: nat)

  /** `hash_password` and `verify_password`. */
  datatype Crypto = Crypto(hash: string -> string, verify: (string, string) -> bool)

  /** Assumed of the password hash: a hash verifies exactly the password it was made from. */
  ghost predicate CryptoContract(c: Crypto) {
    forall p: string, q: string :: c.verify(p, c.hash(q)) <==> p == q
  }

  /** Two rows that may sit in the same table: they differ in key, email and username. */
  predicate Distinct(a: User, b: User) {
    a.id != b.id && a.email != b.email && a.username != b.username
  }

  predicate PairwiseDistinct(rows: seq<User>) {
    forall i, j | 0 <= i < j < |rows| :: Distinct(rows[i], rows[j])
  }

  /** The table's constraints: primary keys handed out and distinct, `email` and `username` unique. */
  predicate Valid(t: UserTable) {
    && (forall i | 0 <= i < |t.rows| :: t.rows[i].id < t.nextId)
    && PairwiseDistinct(t.rows)
  }

  /** The position of the first row satisfying `p`: what `.scalars().first()` returns. */
  function FirstIndex(rows: seq<User>, p: User -> bool): (r: Option<nat>)
    ensures r.Some? ==> r.value < |rows| && p(rows[r.value])
    ensures r.Some? ==> forall j :: 0 <= j < r.value ==> !p(rows[j])
    ensures r.None? <==> forall j :: 0 <= j < |rows| ==> !p(rows[j])
  {
    if |rows| == 0 then None
    else if p(rows[0]) then Some(0)
    else
      match FirstIndex(rows[1..], p)
      case None => None
      case Some(i) => Some(i + 1)
  }

  /** `get_by_email`: the first row whose email equals `email` exactly. */
  function GetByEmail(t: UserTable, email: string): (r: Option<User>)
    ensures r.None? <==> forall j :: 0 <= j < |t.rows| ==> t.rows[j].email != email
    ensures r.Some? ==> r.value in t.rows && r.value.email == email
  {
    match FirstIndex(t.rows, (u: User) => u.email == email)
    case None => None
    case Some(i) => Some(t.rows[i])
  }

  /** `get_by_username`: the first row whose username equals `username` exactly. */
  function GetByUsername(t: UserTable, username: string): (r: Option<User>)
    ensures r.None? <==> forall j :: 0 <= j < |t.rows| ==> t.rows[j].username != username
    ensures r.Some? ==> r.value in t.rows && r.value.username == username
  {
    match FirstIndex(t.rows, (u: User) => u.username == username)
    case None => None
    case Some(i) => Some(t.rows[i])
  }

  /** `get_by_id`. */
  function GetById(t: UserTable, id: nat): (r: Option<User>)
    ensures r.None? <==> forall j :: 0 <= j < |t.rows| ==> t.rows[j].id != id
    ensures r.Some? ==> r.value in t.rows && r.value.id == id
  {
    match FirstIndex(t.rows, (u: User) => u.id == id)
    case None => None
    case Some(i) => Some(t.rows[i])
  }

  /** In a valid table a row is the one the lookups find by its email, its username or its id. */
  lemma LookupsFindUniqueRow(t: UserTable, u: User)
    requires Valid(t) && u in t.rows
    ensures GetByEmail(t, u.email) == Some(u)
    ensures GetByUsername(t, u.username) == Some(u)
    ensures GetById(t, u.id) == Some(u)
  {
    var k :| 0 <= k < |t.rows| && t.rows[k] == u;
    var ie := FirstIndex(t.rows, (v: User) => v.email == u.email).value;
    var iu := FirstIndex(t.rows, (v: User) => v.username == u.username).value;
    var ii := FirstIndex(t.rows, (v: User) => v.id == u.id).value;
    assert ie == k && iu == k && ii == k;
  }

  /** The violation the database raises on commit when a unique column would repeat. */
  datatype DbError = IntegrityError

  /** Why the CRUD layer refuses a password-checked operation (`ValueError` in the source). */
  datatype CrudError = InvalidCurrentPassword

  /** `create`: a new row with the next key and the password's hash, unless the email or username is taken. */
  function Create(t: UserTable, crypto: Crypto, email: string, username: string, password: string)
    : (r: Result<(UserTable, User), DbError>)
    ensures r.Failure? <==> GetByEmail(t, email).Some? || GetByUsername(t, username).Some?
    ensures r.Success? ==>
      var (t', u) := r.value;
      && u.email == email && u.username == username && u.passwordHash == crypto.hash(password)
      && u.id == t.nextId && t'.nextId == t.nextId + 1
      && t'.rows == t.rows + [u]
  {
    if GetByEmail(t, email).Some? || GetByUsername(t, username).Some? then Failure(IntegrityError)
    else
      var u := User(t.nextId, email, username, crypto.hash(password));
      Success((UserTable(t.rows + [u], t.nextId + 1), u))
  }

  /** `create` keeps the table's constraints. */
  lemma CreatePreservesValid(t: UserTable, crypto: Crypto, email: string, username: string, password: string)
    requires Valid(t)
    requires Create(t, crypto, email, username, password).Success?
    ensures Valid(Create(t, crypto, email, username, password).value.0)
  {
  }

  /** The table with the row keyed `u.id` replaced by `u`. */
  function Replace(rows: seq<User>, u: User): (r: seq<User>)
    ensures |r| == |rows|
    ensures forall i :: 0 <= i < |rows| ==> r[i] == if rows[i].id == u.id then u else rows[i]
  {
    seq(|rows|, i requires 0 <= i < |rows| => if rows[i].id == u.id then u else rows[i])
  }

  /** The table with every row keyed `id` removed. */
  function Remove(rows: seq<User>, id: nat): (r: seq<User>)
    ensures forall v :: v in r <==> v in rows && v.id != id
    ensures PairwiseDistinct(rows) ==> PairwiseDistinct(r)
  {
    if |rows| == 0 then []
    else if rows[0].id == id then Remove(rows[1..], id)
    else
      var rest := Remove(rows[1..], id);
      assert PairwiseDistinct(rows) ==> forall j | 0 <= j < |rest| :: Distinct(rows[0], rest[j]) by {
        if PairwiseDistinct(rows) {
          forall j | 0 <= j < |rest| ensures Distinct(rows[0], rest[j]) {
            assert rest[j] in rows[1..];
            var k :| 0 <= k < |rows[1..]| && rows[1..][k] == rest[j];
            assert rows[k + 1] == rest[j];
          }
        }
      }
      [rows[0]] + rest
  }

  /** Another row already holding `email` or `username`. */
  predicate Clashes(t: UserTable, id: nat, email: string, username: string) {
    exists j :: 0 <= j < |t.rows| && t.rows[j].id != id && (t.rows[j].email == email || t.rows[j].username == username)
  }

  /**
   * `update_user`: only the arguments that are not None are written; the commit fails when the
   * result would share an email or a username with another row.
   */
  function UpdateUser(t: UserTable, u: User, email: Option<string>, username: Option<string>)
    : (r: Result<(UserTable, User), DbError>)
    requires u in t.rows
    ensures r.Success? ==>
      var u' := r.value.1;
      && u'.id == u.id && u'.passwordHash == u.passwordHash
      && u'.email == (if email.Some? then email.value else u.email)
      && u'.username == (if username.Some? then username.value else u.username)
    ensures r.Failure? <==>
      Clashes(t, u.id, if email.Some? then email.value else u.email,
                       if username.Some? then username.value else u.username)
    ensures r.Success? ==> r.value.0 == t.(rows := Replace(t.rows, r.value.1))
    ensures email.None? && username.None? && Valid(t) ==> r == Success((t, u))
  {
    var u' := u.(email := if email.Some? then email.value else u.email,
                 username := if username.Some? then username.value else u.username);
    if Clashes(t, u.id, u'.email, u'.username) then Failure(IntegrityError)
    else
      assert email.None? && username.None? && Valid(t) ==> Replace(t.rows, u') == t.rows by {
        if email.None? && username.None? && Valid(t) {
          var k :| 0 <= k < |t.rows| && t.rows[k] == u;
          forall i | 0 <= i < |t.rows| ensures Replace(t.rows, u')[i] == t.rows[i] {
          }
        }
      }
      Success((t.(rows := Replace(t.rows, u')), u'))
  }

  /** Replacing a row by one with the same key and no clashing email or username keeps the constraints. */
  lemma ReplacePreservesValid(t: UserTable, u: User, u': User)
    requires Valid(t) && u in t.rows && u'.id == u.id
    requires !Clashes(t, u.id, u'.email, u'.username)
    ensures Valid(t.(rows := Replace(t.rows, u')))
    ensures u' in Replace(t.rows, u')
  {
    var k :| 0 <= k < |t.rows| && t.rows[k] == u;
    assert Replace(t.rows, u')[k] == u';
  }

  /** `change_password`: refused unless the current password verifies; otherwise the hash of the new one is stored. */
  function ChangePassword(t: UserTable, crypto: Crypto, u: User, currentPassword: string, newPassword: string)
    : (r: Result<UserTable, CrudError>)
    requires u in t.rows
    ensures r.Failure? <==> !crypto.verify(currentPassword, u.passwordHash)
    ensures r.Success? ==> r.value == t.(rows := Replace(t.rows, u.(passwordHash := crypto.hash(newPassword))))
  {
    if !crypto.verify(currentPassword, u.passwordHash) then Failure(InvalidCurrentPassword)
    else Success(t.(rows := Replace(t.rows, u.(passwordHash := crypto.hash(newPassword)))))
  }

  /** `delete_user`: refused unless the current password verifies; otherwise the row is gone. */
  function DeleteUser(t: UserTable, crypto: Crypto, u: User, currentPassword: string)
    : (r: Result<UserTable, CrudError>)
    requires u in t.rows
    ensures r.Failure? <==> !crypto.verify(currentPassword, u.passwordHash)
    ensures r.Success? ==> r.value.nextId == t.nextId
    ensures r.Success? ==> forall v :: v in r.value.rows <==> v in t.rows && v.id != u.id
  {
    if !crypto.verify(currentPassword, u.passwordHash) then Failure(InvalidCurrentPassword)
    else Success(t.(rows := Remove(t.rows, u.id)))
  }

  /** Deleting a row keeps the constraints. */
  lemma DeletePreservesValid(t: UserTable, crypto: Crypto, u: User, currentPassword: string)
    requires Valid(t) && u in t.rows
    requires DeleteUser(t, crypto, u, currentPassword).Success?
    ensures Valid(DeleteUser(t, crypto, u, currentPassword).value)
  {
    var rows := Remove(t.rows, u.id);
    forall i | 0 <= i < |rows| ensures rows[i].id < t.nextId {
      assert rows[i] in rows;
    }
  }

  /** What an endpoint answers: a body, an `HTTPException`, or an uncaught integrity error (a 500). */
  datatype Reply<T> = Ok(value: T) | HttpError(status: nat, detail: string) | IntegrityFailure

  const EmailAlreadyRegistered: string := "Email already registered"
  const UsernameAlreadyTaken: string := "Username already taken"
  const InvalidCredentials: string := "Invalid credentials"
  const PasswordRequiredForEmail: string := "Current password required to change email"
  const InvalidCurrentPasswordDetail: string := "Invalid current password"

  /**
   * `register`: a known email is refused with 400 and nothing is created. The username is not
   * checked, so a taken username reaches the unique constraint.
   */
  function Register(t: UserTable, crypto: Crypto, email: string, username: string, password: string)
    : (r: (Reply<User>, UserTable))
    ensures GetByEmail(t, email).Some? ==> r == (HttpError(400, EmailAlreadyRegistered), t)
    ensures !r.0.Ok? ==> r.1 == t
    ensures r.0.IntegrityFailure? <==> GetByEmail(t, email).None? && GetByUsername(t, username).Some?
    ensures r.0.Ok? ==> (r.1, r.0.value) == Create(t, crypto, email, username, password).value
  {
    if GetByEmail(t, email).Some? then (HttpError(400, EmailAlreadyRegistered), t)
    else
      match Create(t, crypto, email, username, password)
      case Failure(_) => (IntegrityFailure, t)
      case Success((t', u)) => (Ok(u), t')
  }

  /** The input on which `register` fails with an integrity error: a new email with a taken username. */
  lemma RegisterTakenUsernameFails(crypto: Crypto)
    ensures var t := UserTable([User(0, "a@example.com", "dimi", "h")], 1);
      Register(t, crypto, "b@example.com", "dimi", "pw").0 == IntegrityFailure
  {
    var t := UserTable([User(0, "a@example.com", "dimi", "h")], 1);
    assert t.rows[0].username == "dimi";
    assert t.rows[0].email != "b@example.com";
  }

  /** `register` with the username check it lacks, answered as the profile update answers a taken username. */
  function RegisterChecked(t: UserTable, crypto: Crypto, email: string, username: string, password: string)
    : (r: (Reply<User>, UserTable))
    ensures GetByEmail(t, email).Some? ==> r == (HttpError(400, EmailAlreadyRegistered), t)
    ensures GetByEmail(t, email).None? && GetByUsername(t, username).Some? ==>
      r == (HttpError(400, UsernameAlreadyTaken), t)
    ensures !r.0.IntegrityFailure?
    ensures !r.0.Ok? ==> r.1 == t
    ensures r.0.Ok? <==> GetByEmail(t, email).None? && GetByUsername(t, username).None?
  {
    if GetByEmail(t, email).Some? then (HttpError(400, EmailAlreadyRegistered), t)
    else if GetByUsername(t, username).Some? then (HttpError(400, UsernameAlreadyTaken), t)
    else
      match Create(t, crypto, email, username, password)
      case Failure(_) => (IntegrityFailure, t)
      case Success((t', u)) => (Ok(u), t')
  }

  /** The corrected registration agrees with the original wherever the original does not fail with a 500. */
  lemma RegisterCheckedAgrees(t: UserTable, crypto: Crypto, email: string, username: string, password: string)
    requires !Register(t, crypto, email, username, password).0.IntegrityFailure?
    ensures RegisterChecked(t, crypto, email, username, password) == Register(t, crypto, email, username, password)
  {
  }

  /** A row a login identifier can name: by its email or by its username. */
  predicate Matches(u: User, identifier: string) {
    u.email == identifier || u.username == identifier
  }

  /** The identifier resolution of `login`: an email match first, then a username match. */
  function Resolve(t: UserTable, identifier: string): (r: Option<User>)
    ensures GetByEmail(t, identifier).Some? ==> r == GetByEmail(t, identifier)
    ensures r.Some? ==> r.value in t.rows && (r.value.email == identifier || r.value.username == identifier)
    ensures GetByEmail(t, identifier).None? ==> r == GetByUsername(t, identifier)
    ensures r.None? <==> forall j :: 0 <= j < |t.rows| ==> t.rows[j].email != identifier && t.rows[j].username != identifier
  {
    match GetByEmail(t, identifier)
    case Some(u) => Some(u)
    case None => GetByUsername(t, identifier)
  }

  /** The checks of `login` once the identifier is stripped: resolve it, then verify the password against that one row. */
  function Authenticate(t: UserTable, crypto: Crypto, s: string, password: string): (r: Reply<string>)
    ensures !r.IntegrityFailure?
    ensures r.HttpError? ==> r == HttpError(401, InvalidCredentials)
    ensures (forall j :: 0 <= j < |t.rows| ==> t.rows[j].email != s && t.rows[j].username != s) ==> r.HttpError?
    ensures r.Ok? ==> exists j :: 0 <= j < |t.rows| && Matches(t.rows[j], s)
                                  && crypto.verify(password, t.rows[j].passwordHash)
                                  && r.value == Text.NatToString(t.rows[j].id)
    ensures GetByEmail(t, s).Some? ==>
      (r.Ok? <==> crypto.verify(password, GetByEmail(t, s).value.passwordHash))
      && (r.Ok? ==> r.value == Text.NatToString(GetByEmail(t, s).value.id))
    ensures GetByEmail(t, s).None? && GetByUsername(t, s).Some? ==>
      (r.Ok? <==> crypto.verify(password, GetByUsername(t, s).value.passwordHash))
      && (r.Ok? ==> r.value == Text.NatToString(GetByUsername(t, s).value.id))
  {
    match Resolve(t, s)
    case None => HttpError(401, InvalidCredentials)
    case Some(u) =>
      if !crypto.verify(password, u.passwordHash) then HttpError(401, InvalidCredentials)
      else
        assert exists j :: 0 <= j < |t.rows| && t.rows[j] == u;
        Ok(Text.NatToString(u.id))
  }

  /**
   * `login`: the stripped identifier is resolved, the password checked against that one row,
   * and the token's subject is the user's id in decimal; any failure is 401 "Invalid credentials".
   */
  function Login(t: UserTable, crypto: Crypto, identifier: string, password: string): (r: Reply<string>)
    ensures !r.IntegrityFailure?
    ensures r.HttpError? ==> r == HttpError(401, InvalidCredentials)
    ensures var s := Text.Strip(identifier, Text.PyIsSpace);
      (forall j :: 0 <= j < |t.rows| ==> t.rows[j].email != s && t.rows[j].username != s) ==> r.HttpError?
    ensures var s := Text.Strip(identifier, Text.PyIsSpace);
      r.Ok? ==> exists j :: 0 <= j < |t.rows| && Matches(t.rows[j], s)
                             && crypto.verify(password, t.rows[j].passwordHash)
                             && r.value == Text.NatToString(t.rows[j].id)
    ensures var s := Text.Strip(identifier, Text.PyIsSpace);
      GetByEmail(t, s).Some? ==>
        (r.Ok? <==> crypto.verify(password, GetByEmail(t, s).value.passwordHash))
        && (r.Ok? ==> r.value == Text.NatToString(GetByEmail(t, s).value.id))
    ensures var s := Text.Strip(identifier, Text.PyIsSpace);
      GetByEmail(t, s).None? && GetByUsername(t, s).Some? ==>
        (r.Ok? <==> crypto.verify(password, GetByUsername(t, s).value.passwordHash))
        && (r.Ok? ==> r.value == Text.NatToString(GetByUsername(t, s).value.id))
  {
    Authenticate(t, crypto, Text.Strip(identifier, Text.PyIsSpace), password)
  }

  /** The token subject names exactly one user: reading it back gives the id of a row that matched. */
  lemma LoginSubjectIsUserId(t: UserTable, crypto: Crypto, identifier: string, password: string)
    requires Valid(t)
    requires Login(t, crypto, identifier, password).Ok?
    ensures var subject := Login(t, crypto, identifier, password).value;
      && (forall i :: 0 <= i < |subject| ==> Text.IsDigit(subject[i]))
      && GetById(t, Text.DigitsValue(subject)).Some?
  {
    var s := Text.Strip(identifier, Text.PyIsSpace);
    var u := Resolve(t, s).value;
    Text.NatToStringRoundTrip(u.id);
    LookupsFindUniqueRow(t, u);
  }

  /**
   * Registration then login by the same email and password succeeds with the new user's id,
   * under the assumed hash contract.
   */
  lemma RegisterThenLogin(t: UserTable, crypto: Crypto, email: string, username: string, password: string)
    requires Valid(t) && CryptoContract(crypto)
    requires Text.Strip(email, Text.PyIsSpace) == email
    requires Register(t, crypto, email, username, password).0.Ok?
    ensures var (reply, t') := Register(t, crypto, email, username, password);
      Login(t', crypto, email, password) == Ok(Text.NatToString(reply.value.id))
  {
    var (reply, t') := Register(t, crypto, email, username, password);
    CreatePreservesValid(t, crypto, email, username, password);
    assert reply.value == t'.rows[|t.rows|];
    LookupsFindUniqueRow(t', reply.value);
  }

  /** The requested username is unchanged, absent, or not yet taken. */
  predicate UsernameFree(t: UserTable, current: User, username: Option<string>) {
    username.None? || username.value == current.username || GetByUsername(t, username.value).None?
  }

  /** The request names an email other than the current one. */
  predicate ChangesEmail(current: User, email: Option<string>) {
    email.Some? && email.value != current.email
  }

  /** A non-empty current password came with the request. */
  predicate PasswordGiven(currentPassword: Option<string>) {
    currentPassword.Some? && currentPassword.value != ""
  }

  /**
   * A user can also log in by username, provided no row has that string as its email (an email
   * match is tried first).
   */
  lemma RegisterThenLoginByUsername(t: UserTable, crypto: Crypto, email: string, username: string, password: string)
    requires Valid(t) && CryptoContract(crypto)
    requires Text.Strip(username, Text.PyIsSpace) == username
    requires username != email && GetByEmail(t, username).None?
    requires Register(t, crypto, email, username, password).0.Ok?
    ensures var (reply, t') := Register(t, crypto, email, username, password);
      Login(t', crypto, username, password) == Ok(Text.NatToString(reply.value.id))
  {
    var (reply, t') := Register(t, crypto, email, username, password);
    var u := reply.value;
    assert t'.rows == t.rows + [u] && u.email == email && u.username == username;
    assert u.passwordHash == crypto.hash(password);
    CreatePreservesValid(t, crypto, email, username, password);
    EmailAbsentAfterAppend(t.rows, u, username);
    assert u == t'.rows[|t.rows|];
    LookupsFindUniqueRow(t', u);
    LoginByUsernameOnly(t', crypto, username, password, u);
  }

  /** Appending a row whose email differs keeps an email absent. */
  lemma EmailAbsentAfterAppend(rows: seq<User>, u: User, email: string)
    requires forall j :: 0 <= j < |rows| ==> rows[j].email != email
    requires u.email != email
    ensures forall j :: 0 <= j < |rows + [u]| ==> (rows + [u])[j].email != email
  {
  }

  /** With no email match, a username match whose hash verifies the password logs in as that row. */
  lemma LoginByUsernameOnly(t: UserTable, crypto: Crypto, identifier: string, password: string, u: User)
    requires Text.Strip(identifier, Text.PyIsSpace) == identifier
    requires GetByEmail(t, identifier).None? && GetByUsername(t, identifier) == Some(u)
    requires crypto.verify(password, u.passwordHash)
    ensures Login(t, crypto, identifier, password) == Ok(Text.NatToString(u.id))
  {
  }

  /**
   * `update_profile`. The checks run in a fixed order: a new username already taken (400), a
   * new email without a current password (400), a new email already registered (400), a wrong
   * current password (401); only then is the row updated.
   */
  function UpdateProfile(t: UserTable, crypto: Crypto, current: User,
                         email: Option<string>, username: Option<string>, currentPassword: Option<string>)
    : (r: (Reply<User>, UserTable))
    requires current in t.rows
    ensures r.0.HttpError? || r.0.IntegrityFailure? ==> r.1 == t
    ensures !UsernameFree(t, current, username) ==> r.0 == HttpError(400, UsernameAlreadyTaken)
    ensures UsernameFree(t, current, username) && ChangesEmail(current, email) && !PasswordGiven(currentPassword) ==>
      r.0 == HttpError(400, PasswordRequiredForEmail)
    ensures UsernameFree(t, current, username) && ChangesEmail(current, email) && PasswordGiven(currentPassword)
            && GetByEmail(t, email.value).Some? ==>
      r.0 == HttpError(400, EmailAlreadyRegistered)
    ensures UsernameFree(t, current, username) && ChangesEmail(current, email) && PasswordGiven(currentPassword)
            && GetByEmail(t, email.value).None? ==>
      (r.0 == HttpError(401, InvalidCurrentPasswordDetail) <==> !crypto.verify(currentPassword.value, current.passwordHash))
    ensures UsernameFree(t, current, username) && !ChangesEmail(current, email) ==> !r.0.HttpError?
    ensures r.0.Ok? <==>
      && UsernameFree(t, current, username)
      && (ChangesEmail(current, email) ==>
            && PasswordGiven(currentPassword) && GetByEmail(t, email.value).None?
            && crypto.verify(currentPassword.value, current.passwordHash))
      && UpdateUser(t, current, email, username).Success?
    ensures r.0.HttpError? ==> r.0.status == 400 || r.0 == HttpError(401, InvalidCurrentPasswordDetail)
    ensures r.0.HttpError? && r.0.status == 401 ==>
      && email.Some? && email.value != current.email
      && currentPassword.Some? && currentPassword.value != ""
      && !crypto.verify(currentPassword.value, current.passwordHash)
    ensures r.0.Ok? ==>
      && (username.Some? && username.value != current.username ==> GetByUsername(t, username.value).None?)
      && (email.Some? && email.value != current.email ==>
            && currentPassword.Some? && currentPassword.value != ""
            && GetByEmail(t, email.value).None?
            && crypto.verify(currentPassword.value, current.passwordHash))
      && Success((r.1, r.0.value)) == UpdateUser(t, current, email, username)
  {
    if username.Some? && username.value != current.username && GetByUsername(t, username.value).Some? then
      (HttpError(400, UsernameAlreadyTaken), t)
    else if email.Some? && email.value != current.email && (currentPassword.None? || currentPassword.value == "") then
      (HttpError(400, PasswordRequiredForEmail), t)
    else if email.Some? && email.value != current.email && GetByEmail(t, email.value).Some? then
      (HttpError(400, EmailAlreadyRegistered), t)
    else if email.Some? && email.value != current.email && !crypto.verify(currentPassword.value, current.passwordHash) then
      (HttpError(401, InvalidCurrentPasswordDetail), t)
    else
      match UpdateUser(t, current, email, username)
      case Failure(_) => (IntegrityFailure, t)
      case Success((t', u)) => (Ok(u), t')
  }

  /** An email change without a password is refused before the email is looked up: even a taken email gets the password message. */
  lemma EmailChangeNeedsPasswordFirst(t: UserTable, crypto: Crypto, current: User, email: string, username: Option<string>)
    requires current in t.rows
    requires email != current.email
    requires username.None? || username.value == current.username || GetByUsername(t, username.value).None?
    ensures UpdateProfile(t, crypto, current, Some(email), username, None).0 == HttpError(400, PasswordRequiredForEmail)
    ensures UpdateProfile(t, crypto, current, Some(email), username, Some("")).0 == HttpError(400, PasswordRequiredForEmail)
  {
  }

  /** In a valid table the checks leave nothing for the unique constraint to catch, and the constraints still hold afterwards. */
  lemma UpdateProfileNeverViolatesConstraints(t: UserTable, crypto: Crypto, current: User,
                                              email: Option<string>, username: Option<string>, currentPassword: Option<string>)
    requires Valid(t) && current in t.rows
    ensures !UpdateProfile(t, crypto, current, email, username, currentPassword).0.IntegrityFailure?
    ensures Valid(UpdateProfile(t, crypto, current, email, username, currentPassword).1)
  {
    var k :| 0 <= k < |t.rows| && t.rows[k] == current;
    var r := UpdateProfile(t, crypto, current, email, username, currentPassword);
    if r.0.Ok? || r.0.IntegrityFailure? {
      var newEmail := if email.Some? then email.value else current.email;
      var newUsername := if username.Some? then username.value else current.username;
      assert !Clashes(t, current.id, newEmail, newUsername) by {
        forall j | 0 <= j < |t.rows| && t.rows[j].id != current.id
          ensures t.rows[j].email != newEmail && t.rows[j].username != newUsername
        {
          assert j != k;
          assert t.rows[j].email != current.email && t.rows[j].username != current.username by {
            if j < k {} else {}
          }
        }
      }
      ReplacePreservesValid(t, current, UpdateUser(t, current, email, username).value.1);
    }
  }

  /** `update_profile_password`: a wrong current password is 401 and changes nothing; success is 204. */
  function UpdateProfilePassword(t: UserTable, crypto: Crypto, current: User, currentPassword: string, newPassword: string)
    : (r: (Reply<()>, UserTable))
    requires current in t.rows
    ensures r.0 == Ok(()) || r.0 == HttpError(401, InvalidCurrentPasswordDetail)
    ensures r.0.HttpError? <==> !crypto.verify(currentPassword, current.passwordHash)
    ensures r.0.HttpError? ==> r.1 == t
    ensures r.0.Ok? ==> r.1 == ChangePassword(t, crypto, current, currentPassword, newPassword).value
  {
    match ChangePassword(t, crypto, current, currentPassword, newPassword)
    case Failure(_) => (HttpError(401, InvalidCurrentPasswordDetail), t)
    case Success(t') => (Ok(()), t')
  }

  /** `delete_profile`: a wrong current password is 401 and changes nothing; success is 204. */
  function DeleteProfile(t: UserTable, crypto: Crypto, current: User, currentPassword: string)
    : (r: (Reply<()>, UserTable))
    requires current in t.rows
    ensures r.0 == Ok(()) || r.0 == HttpError(401, InvalidCurrentPasswordDetail)
    ensures r.0.HttpError? <==> !crypto.verify(currentPassword, current.passwordHash)
    ensures r.0.HttpError? ==> r.1 == t
    ensures r.0.Ok? ==> r.1 == DeleteUser(t, crypto, current, currentPassword).value
  {
    match DeleteUser(t, crypto, current, currentPassword)
    case Failure(_) => (HttpError(401, InvalidCurrentPasswordDetail), t)
    case Success(t') => (Ok(()), t')
  }

  /**
   * After a password change, login with the new password succeeds and login with the old one is
   * refused, under the assumed hash contract.
   */
  lemma PasswordChangeThenLogin(t: UserTable, crypto: Crypto, current: User,
                                oldPassword: string, newPassword: string)
    requires Valid(t) && CryptoContract(crypto) && current in t.rows
    requires oldPassword != newPassword
    requires Text.Strip(current.email, Text.PyIsSpace) == current.email
    requires UpdateProfilePassword(t, crypto, current, oldPassword, newPassword).0.Ok?
    ensures var t' := UpdateProfilePassword(t, crypto, current, oldPassword, newPassword).1;
      && Login(t', crypto, current.email, newPassword) == Ok(Text.NatToString(current.id))
      && Login(t', crypto, current.email, oldPassword) == HttpError(401, InvalidCredentials)
  {
    var u' := current.(passwordHash := crypto.hash(newPassword));
    var t' := t.(rows := Replace(t.rows, u'));
    assert UpdateProfilePassword(t, crypto, current, oldPassword, newPassword).1 == t';
    RehashKeepsValid(t, current, u');
    assert crypto.verify(newPassword, u'.passwordHash);
    assert !crypto.verify(oldPassword, u'.passwordHash);
    LoginByEmailRow(t', crypto, u', newPassword);
    LoginByEmailRow(t', crypto, u', oldPassword);
  }

  /** Replacing a row by a copy with another password hash keeps the table valid and the copy in it. */
  lemma RehashKeepsValid(t: UserTable, current: User, u': User)
    requires Valid(t) && current in t.rows
    requires u' == current.(passwordHash := u'.passwordHash)
    ensures Valid(t.(rows := Replace(t.rows, u')))
    ensures u' in Replace(t.rows, u')
  {
    var k :| 0 <= k < |t.rows| && t.rows[k] == current;
    assert !Clashes(t, current.id, u'.email, u'.username) by {
      forall j | 0 <= j < |t.rows| && t.rows[j].id != current.id
        ensures t.rows[j].email != u'.email && t.rows[j].username != u'.username
      {
        assert j != k;
      }
    }
    ReplacePreservesValid(t, current, u');
    ReplacedRowIsPresent(t.rows, u', k);
  }

  /** The replacement of the row at position `k` sits in the replaced rows. */
  lemma ReplacedRowIsPresent(rows: seq<User>, u: User, k: nat)
    requires k < |rows| && rows[k].id == u.id
    ensures u in Replace(rows, u)
  {
    assert Replace(rows, u)[k] == u;
  }

  /** In a valid table, logging in with a row's own (already stripped) email checks that row's hash. */
  lemma LoginByEmailRow(t: UserTable, crypto: Crypto, u: User, password: string)
    requires Valid(t) && u in t.rows
    requires Text.Strip(u.email, Text.PyIsSpace) == u.email
    ensures Login(t, crypto, u.email, password)
         == if crypto.verify(password, u.passwordHash) then Ok(Text.NatToString(u.id)) else HttpError(401, InvalidCredentials)
  {
    LookupsFindUniqueRow(t, u);
  }

  /** After the account is deleted no login, by any identifier and password, yields its subject again. */
  lemma DeleteThenLoginFails(t: UserTable, crypto: Crypto, current: User, currentPassword: string,
                             identifier: string, anyPassword: string)
    requires current in t.rows
    requires DeleteProfile(t, crypto, current, currentPassword).0.Ok?
    ensures var t' := DeleteProfile(t, crypto, current, currentPassword).1;
      Login(t', crypto, identifier, anyPassword) != Ok(Text.NatToString(current.id))
  {
    var t' := DeleteProfile(t, crypto, current, currentPassword).1;
    var r := Login(t', crypto, identifier, anyPassword);
    if r == Ok(Text.NatToString(current.id)) {
      var j :| 0 <= j < |t'.rows| && r.value == Text.NatToString(t'.rows[j].id);
      assert t'.rows[j] in t'.rows;
      Text.NatToStringInjective(t'.rows[j].id, current.id);
    }
  }
}
