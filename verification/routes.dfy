/**
 * The six handlers of the user router, each a function from the store and a
 * request to the next store and the JSON envelope sent back.
 *
 * The password hash (bcrypt) and the date parser (`Date.parse` and
 * `new Date`) are not part of this model; they are supplied as an `Env`.
 * Thrown database errors and the catch blocks that report them are not
 * modelled, except where a request value alone makes `save` reject.
 */
module UserRoutes {
  import opened Wrappers
  import opened JsString
  import opened Patterns
  import opened UserStore

  datatype Status = Success | Failed

  /** The `data` member of an envelope. */
  datatype Payload =
    | NoData
    | Record(id: Id, user: User)
    | Records(users: map<Id, User>)
    | Profile(userId: Id, name: string, email: string)

  /** `{ status, message?, data? }`; every user route answers with HTTP 200. */
  datatype Envelope = Envelope(status: Status, message: Option<Message>, data: Payload)

  datatype Response = Response(store: Store, envelope: Envelope)

  /** The collaborators the routes call but this model does not define:
      bcrypt's `hash` and `compare`, and date parsing, which yields `None`
      where `Date.parse` yields NaN. */
  datatype Env = Env(
    hash: string -> string,
    compare: (string, string) -> bool,
    parseDate: string -> Option<TimeValue>)

  /** The one fact assumed of bcrypt: a password matches its own hash. */
  ghost predicate HashSound(env: Env) {
    forall p :: env.compare(p, env.hash(p))
  }

  /** Request bodies. Signup and signin fields must be present strings: the
      route calls `trim` on them before its `try`. Update fields may be
      absent. */
  datatype SignupRequest = SignupRequest(name: string, email: string, password: string, dateOfBirth: string)
  datatype SigninRequest = SigninRequest(email: string, password: string)
  datatype UpdateRequest = UpdateRequest(name: Option<string>, email: Option<string>, dateOfBirth: Option<string>)

  /** The messages the routes send. */
  datatype Message =
    | EmptyInputField
    | InvalidName
    | InvalidEmail
    | InvalidDateOfBirth
    | PasswordTooShort
    | EmailAlreadyExists
    | SignupSuccessful
    | UserNotFound
    | NoUsersFound
    | UserDeleted
    | EmailOrPasswordEmpty
    | IncorrectPassword
    | SigninSuccessful
    | UpdateFailed
  {
    /** The text sent in the envelope's `message` member. */
    function Text(): string {
      match this
      case EmptyInputField => "Empty input field"
      case InvalidName => "Invalid name"
      case InvalidEmail => "Invalid email"
      case InvalidDateOfBirth => "Invalid date of birth"
      case PasswordTooShort => "Password is too short!"
      case EmailAlreadyExists => "User with the provided email already exists"
      case SignupSuccessful => "Signup Successful!"
      case UserNotFound => "User not found"
      case NoUsersFound => "No users found"
      case UserDeleted => "User deleted successfully"
      case EmailOrPasswordEmpty => "Email or password field is empty"
      case IncorrectPassword => "Incorrect password"
      case SigninSuccessful => "Signin Successful!"
      case UpdateFailed => "An error occurred while updating user information"
    }
  }

  const MinPasswordLength := 8

  function Fail(st: Store, message: Message): Response {
    Response(st, Envelope(Failed, Some(message), NoData))
  }

  // ---------------------------------------------------------------------
  // GET /user/:userId and GET /user
  // ---------------------------------------------------------------------

  /** The full record when the identity is known, "User not found" otherwise. */
  function GetById(st: Store, id: Id): (r: Response)
    ensures r.store == st
    ensures r.envelope.status == Success <==> id in st.users
    ensures id in st.users ==> r.envelope == Envelope(Success, None, Record(id, st.users[id]))
    ensures id !in st.users ==> r.envelope == Envelope(Failed, Some(UserNotFound), NoData)
  {
    match FindById(st, id)
    case Some(u) => Response(st, Envelope(Success, None, Record(id, u)))
    case None => Fail(st, UserNotFound)
  }

  /** Every record; an empty collection still succeeds, with a message. */
  function GetAll(st: Store): (r: Response)
    ensures r.store == st
    ensures r.envelope.status == Success
    ensures r.envelope.data == Records(st.users)
    ensures r.envelope.message.Some? <==> |st.users| == 0
    ensures r.envelope.message.Some? ==> r.envelope.message.value == NoUsersFound
  {
    if |st.users| > 0 then Response(st, Envelope(Success, None, Records(st.users)))
    else Response(st, Envelope(Success, Some(NoUsersFound), Records(map[])))
  }

  // ---------------------------------------------------------------------
  // POST /user/signup
  // ---------------------------------------------------------------------

  /** The four signup fields after `trim`. */
  datatype SignupFields = SignupFields(name: string, email: string, password: string, dateOfBirth: string)

  function TrimSignup(req: SignupRequest): (f: SignupFields)
    ensures IsTrimmed(f.name) && IsTrimmed(f.email) && IsTrimmed(f.password) && IsTrimmed(f.dateOfBirth)
    ensures f.name == [] <==> AllWhitespace(req.name)
    ensures f.email == [] <==> AllWhitespace(req.email)
    ensures f.password == [] <==> AllWhitespace(req.password)
    ensures f.dateOfBirth == [] <==> AllWhitespace(req.dateOfBirth)
    ensures f == SignupFields(Trim(req.name), Trim(req.email), Trim(req.password), Trim(req.dateOfBirth))
  {
    SignupFields(Trim(req.name), Trim(req.email), Trim(req.password), Trim(req.dateOfBirth))
  }

  /** One validation step: whether it passes and what it reports if not. */
  datatype Check = Check(passes: bool, message: Message)

  /** The validation chain of the signup route, in the order it runs. */
  function SignupChecks(env: Env, st: Store, f: SignupFields): seq<Check> {
    [ Check(f.name != [] && f.email != [] && f.password != [] && f.dateOfBirth != [], EmptyInputField),
      Check(MatchesName(f.name), InvalidName),
      Check(MatchesEmail(f.email), InvalidEmail),
      Check(env.parseDate(f.dateOfBirth).Some?, InvalidDateOfBirth),
      Check(Utf16Length(f.password) >= MinPasswordLength, PasswordTooShort),
      Check(FindByEmail(st, f.email).None?, EmailAlreadyExists) ]
  }

  /** The message of the first failing check, `None` when all pass. */
  function FirstFailure(cs: seq<Check>): (r: Option<Message>)
    ensures r.None? <==> forall i :: 0 <= i < |cs| ==> cs[i].passes
    ensures r.Some? ==> exists i :: 0 <= i < |cs| && !cs[i].passes && r.value == cs[i].message
                                    && forall j :: 0 <= j < i ==> cs[j].passes
  {
    if |cs| == 0 then None
    else if !cs[0].passes then Some(cs[0].message)
    else
      var r := FirstFailure(cs[1..]);
      if r.Some? then
        var i :| 0 <= i < |cs[1..]| && !cs[1..][i].passes && r.value == cs[1..][i].message
                 && forall j :: 0 <= j < i ==> cs[1..][j].passes;
        assert forall j :: 0 <= j < i + 1 ==> cs[j].passes by {
          forall j | 0 <= j < i + 1 ensures cs[j].passes {
            if j > 0 { assert cs[j] == cs[1..][j - 1]; }
          }
        }
        r
      else
        assert forall i :: 1 <= i < |cs| ==> cs[i] == cs[1..][i - 1];
        r
  }

  /** The signup validation chain as the route runs it: the message of the
      first check that fails, `None` when the request may be stored. */
  function SignupError(env: Env, st: Store, f: SignupFields): (e: Option<Message>)
    ensures e.None? ==> env.parseDate(f.dateOfBirth).Some? && FindByEmail(st, f.email).None?
  {
    if f.name == [] || f.email == [] || f.password == [] || f.dateOfBirth == [] then
      Some(EmptyInputField)
    else if !MatchesName(f.name) then
      Some(InvalidName)
    else if !MatchesEmail(f.email) then
      Some(InvalidEmail)
    else if env.parseDate(f.dateOfBirth).None? then
      Some(InvalidDateOfBirth)
    else if Utf16Length(f.password) < MinPasswordLength then
      Some(PasswordTooShort)
    else if FindByEmail(st, f.email).Some? then
      Some(EmailAlreadyExists)
    else
      None
  }

  /** Signup: validate, check uniqueness, then store exactly one new record
      holding the hashed password. Any failure leaves the store as it was. */
  function Signup(env: Env, st: Store, req: SignupRequest): (r: Response)
    ensures r.envelope.status == Failed ==> r.store == st && r.envelope.data == NoData
    ensures r.envelope.status == Success ==>
              var f := TrimSignup(req);
              && r.envelope.message == Some(SignupSuccessful)
              && r.envelope.data.Record?
              && r.envelope.data.id !in st.users
              && r.store.users == st.users[r.envelope.data.id := r.envelope.data.user]
              && var u := r.envelope.data.user;
              && u.name == f.name && u.email == f.email
              && u.password == env.hash(f.password)
              && env.parseDate(f.dateOfBirth) == Some(u.dateOfBirth)
    ensures r.envelope.status == Success ==>
              var f := TrimSignup(req);
              && f.name != [] && f.email != [] && f.password != [] && f.dateOfBirth != []
              && forall id :: id in st.users ==> st.users[id].email != f.email
  {
    var f := TrimSignup(req);
    match SignupError(env, st, f)
    case Some(message) => Fail(st, message)
    case None =>
      var u := User(f.name, f.email, env.hash(f.password), env.parseDate(f.dateOfBirth).value);
      var (st', id) := Insert(st, u);
      Response(st', Envelope(Success, Some(SignupSuccessful), Record(id, u)))
  }

  // ---------------------------------------------------------------------
  // PUT /user/:userId
  // ---------------------------------------------------------------------

  /** JavaScript truthiness of an optional string: present and non-empty. */
  predicate Truthy(o: Option<string>) {
    o.Some? && o.value != ""
  }

  /** `value || fallback` */
  function OrElse(value: Option<string>, fallback: string): string {
    if Truthy(value) then value.value else fallback
  }

  /** Update: each of name, email and date of birth is replaced only when
      the supplied value is truthy. Nothing is trimmed or validated, and the
      email is not checked for uniqueness. A truthy date that does not parse
      makes `save` reject, which the route reports with its generic message. */
  function Update(env: Env, st: Store, id: Id, req: UpdateRequest): (r: Response)
    ensures r.envelope.status == Failed ==> r.store == st
    ensures id !in st.users ==> r.envelope == Envelope(Failed, Some(UserNotFound), NoData)
    ensures id in st.users && Truthy(req.dateOfBirth) && env.parseDate(req.dateOfBirth.value).None? ==>
              r.envelope == Envelope(Failed, Some(UpdateFailed), NoData)
    ensures id in st.users && (!Truthy(req.dateOfBirth) || env.parseDate(req.dateOfBirth.value).Some?) ==>
              r.envelope.status == Success && r.envelope.message == None
    ensures r.envelope.status == Success ==>
              && id in st.users
              && r.envelope.data.Record? && r.envelope.data.id == id
              && r.store.users.Keys == st.users.Keys
              && r.store.users[id] == r.envelope.data.user
              && (forall j :: j in st.users && j != id ==> r.store.users[j] == st.users[j])
    ensures r.envelope.status == Success ==>
              var before := st.users[id];
              var after := r.store.users[id];
              && after.password == before.password
              && (Truthy(req.name) ==> after.name == req.name.value)
              && (!Truthy(req.name) ==> after.name == before.name)
              && (Truthy(req.email) ==> after.email == req.email.value)
              && (!Truthy(req.email) ==> after.email == before.email)
              && (Truthy(req.dateOfBirth) ==> Some(after.dateOfBirth) == env.parseDate(req.dateOfBirth.value))
              && (!Truthy(req.dateOfBirth) ==> after.dateOfBirth == before.dateOfBirth)
  {
    match FindById(st, id)
    case None => Fail(st, UserNotFound)
    case Some(u) =>
      var date :=
        if Truthy(req.dateOfBirth) then env.parseDate(req.dateOfBirth.value) else Some(u.dateOfBirth);
      if date.None? then
        Fail(st, UpdateFailed)
      else
        var u' := User(OrElse(req.name, u.name), OrElse(req.email, u.email), u.password, date.value);
        Response(StoreState(st.users[id := u'], st.nextId), Envelope(Success, None, Record(id, u')))
  }

  // ---------------------------------------------------------------------
  // DELETE /user/:userId
  // ---------------------------------------------------------------------

  /** Delete: removes exactly the named record, or reports it missing. */
  function Delete(st: Store, id: Id): (r: Response)
    ensures r.envelope.status == Success <==> id in st.users
    ensures id in st.users ==>
              r.store.users == st.users - {id} && r.envelope == Envelope(Success, Some(UserDeleted), NoData)
    ensures id !in st.users ==>
              r.store == st && r.envelope == Envelope(Failed, Some(UserNotFound), NoData)
  {
    if id in st.users then
      Response(StoreState(st.users - {id}, st.nextId), Envelope(Success, Some(UserDeleted), NoData))
    else
      Fail(st, UserNotFound)
  }

  // ---------------------------------------------------------------------
  // POST /user/signin
  // ---------------------------------------------------------------------

  /** The signin check on trimmed fields: looks up the (first) user holding
      the email and compares the password with its stored hash. Never changes
      the store; a success carries identity, name and email and nothing else. */
  function Authenticate(env: Env, st: Store, email: string, password: string): (r: Response)
    ensures r.store == st
    ensures email == [] || password == [] ==>
              r.envelope == Envelope(Failed, Some(EmailOrPasswordEmpty), NoData)
    ensures r.envelope.message == Some(UserNotFound) <==>
              email != [] && password != [] && forall j :: j in st.users ==> st.users[j].email != email
    ensures r.envelope.message == Some(UserNotFound) ==> r.envelope == Envelope(Failed, Some(UserNotFound), NoData)
    ensures r.envelope.status == Success ==>
              && r.envelope.message == Some(SigninSuccessful)
              && r.envelope.data.Profile?
              && var id := r.envelope.data.userId;
              && id in st.users
              && st.users[id].email == email
              && env.compare(password, st.users[id].password)
              && r.envelope.data == Profile(id, st.users[id].name, st.users[id].email)
    ensures r.envelope.message == Some(IncorrectPassword) ==>
              exists id :: id in st.users && st.users[id].email == email
                && !env.compare(password, st.users[id].password)
    ensures email != [] && password != [] &&
            (exists j :: j in st.users && st.users[j].email == email) &&
            (forall j :: j in st.users && st.users[j].email == email ==> env.compare(password, st.users[j].password)) ==>
              r.envelope.status == Success
    ensures email != [] && password != [] &&
            (exists j :: j in st.users && st.users[j].email == email) &&
            (forall j :: j in st.users && st.users[j].email == email ==> !env.compare(password, st.users[j].password)) ==>
              r.envelope == Envelope(Failed, Some(IncorrectPassword), NoData)
  {
    if email == [] || password == [] then
      Fail(st, EmailOrPasswordEmpty)
    else
      match FindByEmail(st, email)
      case None => Fail(st, UserNotFound)
      case Some(id) =>
        var u := st.users[id];
        if env.compare(password, u.password) then
          Response(st, Envelope(Success, Some(SigninSuccessful), Profile(id, u.name, u.email)))
        else
          Fail(st, IncorrectPassword)
  }

  /** Signin: trims both fields, then authenticates. A field of only
      whitespace is reported as empty. */
  function Signin(env: Env, st: Store, req: SigninRequest): (r: Response)
    ensures r.store == st
    ensures AllWhitespace(req.email) || AllWhitespace(req.password) ==>
              r.envelope == Envelope(Failed, Some(EmailOrPasswordEmpty), NoData)
  {
    Authenticate(env, st, Trim(req.email), Trim(req.password))
  }
}
