/**
 * Properties that relate the handlers to each other and to the reference
 * descriptions of their behaviour: the order of the signup checks, the
 * email-uniqueness invariant, and the round trips between routes.
 */
module UserProperties {
  import opened Wrappers
  import opened JsString
  import opened Patterns
  import opened UserStore
  import opened UserRoutes

  // ---------------------------------------------------------------------
  // Which signup message wins
  // ---------------------------------------------------------------------

  /** The first failing check decides, whatever the checks after it say. */
  lemma FirstFailureAt(cs: seq<Check>, i: nat)
    requires i < |cs| && !cs[i].passes
    requires forall j :: 0 <= j < i ==> cs[j].passes
    ensures FirstFailure(cs) == Some(cs[i].message)
  {
  }

  /** Checks after the first failing one are never consulted: two chains
      that agree up to and including it report the same message. */
  lemma LaterChecksIgnored(cs: seq<Check>, ds: seq<Check>, i: nat)
    requires i < |cs| && i < |ds| && cs[..i + 1] == ds[..i + 1]
    requires !cs[i].passes && forall j :: 0 <= j < i ==> cs[j].passes
    ensures FirstFailure(cs) == FirstFailure(ds)
  {
    assert forall j :: 0 <= j <= i ==> cs[j] == cs[..i + 1][j] == ds[..i + 1][j] == ds[j];
    FirstFailureAt(cs, i);
    FirstFailureAt(ds, i);
  }

  /** The route's if-chain is the ordered check list read up to its first
      failure. */
  lemma SignupErrorIsFirstFailure(env: Env, st: Store, f: SignupFields)
    ensures SignupError(env, st, f) == FirstFailure(SignupChecks(env, st, f))
  {
    var cs := SignupChecks(env, st, f);
    if !cs[0].passes {
      FirstFailureAt(cs, 0);
    } else if !cs[1].passes {
      FirstFailureAt(cs, 1);
    } else if !cs[2].passes {
      FirstFailureAt(cs, 2);
    } else if !cs[3].passes {
      FirstFailureAt(cs, 3);
    } else if !cs[4].passes {
      FirstFailureAt(cs, 4);
    } else if !cs[5].passes {
      FirstFailureAt(cs, 5);
    } else {
      assert forall j :: 0 <= j < |cs| ==> cs[j].passes by {
        forall j | 0 <= j < |cs| ensures cs[j].passes {
          assert j in {0, 1, 2, 3, 4, 5};
        }
      }
    }
  }

  /** Signup answers with the message of the first failing check and leaves
      the store alone; when no check fails it succeeds. */
  lemma SignupReportsFirstFailure(env: Env, st: Store, req: SignupRequest)
    ensures var e := FirstFailure(SignupChecks(env, st, TrimSignup(req)));
            var r := Signup(env, st, req);
            && (e.Some? ==> r == Fail(st, e.value))
            && (e.None? ==> r.envelope.status == Success)
  {
    SignupErrorIsFirstFailure(env, st, TrimSignup(req));
  }

  /** Check `i` of the chain fails and every earlier one passes: its message
      is the answer. */
  lemma SignupFailsAt(env: Env, st: Store, req: SignupRequest, i: nat)
    requires var cs := SignupChecks(env, st, TrimSignup(req));
             i < |cs| && !cs[i].passes && forall j :: 0 <= j < i ==> cs[j].passes
    ensures Signup(env, st, req) == Fail(st, SignupChecks(env, st, TrimSignup(req))[i].message)
  {
    var cs := SignupChecks(env, st, TrimSignup(req));
    FirstFailureAt(cs, i);
    SignupReportsFirstFailure(env, st, req);
  }

  /** A blank field is reported before anything else. */
  lemma BlankFieldRejected(env: Env, st: Store, req: SignupRequest)
    requires || AllWhitespace(req.name) || AllWhitespace(req.email)
             || AllWhitespace(req.password) || AllWhitespace(req.dateOfBirth)
    ensures Signup(env, st, req) == Fail(st, EmptyInputField)
  {
    var f := TrimSignup(req);
    assert f.name == [] || f.email == [] || f.password == [] || f.dateOfBirth == [];
    assert SignupError(env, st, f) == Some(EmptyInputField);
  }

  /** A non-blank request whose trimmed name holds a character outside
      `[a-zA-Z]` is refused as an invalid name. */
  lemma NonLetterNameRejected(env: Env, st: Store, req: SignupRequest, i: nat)
    requires !AllWhitespace(req.name) && !AllWhitespace(req.email)
    requires !AllWhitespace(req.password) && !AllWhitespace(req.dateOfBirth)
    requires i < |Trim(req.name)| && !IsAsciiLetter(Trim(req.name)[i])
    ensures Signup(env, st, req) == Fail(st, InvalidName)
  {
    var f := TrimSignup(req);
    assert f.name != [] && f.email != [] && f.password != [] && f.dateOfBirth != [];
    assert !MatchesName(f.name);
    assert SignupError(env, st, f) == Some(InvalidName);
  }

  /** The trimmed fields pass every check before the password-length check. */
  predicate FieldsPassUpToPassword(env: Env, f: SignupFields) {
    && f.name != [] && f.email != [] && f.password != [] && f.dateOfBirth != []
    && MatchesName(f.name) && MatchesEmail(f.email)
    && env.parseDate(f.dateOfBirth).Some?
  }

  predicate PassesUpToPassword(env: Env, req: SignupRequest) {
    FieldsPassUpToPassword(env, TrimSignup(req))
  }

  lemma PasswordCheck(env: Env, st: Store, f: SignupFields)
    requires FieldsPassUpToPassword(env, f)
    ensures Utf16Length(f.password) < MinPasswordLength <==> SignupError(env, st, f) == Some(PasswordTooShort)
  {
    if Utf16Length(f.password) >= MinPasswordLength {
      var e := SignupError(env, st, f);
      assert e == None || e == Some(EmailAlreadyExists);
    }
  }

  /** Seven UTF-16 code units are too few and eight are enough. */
  lemma PasswordLengthBoundary(env: Env, st: Store, req: SignupRequest)
    requires PassesUpToPassword(env, req)
    ensures Utf16Length(Trim(req.password)) < MinPasswordLength <==>
            Signup(env, st, req) == Fail(st, PasswordTooShort)
  {
    PasswordCheck(env, st, TrimSignup(req));
  }

  lemma EmailTakenCheck(env: Env, st: Store, f: SignupFields, id: Id)
    requires FieldsPassUpToPassword(env, f) && Utf16Length(f.password) >= MinPasswordLength
    requires id in st.users && st.users[id].email == f.email
    ensures SignupError(env, st, f) == Some(EmailAlreadyExists)
  {
    assert FindByEmail(st, f.email).Some?;
  }

  /** An email held by a stored user is refused, and nothing is stored. */
  lemma DuplicateEmailRejected(env: Env, st: Store, req: SignupRequest, id: Id)
    requires PassesUpToPassword(env, req)
    requires Utf16Length(Trim(req.password)) >= MinPasswordLength
    requires id in st.users && st.users[id].email == Trim(req.email)
    ensures Signup(env, st, req) == Fail(st, EmailAlreadyExists)
  {
    EmailTakenCheck(env, st, TrimSignup(req), id);
  }

  // ---------------------------------------------------------------------
  // What a successful signup stores
  // ---------------------------------------------------------------------

  /** Success adds exactly one record; the others are as they were. */
  lemma SignupAddsOneRecord(env: Env, st: Store, req: SignupRequest)
    ensures var r := Signup(env, st, req);
            r.envelope.status == Success ==>
              && |r.store.users| == |st.users| + 1
              && (forall id :: id in st.users ==> id in r.store.users && r.store.users[id] == st.users[id])
  {
    var r := Signup(env, st, req);
    if r.envelope.status == Success {
      assert r.store.users.Keys == st.users.Keys + {r.envelope.data.id};
    }
  }

  // ---------------------------------------------------------------------
  // Email uniqueness
  // ---------------------------------------------------------------------

  lemma SignupPreservesUniqueEmails(env: Env, st: Store, req: SignupRequest)
    requires UniqueEmails(st)
    ensures UniqueEmails(Signup(env, st, req).store)
  {
    var r := Signup(env, st, req);
    if r.envelope.status == Success {
      AddFreshEmail(st.users, r.envelope.data.id, r.envelope.data.user);
    }
  }

  /** Signups applied one after another. */
  function SignupAll(env: Env, st: Store, reqs: seq<SignupRequest>): Store
    decreases |reqs|
  {
    if |reqs| == 0 then st else SignupAll(env, Signup(env, st, reqs[0]).store, reqs[1..])
  }

  /** Sequential signups never give two records one email. */
  lemma {:induction false} SequentialSignupsKeepEmailsUnique(env: Env, st: Store, reqs: seq<SignupRequest>)
    requires UniqueEmails(st)
    ensures UniqueEmails(SignupAll(env, st, reqs))
    decreases |reqs|
  {
    if |reqs| > 0 {
      SignupPreservesUniqueEmails(env, st, reqs[0]);
      SequentialSignupsKeepEmailsUnique(env, Signup(env, st, reqs[0]).store, reqs[1..]);
    }
  }

  /** Starting from an empty collection. */
  lemma SignupsFromEmptyKeepEmailsUnique(env: Env, reqs: seq<SignupRequest>)
    ensures UniqueEmails(SignupAll(env, Empty, reqs))
  {
    SequentialSignupsKeepEmailsUnique(env, Empty, reqs);
  }

  /** Update does not re-check uniqueness: giving one user another user's
      email succeeds and leaves two records with that email. */
  lemma UpdateCanDuplicateEmail(env: Env, st: Store, id: Id, other: Id, req: UpdateRequest)
    requires id in st.users && other in st.users && id != other
    requires Truthy(req.email) && req.email.value == st.users[other].email
    requires !Truthy(req.dateOfBirth) || env.parseDate(req.dateOfBirth.value).Some?
    ensures Update(env, st, id, req).envelope.status == Success
    ensures !UniqueEmails(Update(env, st, id, req).store)
  {
    var r := Update(env, st, id, req);
    assert r.store.users[id].email == r.store.users[other].email;
  }

  /** The same on a concrete collection that starts out unique. */
  lemma UpdateBreaksUniqueEmails(env: Env)
    ensures var st: Store := StoreState(map[0 := User("A", "a", "h", 0),
                                          1 := User("B", "b", "h", 0)], 2);
            var r := Update(env, st, 1, UpdateRequest(None, Some("a"), None));
            UniqueEmails(st) && r.envelope.status == Success && !UniqueEmails(r.store)
  {
    var st: Store := StoreState(map[0 := User("A", "a", "h", 0),
                                  1 := User("B", "b", "h", 0)], 2);
    assert st.users[0].email != st.users[1].email;
    UpdateCanDuplicateEmail(env, st, 1, 0, UpdateRequest(None, Some("a"), None));
  }

  /** An update that supplies no email cannot break uniqueness. */
  lemma UpdateWithoutEmailPreservesUniqueEmails(env: Env, st: Store, id: Id, req: UpdateRequest)
    requires UniqueEmails(st) && !Truthy(req.email)
    ensures UniqueEmails(Update(env, st, id, req).store)
  {
    var r := Update(env, st, id, req);
    if r.envelope.status == Success {
      forall i, j | i in r.store.users && j in r.store.users && r.store.users[i].email == r.store.users[j].email
        ensures i == j
      {
        assert st.users[i].email == r.store.users[i].email;
        assert st.users[j].email == r.store.users[j].email;
      }
    }
  }

  lemma DeletePreservesUniqueEmails(st: Store, id: Id)
    requires UniqueEmails(st)
    ensures UniqueEmails(Delete(st, id).store)
  {
  }

  // ---------------------------------------------------------------------
  // Round trips between routes
  // ---------------------------------------------------------------------

  /** Signing in with the signup credentials returns the new user's profile. */
  lemma SignupThenSignin(env: Env, st: Store, req: SignupRequest)
    requires HashSound(env)
    requires Signup(env, st, req).envelope.status == Success
    ensures var r := Signup(env, st, req);
            var id := r.envelope.data.id;
            Signin(env, r.store, SigninRequest(req.email, req.password)).envelope
              == Envelope(Success, Some(SigninSuccessful), Profile(id, Trim(req.name), Trim(req.email)))
  {
    var r := Signup(env, st, req);
    var id := r.envelope.data.id;
    var f := TrimSignup(req);
    assert f.email != [] && f.password != [];
    var found := FindByEmail(r.store, f.email);
    assert found == Some(id) by {
      assert r.store.users[id].email == f.email;
      assert forall j :: j in r.store.users && j != id ==> r.store.users[j].email != f.email by {
        forall j | j in r.store.users && j != id ensures r.store.users[j].email != f.email {
          assert st.users[j] == r.store.users[j];
        }
      }
    }
    assert env.compare(f.password, env.hash(f.password));
  }

  /** A second signup with the same trimmed email is refused. */
  lemma SignupTwiceRejected(env: Env, st: Store, first: SignupRequest, second: SignupRequest)
    requires Signup(env, st, first).envelope.status == Success
    requires PassesUpToPassword(env, second)
    requires Utf16Length(Trim(second.password)) >= MinPasswordLength
    requires Trim(second.email) == Trim(first.email)
    ensures var st' := Signup(env, st, first).store;
            Signup(env, st', second) == Fail(st', EmailAlreadyExists)
  {
    var r := Signup(env, st, first);
    DuplicateEmailRejected(env, r.store, second, r.envelope.data.id);
  }

  /** A non-blank signin for a stored email is decided by the hash of the
      holder the lookup picks (the earliest issued one; with unique emails,
      the only one): its profile when the password matches, "Incorrect
      password" otherwise. */
  lemma SigninOutcomes(env: Env, st: Store, req: SigninRequest, id: Id)
    requires !AllWhitespace(req.email) && !AllWhitespace(req.password)
    requires id in st.users && st.users[id].email == Trim(req.email)
    requires forall j :: j in st.users && st.users[j].email == Trim(req.email) ==> id <= j
    ensures var u := st.users[id];
            Signin(env, st, req).envelope ==
              if env.compare(Trim(req.password), u.password)
              then Envelope(Success, Some(SigninSuccessful), Profile(id, u.name, u.email))
              else Envelope(Failed, Some(IncorrectPassword), NoData)
  {
    AuthenticateOutcome(env, st, Trim(req.email), Trim(req.password), id);
  }

  /** `SigninOutcomes` on trimmed fields. */
  lemma AuthenticateOutcome(env: Env, st: Store, email: string, password: string, id: Id)
    requires email != [] && password != []
    requires id in st.users && st.users[id].email == email
    requires forall j :: j in st.users && st.users[j].email == email ==> id <= j
    ensures var u := st.users[id];
            Authenticate(env, st, email, password).envelope ==
              if env.compare(password, u.password)
              then Envelope(Success, Some(SigninSuccessful), Profile(id, u.name, u.email))
              else Envelope(Failed, Some(IncorrectPassword), NoData)
  {
    assert FindByEmail(st, email) == Some(id);
  }

  /** A newly signed-up user can be fetched by identity. */
  lemma SignupThenGetById(env: Env, st: Store, req: SignupRequest)
    requires Signup(env, st, req).envelope.status == Success
    ensures var r := Signup(env, st, req);
            GetById(r.store, r.envelope.data.id).envelope == Envelope(Success, None, r.envelope.data)
  {
  }

  /** Listing and fetching by identity agree on every record. */
  lemma GetAllAgreesWithGetById(st: Store, id: Id)
    ensures var all := GetAll(st).envelope.data.users;
            (id in all <==> GetById(st, id).envelope.status == Success)
            && (id in all ==> GetById(st, id).envelope.data == Record(id, all[id]))
  {
  }

  /** A deleted user is gone, and deleting again reports it missing. */
  lemma DeleteThenGetById(st: Store, id: Id)
    ensures GetById(Delete(st, id).store, id).envelope == Envelope(Failed, Some(UserNotFound), NoData)
    ensures Delete(Delete(st, id).store, id).envelope == Envelope(Failed, Some(UserNotFound), NoData)
  {
  }
}
