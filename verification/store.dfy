/**
 * The user collection as the routes see it: records keyed by identity, with
 * lookup by identity and by email. Identities are issued by a counter that
 * stays above every key in use, standing in for the database's generated ids.
 */
module UserStore {
  import opened Wrappers

  type Id = nat

  /** Date of birth as a JavaScript time value (milliseconds since the epoch). */
  type TimeValue = int

  /** A stored user. `password` holds whatever the hash function produced. */
  datatype User = User(name: string, email: string, password: string, dateOfBirth: TimeValue)

  datatype StoreState = StoreState(users: map<Id, User>, nextId: Id)

  predicate IdsBelowNext(st: StoreState) {
    forall id :: id in st.users ==> id < st.nextId
  }

  /** A store whose next identity is fresh. */
  type Store = st: StoreState | IdsBelowNext(st) witness StoreState(map[], 0)

  const Empty: Store := StoreState(map[], 0)

  /** `findById`. */
  function FindById(st: Store, id: Id): Option<User> {
    if id in st.users then Some(st.users[id]) else None
  }

  /** Scans the identities `from .. bound - 1` for the first holder of `email`. */
  function FindByEmailFrom(users: map<Id, User>, email: string, from: nat, bound: nat): (r: Option<Id>)
    ensures r.Some? ==> from <= r.value < bound && r.value in users && users[r.value].email == email
    ensures r.Some? ==> forall j :: from <= j < r.value && j in users ==> users[j].email != email
    ensures r.None? ==> forall j :: from <= j < bound && j in users ==> users[j].email != email
    decreases bound - from
  {
    if from >= bound then None
    else if from in users && users[from].email == email then Some(from)
    else FindByEmailFrom(users, email, from + 1, bound)
  }

  /** `findOne({ email })`: some user with that email, the earliest issued one
      when several share it; `None` exactly when nobody has it. */
  function FindByEmail(st: Store, email: string): (r: Option<Id>)
    ensures r.Some? ==> r.value in st.users && st.users[r.value].email == email
    ensures r.Some? ==> forall j :: j in st.users && st.users[j].email == email ==> r.value <= j
    ensures r.None? <==> forall j :: j in st.users ==> st.users[j].email != email
  {
    FindByEmailFrom(st.users, email, 0, st.nextId)
  }

  /** Records a new user under the next identity. */
  function Insert(st: Store, u: User): (r: (Store, Id))
    ensures r.1 !in st.users
    ensures r.0.users.Keys == st.users.Keys + {r.1}
    ensures r.0.users[r.1] == u
    ensures forall id :: id in st.users ==> r.0.users[id] == st.users[id]
  {
    (StoreState(st.users[st.nextId := u], st.nextId + 1), st.nextId)
  }

  /** No two records share an email. */
  predicate DistinctEmails(users: map<Id, User>) {
    forall i, j :: i in users && j in users && users[i].email == users[j].email ==> i == j
  }

  predicate UniqueEmails(st: Store) {
    DistinctEmails(st.users)
  }

  /** Adding a record whose email nobody holds keeps emails distinct. */
  lemma AddFreshEmail(users: map<Id, User>, id: Id, u: User)
    requires DistinctEmails(users)
    requires forall j :: j in users ==> users[j].email != u.email
    ensures DistinctEmails(users[id := u])
  {
    var users' := users[id := u];
    forall i, j | i in users' && j in users' && users'[i].email == users'[j].email
      ensures i == j
    {
      if i != id && j != id {
        assert users[i].email == users[j].email;
      }
    }
  }
}
