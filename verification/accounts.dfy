/**
 * Self-service registration. Validation of the body happens first (a 422),
 * then the handler's own checks: the role, then the email. The users.name
 * column is narrower than the schema's name bound, so a name the schema
 * accepts can still be refused by the database at commit.
 */
module Accounts {
  import opened Outcomes
  import opened Models
  import opened Seqs
  import opened Schemas

  /** The roles a user may pick for themself when registering. */
  const SelfServiceRoles: set<Role> := {Author, Member}

  /** Some stored user has email `email`. */
  ghost predicate EmailInUse(users: map<Id, User>, email: string) {
    exists k :: k in users && users[k].email == email
  }

  /** The stored users with email `email`. */
  function UsersWithEmail(s: Store, email: string): (rs: seq<User>)
    requires Keyed(s)
    ensures rs == [] <==> !EmailInUse(s.users, email)
  {
    var rs := Filter(AllUsers(s), (u: User) => u.email == email);
    assert EmailInUse(s.users, email) ==> rs != [] by {
      if EmailInUse(s.users, email) {
        var k :| k in s.users && s.users[k].email == email;
        assert s.users[k] in rs;
      }
    }
    rs
  }

  /**
   * POST /register, after validation: an author or member account with a fresh
   * email is created, its password stored as `hash` of it and its preference
   * left at the default. `hash` stands for the password hashing routine. The
   * name goes through the users.name column: trailing spaces beyond its width
   * are cut, any other excess makes the commit fail after the id was drawn.
   */
  function RegisterUser(s: Store, payload: UserRegister, hash: string -> string, now: Time): (r: Handled<User>)
    requires Valid(s)
    ensures payload.role !in SelfServiceRoles ==> r == Handled(s, Failure(Forbidden))
    ensures payload.role in SelfServiceRoles && EmailInUse(s.users, payload.email) ==> r == Handled(s, Failure(BadRequest))
    ensures r.response.Success? <==>
      payload.role in SelfServiceRoles && !EmailInUse(s.users, payload.email) && Coerce(payload.name, NameWidth).Some?
    ensures r.response == Failure(InternalError) <==>
      payload.role in SelfServiceRoles && !EmailInUse(s.users, payload.email) && Coerce(payload.name, NameWidth).None?
    ensures r.response == Failure(InternalError) ==> r.store == s.(nextUserId := s.nextUserId + 1)
    ensures r.response.Success? ==>
      r.response.value == NewUser(s.nextUserId, Coerce(payload.name, NameWidth).value, payload.email,
                                  hash(payload.password), payload.role, payload.bio, payload.birthdate, now)
    ensures r.response.Success? ==> r.response.value.id !in s.users
    ensures r.response.Success? ==>
      r.store == s.(users := s.users[r.response.value.id := r.response.value], nextUserId := s.nextUserId + 1)
    ensures Valid(r.store) && EmailsUnique(r.store.users)
  {
    if payload.role !in SelfServiceRoles then Handled(s, Failure(Forbidden))
    else if UsersWithEmail(s, payload.email) != [] then Handled(s, Failure(BadRequest))
    else match Coerce(payload.name, NameWidth)
      case None => Handled(s.(nextUserId := s.nextUserId + 1), Failure(InternalError))
      case Some(name) =>
        var u := NewUser(s.nextUserId, name, payload.email, hash(payload.password),
                         payload.role, payload.bio, payload.birthdate, now);
        var t := s.(users := s.users[u.id := u], nextUserId := s.nextUserId + 1);
        assert EmailsUnique(t.users) by {
          forall a, b | a in t.users && b in t.users && t.users[a].email == t.users[b].email
            ensures a == b
          {
            if a != b && (a == u.id || b == u.id) {
              NoSuchEmail(s.users, u.email, if a == u.id then b else a);
              assert false;
            }
          }
        }
        Handled(t, Success(u))
  }

  /** No stored user carries an email that is not in use. */
  lemma NoSuchEmail(users: map<Id, User>, email: string, k: Id)
    requires !EmailInUse(users, email) && k in users
    ensures users[k].email != email
  {
  }

  /**
   * The whole endpoint as written: schema validation, then the handler. The
   * validator's normalized address is the one checked and stored.
   */
  function Register(s: Store, raw: RawRegistration, normalizeEmail: string -> Option<string>,
                    hash: string -> string, now: Time): (r: Handled<User>)
    requires Valid(s)
    ensures ValidateRegistration(raw, normalizeEmail).Failure? ==> r == Handled(s, Failure(Unprocessable))
    ensures ValidateRegistration(raw, normalizeEmail).Success? ==>
      r == RegisterUser(s, ValidateRegistration(raw, normalizeEmail).value, hash, now)
    ensures Valid(r.store)
    ensures r.response.Success? ==>
      && Some(r.response.value.name) == Coerce(raw.name, NameWidth)
      && Some(r.response.value.email) == normalizeEmail(raw.email)
  {
    match ValidateRegistration(raw, normalizeEmail)
    case Failure(e) => Handled(s, Failure(e))
    case Success(payload) => RegisterUser(s, payload, hash, now)
  }

  /**
   * The endpoint with the schema's name bound lowered to the column width: a
   * request is either refused for a reason the client can act on, leaving the
   * store as it was, or stored with its name unchanged.
   */
  function RegisterFitted(s: Store, raw: RawRegistration, normalizeEmail: string -> Option<string>,
                          hash: string -> string, now: Time): (r: Handled<User>)
    requires Valid(s)
    ensures r.response.Success? <==>
      && ValidNameWithin(raw.name, NameWidth) && normalizeEmail(raw.email).Some? && ValidPassword(raw.password)
      && ParseRole(raw.role).Some? && ParseRole(raw.role).value in SelfServiceRoles
      && !EmailInUse(s.users, normalizeEmail(raw.email).value)
    ensures r.response.Failure? ==> r.response.error in {Unprocessable, Forbidden, BadRequest} && r.store == s
    ensures Valid(r.store)
    ensures r.response.Success? ==>
      && r.response.value.name == raw.name
      && Some(r.response.value.email) == normalizeEmail(raw.email)
  {
    match ValidateRegistrationWithin(raw, normalizeEmail, NameWidth)
    case Failure(e) => Handled(s, Failure(e))
    case Success(payload) => RegisterUser(s, payload, hash, now)
  }

  /** Registering the same email a second time is refused and adds nobody. */
  lemma RegisterTwice(s: Store, payload: UserRegister, hash: string -> string, now: Time, later: Time)
    requires Valid(s) && RegisterUser(s, payload, hash, now).response.Success?
    ensures var t := RegisterUser(s, payload, hash, now).store;
      RegisterUser(t, payload, hash, later) == Handled(t, Failure(BadRequest))
  {
    var r := RegisterUser(s, payload, hash, now);
    assert r.store.users[r.response.value.id].email == payload.email;
  }

  /**
   * Two addresses the validator normalizes alike are one account: once the
   * first is registered, a valid registration with the second is refused.
   */
  lemma RegisterSameAddress(s: Store, first: RawRegistration, second: RawRegistration,
                            normalizeEmail: string -> Option<string>, hash: string -> string, now: Time, later: Time)
    requires Valid(s) && Register(s, first, normalizeEmail, hash, now).response.Success?
    requires ValidateRegistration(second, normalizeEmail).Success?
    requires ParseRole(second.role).value in SelfServiceRoles
    requires normalizeEmail(second.email) == normalizeEmail(first.email)
    ensures var t := Register(s, first, normalizeEmail, hash, now).store;
      Register(t, second, normalizeEmail, hash, later) == Handled(t, Failure(BadRequest))
  {
    var r := Register(s, first, normalizeEmail, hash, now);
    assert r.store.users[r.response.value.id].email == normalizeEmail(second.email).value;
  }

  /** A name of 61 letters: within the schema's bound, wider than the column. */
  const LongName: string := seq(NameWidth + 1, _ => 'a')

  /** A name exactly as wide as the column. */
  const FullName: string := seq(NameWidth, _ => 'a')

  /**
   * As written, a registration the schema accepts fails with an unhandled
   * error when the name is longer than the column, even on an empty database;
   * the failed insert still uses up the first user id.
   */
  lemma AsWrittenLongNameFails(normalizeEmail: string -> Option<string>, hash: string -> string, now: Time)
    requires normalizeEmail("reader@example.org").Some?
    ensures var raw := RawRegistration(LongName, "reader@example.org", "password1", "Member", None, None);
      && ValidateRegistration(raw, normalizeEmail).Success?
      && Register(EmptyStore(), raw, normalizeEmail, hash, now)
         == Handled(EmptyStore().(nextUserId := 2), Failure(InternalError))
  {
    assert |LongName| == 61 && LongName[NameWidth] == 'a';
    assert !EmailInUse(EmptyStore().users, normalizeEmail("reader@example.org").value);
  }

  /** A name that overflows the column with trailing spaces only is stored cut to the width. */
  lemma PaddedNameCut(normalizeEmail: string -> Option<string>, hash: string -> string, now: Time)
    requires normalizeEmail("reader@example.org").Some?
    ensures var raw := RawRegistration(FullName + "  ", "reader@example.org", "password1", "Member", None, None);
      var r := Register(EmptyStore(), raw, normalizeEmail, hash, now);
      r.response.Success? && r.response.value.name == FullName
  {
    var padded := FullName + "  ";
    assert |padded| == 62 && padded[60] == ' ' && padded[61] == ' ';
    assert padded[..NameWidth] == FullName;
    assert !EmailInUse(EmptyStore().users, normalizeEmail("reader@example.org").value);
  }
}
