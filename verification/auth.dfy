/**
  The administrator login route: a table from e-mail to password kept in
  memory, where a first login with an unknown e-mail registers it and every
  later login with that e-mail is checked against the stored password.
*/
module AuthRoutes {
  import opened Wrappers

  /** The JSON body the route answers with. */
  datatype Response = Response(success: bool, message: string)

  const MissingCredentials := Response(false, "Email and password required")
  const LoginSuccessful := Response(true, "Login successful")
  const IncorrectPassword := Response(false, "Incorrect password")
  const Registered := Response(true, "New user registered and logged in")

  /** A request-body field is falsy when it is absent or the empty string. */
  predicate Falsy(v: Option<string>) {
    v.None? || v.value == ""
  }

  /** Every stored password is non-empty, so a stored entry is always truthy. */
  predicate NoEmptyPasswords(users: map<string, string>) {
    forall e :: e in users ==> users[e] != ""
  }

  // ---------------------------------------------------------------------------
  // The handler on its own table
  // ---------------------------------------------------------------------------

  /** One request to the route: its answer and the table afterwards. */
  function LoginStep(users: map<string, string>, email: Option<string>, password: Option<string>)
    : (Response, map<string, string>)
  {
    if Falsy(email) || Falsy(password) then (MissingCredentials, users)
    else if email.value in users then
      (if users[email.value] == password.value then LoginSuccessful else IncorrectPassword, users)
    else (Registered, users[email.value := password.value])
  }

  /**
    The four outcomes of one request: missing credentials fail and change
    nothing; a known e-mail succeeds exactly with its stored password and
    changes nothing; an unknown e-mail is registered with the given password
    and succeeds.
  */
  lemma LoginStepOutcomes(users: map<string, string>, email: Option<string>, password: Option<string>)
    ensures var (r, after) := LoginStep(users, email, password);
      && (Falsy(email) || Falsy(password) ==> r == MissingCredentials && after == users)
      && (!Falsy(email) && !Falsy(password) && email.value in users ==>
            after == users && (r.success <==> users[email.value] == password.value))
      && (!Falsy(email) && !Falsy(password) && email.value !in users ==>
            r == Registered && after == users[email.value := password.value])
  {
  }

  /** A request never changes a stored password nor touches another e-mail's entry, and stores no empty password. */
  lemma LoginStepKeepsTable(users: map<string, string>, email: Option<string>, password: Option<string>)
    requires NoEmptyPasswords(users)
    ensures var after := LoginStep(users, email, password).1;
      && NoEmptyPasswords(after)
      && (forall e :: e in users ==> e in after && after[e] == users[e])
      && (forall e :: e in after && e !in users ==> email == Some(e))
  {
  }

  /** A request to the route. */
  datatype Request = Request(email: Option<string>, password: Option<string>)

  /** The table after a sequence of requests, in order. */
  function Run(users: map<string, string>, requests: seq<Request>): map<string, string>
    decreases |requests|
  {
    if requests == [] then users
    else Run(LoginStep(users, requests[0].email, requests[0].password).1, requests[1..])
  }

  /**
    Once an e-mail is registered its password never changes, whatever
    requests follow, and no empty password is ever stored.
  */
  lemma {:induction false} RunKeepsPasswords(users: map<string, string>, requests: seq<Request>)
    requires NoEmptyPasswords(users)
    ensures NoEmptyPasswords(Run(users, requests))
    ensures forall e :: e in users ==> e in Run(users, requests) && Run(users, requests)[e] == users[e]
    decreases |requests|
  {
    if requests != [] {
      var next := LoginStep(users, requests[0].email, requests[0].password).1;
      LoginStepKeepsTable(users, requests[0].email, requests[0].password);
      RunKeepsPasswords(next, requests[1..]);
    }
  }

  /**
    After any sequence of requests, a login with a registered e-mail succeeds
    exactly with the password of its first registration.
  */
  lemma {:induction false} FirstPasswordWins(
    users: map<string, string>, email: string, password: string, requests: seq<Request>, attempt: string)
    requires NoEmptyPasswords(users) && email != "" && password != "" && attempt != ""
    requires email !in users
    ensures var table := Run(LoginStep(users, Some(email), Some(password)).1, requests);
      LoginStep(table, Some(email), Some(attempt)).0.success <==> attempt == password
  {
    var registered := LoginStep(users, Some(email), Some(password)).1;
    assert registered[email] == password;
    RunKeepsPasswords(registered, requests);
  }

  // ---------------------------------------------------------------------------
  // The route as a class around its module-level table
  // ---------------------------------------------------------------------------

  class AdminLogin {
    var users: map<string, string>

    ghost predicate Valid()
      reads this
    {
      NoEmptyPasswords(users)
    }

    constructor ()
      ensures Valid() && users == map[]
    {
      users := map[];
    }

    /**
      `POST /admin-login`: missing credentials fail; a known e-mail is
      checked against its stored password; an unknown e-mail is registered
      with the given password. Stored passwords never change and no other
      entry is touched.
    */
    method Login(email: Option<string>, password: Option<string>) returns (r: Response)
      requires Valid()
      modifies this
      ensures Valid()
      ensures (r, users) == LoginStep(old(users), email, password)
      ensures forall e :: e in old(users) ==> e in users && users[e] == old(users)[e]
      ensures forall e :: e in users && e !in old(users) ==> email == Some(e)
      ensures r.success <==>
        !Falsy(email) && !Falsy(password) &&
        (email.value !in old(users) || old(users)[email.value] == password.value)
    {
      LoginStepKeepsTable(users, email, password);
      if email.None? || email.value == "" || password.None? || password.value == "" {
        return MissingCredentials;
      }
      var e, p := email.value, password.value;
      if e in users {
        if users[e] == p {
          return LoginSuccessful;
        } else {
          return IncorrectPassword;
        }
      }
      users := users[e := p];
      r := Registered;
    }
  }

  // ---------------------------------------------------------------------------
  // The lookup as written: a plain JavaScript object
  // ---------------------------------------------------------------------------

  /** The properties every plain object inherits from `Object.prototype`. */
  const PrototypeMembers: set<string> := {
    "constructor", "__proto__", "hasOwnProperty", "isPrototypeOf", "propertyIsEnumerable",
    "toLocaleString", "toString", "valueOf",
    "__defineGetter__", "__defineSetter__", "__lookupGetter__", "__lookupSetter__"}

  /** What `users[key]` evaluates to on a plain object. */
  datatype Property = Own(password: string) | Inherited | Undefined {
    /** JavaScript truthiness of the property value (inherited members are objects or functions). */
    predicate Truthy() {
      match this
      case Own(p) => p != ""
      case Inherited => true
      case Undefined => false
    }
  }

  function Lookup(users: map<string, string>, key: string): Property {
    if key in users then Own(users[key])
    else if key in PrototypeMembers then Inherited
    else Undefined
  }

  /** The handler exactly as written, on a plain object used as the table. */
  function LoginAsWritten(users: map<string, string>, email: Option<string>, password: Option<string>)
    : (Response, map<string, string>)
  {
    if Falsy(email) || Falsy(password) then (MissingCredentials, users)
    else
      var v := Lookup(users, email.value);
      if v.Truthy() then
        (if v == Own(password.value) then LoginSuccessful else IncorrectPassword, users)
      else (Registered, users[email.value := password.value])
  }

  /**
    The handler as written can never register an e-mail that names an
    inherited member: `constructor` gets "Incorrect password" on an empty
    table, where the registration the route promises was due.
  */
  lemma PrototypeEmailNeverRegisters(users: map<string, string>, email: string, password: string)
    requires email in PrototypeMembers && email !in users && password != ""
    ensures LoginAsWritten(users, Some(email), Some(password)) == (IncorrectPassword, users)
    ensures LoginStep(users, Some(email), Some(password)) == (Registered, users[email := password])
  {
  }

  /** The concrete case: `constructor` with any password on a fresh table. */
  lemma ConstructorEmailCounterexample()
    ensures LoginAsWritten(map[], Some("constructor"), Some("secret")).0 == IncorrectPassword
    ensures LoginStep(map[], Some("constructor"), Some("secret")).0 == Registered
  {
    PrototypeEmailNeverRegisters(map[], "constructor", "secret");
  }

  /** For every other e-mail the handler as written and the corrected one agree. */
  lemma AsWrittenAgreesElsewhere(users: map<string, string>, email: Option<string>, password: Option<string>)
    requires NoEmptyPasswords(users)
    requires email.Some? ==> email.value !in PrototypeMembers || email.value in users
    ensures LoginAsWritten(users, email, password) == LoginStep(users, email, password)
  {
  }
}
