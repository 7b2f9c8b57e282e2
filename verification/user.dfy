/**
  The user record: its field validators (the e-mail and phone patterns written
  out as character predicates), the role enumeration, the name helpers, the
  pre-save hook that lower-cases the e-mail, and the JSON view that hides the
  password.
*/
module Users {
  import opened Wrappers
  import opened Text
  import opened Documents

  // ---------------------------------------------------------------------------
  // E-mail pattern ^[^\s@]+@[^\s@]+\.[^\s@]+$
  // ---------------------------------------------------------------------------

  /** The character class `[^\s@]`. */
  predicate IsPlain(c: char) {
    !IsWhitespace(c) && c != '@'
  }

  predicate AllPlain(s: string) {
    forall i :: 0 <= i < |s| ==> IsPlain(s[i])
  }

  /** Every character except the one at `k` is in `[^\s@]`. */
  predicate PlainExcept(s: string, k: int) {
    forall i :: 0 <= i < |s| && i != k ==> IsPlain(s[i])
  }

  /** Some `.` lies strictly between position `k + 1` and the last position. */
  predicate HasDotAfter(s: string, k: nat) {
    exists j :: k + 1 < j < |s| - 1 && s[j] == '.'
  }

  /**
    The pattern matches with its `@` at position `k`: text before it, every
    other character in `[^\s@]`, and a `.` with text on both sides after it.
  */
  predicate EmailAt(s: string, k: nat) {
    0 < k < |s| && s[k] == '@' && PlainExcept(s, k) && HasDotAfter(s, k)
  }

  /** The e-mail validator: the pattern matches with its `@` somewhere. */
  predicate IsValidEmail(s: string) {
    exists k :: 0 < k < |s| && EmailAt(s, k)
  }

  /** The pattern read as a concatenation: `local @ domain . tld`, all three non-empty and plain. */
  ghost predicate EmailPattern(s: string) {
    exists local: string, domain: string, tld: string ::
      && s == local + "@" + domain + "." + tld
      && |local| > 0 && |domain| > 0 && |tld| > 0
      && AllPlain(local) && AllPlain(domain) && AllPlain(tld)
  }

  /** Splitting an accepted address at its `@` and at a later `.` gives the three parts of the pattern. */
  lemma ValidEmailSplits(s: string, k: nat, j: int)
    requires EmailAt(s, k) && k + 1 < j < |s| - 1 && s[j] == '.'
    ensures EmailPattern(s)
  {
    var local, domain, tld := s[..k], s[k + 1..j], s[j + 1..];
    assert s == local + "@" + domain + "." + tld;
    assert AllPlain(local) by {
      forall i | 0 <= i < |local| ensures IsPlain(local[i]) { assert local[i] == s[i]; }
    }
    assert AllPlain(domain) by {
      forall i | 0 <= i < |domain| ensures IsPlain(domain[i]) { assert domain[i] == s[k + 1 + i]; }
    }
    assert AllPlain(tld) by {
      forall i | 0 <= i < |tld| ensures IsPlain(tld[i]) { assert tld[i] == s[j + 1 + i]; }
    }
  }

  /** Joining the three parts of the pattern gives an address the validator accepts. */
  lemma PatternIsValidEmail(local: string, domain: string, tld: string)
    requires |local| > 0 && |domain| > 0 && |tld| > 0
    requires AllPlain(local) && AllPlain(domain) && AllPlain(tld)
    ensures IsValidEmail(local + "@" + domain + "." + tld)
  {
    var s := local + "@" + domain + "." + tld;
    var k, j := |local|, |local| + 1 + |domain|;
    assert s[k] == '@' && s[j] == '.';
    forall i | 0 <= i < |s| && i != k ensures IsPlain(s[i]) {
      if i < k { assert s[i] == local[i]; }
      else if i < j { assert s[i] == domain[i - k - 1]; }
      else if i > j { assert s[i] == tld[i - j - 1]; }
    }
    assert EmailAt(s, k);
  }

  /** The character-level validator accepts exactly the strings the pattern describes. */
  lemma EmailValidatorMatchesPattern(s: string)
    ensures IsValidEmail(s) <==> EmailPattern(s)
  {
    if IsValidEmail(s) {
      var k: nat :| 0 < k && EmailAt(s, k);
      assert EmailAt(s, k);
      var j :| k + 1 < j < |s| - 1 && s[j] == '.';
      ValidEmailSplits(s, k, j);
    }
    if EmailPattern(s) {
      var local: string, domain: string, tld: string :|
        && s == local + "@" + domain + "." + tld
        && |local| > 0 && |domain| > 0 && |tld| > 0
        && AllPlain(local) && AllPlain(domain) && AllPlain(tld);
      PatternIsValidEmail(local, domain, tld);
    }
  }

  /**
    What an accepted e-mail looks like: no whitespace anywhere, exactly one
    `@` with a non-empty part before it, and after it a `.` with text on both
    sides.
  */
  lemma AcceptedEmailShape(s: string)
    requires IsValidEmail(s)
    ensures forall i :: 0 <= i < |s| ==> !IsWhitespace(s[i])
    ensures exists k ::
      && 0 < k < |s| && s[k] == '@'
      && (forall i :: 0 <= i < |s| && s[i] == '@' ==> i == k)
      && (exists j :: k + 1 < j < |s| - 1 && s[j] == '.')
  {
    var k: nat :| 0 < k && EmailAt(s, k);
    assert EmailAt(s, k);
    forall i | 0 <= i < |s| ensures !IsWhitespace(s[i]) {
      if i != k { assert IsPlain(s[i]); }
    }
    assert HasDotAfter(s, k);
  }

  /** Lower-casing keeps the match at every `@` position. */
  lemma LowerKeepsEmailAt(s: string, k: nat)
    ensures EmailAt(Lower(s), k) <==> EmailAt(s, k)
  {
    var l := Lower(s);
    assert forall i :: 0 <= i < |s| ==> (IsPlain(l[i]) <==> IsPlain(s[i]));
    assert forall i :: 0 <= i < |s| ==> (l[i] == '@' <==> s[i] == '@');
    assert forall i :: 0 <= i < |s| ==> (l[i] == '.' <==> s[i] == '.');
    if HasDotAfter(s, k) {
      var j :| k + 1 < j < |s| - 1 && s[j] == '.';
      assert l[j] == '.';
    }
    if HasDotAfter(l, k) {
      var j :| k + 1 < j < |l| - 1 && l[j] == '.';
      assert s[j] == '.';
    }
  }

  /** Lower-casing neither makes nor breaks an e-mail address. */
  lemma LowerKeepsEmailValidity(s: string)
    ensures IsValidEmail(Lower(s)) <==> IsValidEmail(s)
  {
    if IsValidEmail(s) {
      var k: nat :| 0 < k && EmailAt(s, k);
      LowerKeepsEmailAt(s, k);
    }
    if IsValidEmail(Lower(s)) {
      var k: nat :| 0 < k && EmailAt(Lower(s), k);
      LowerKeepsEmailAt(s, k);
    }
  }

  // ---------------------------------------------------------------------------
  // Other field validators
  // ---------------------------------------------------------------------------

  /** `phone` matches `^[0-9]{10}$`. */
  predicate ValidPhone(s: string) {
    IsDigitString(s, 10)
  }

  /** `role` is one of the enum values. */
  predicate ValidRole(r: string) {
    r == "admin" || r == "user"
  }

  /** `password` has `minlength: 8`. */
  predicate ValidPassword(p: string) {
    |p| >= 8
  }

  /** `firstName` and `lastName` have `trim: true` and `minlength: 2`. */
  predicate ValidName(raw: string) {
    |Trim(raw)| >= 2
  }

  /** A name is rejected exactly when fewer than two of its characters are non-whitespace at distinct positions. */
  lemma NameRejectedIffShort(raw: string)
    ensures !ValidName(raw) <==>
      !exists i, j :: 0 <= i < j < |raw| && !IsWhitespace(raw[i]) && !IsWhitespace(raw[j])
  {
    TrimmedLengthAtLeastTwo(raw);
  }

  // ---------------------------------------------------------------------------
  // Records
  // ---------------------------------------------------------------------------

  /** A user document's fields after the setters ran. */
  datatype UserRecord = UserRecord(
    id: nat,
    email: string,
    password: string,
    role: string,
    firstName: string,
    lastName: string,
    phone: string)

  /** The fields of a new user as given; a missing text field is the empty text. */
  datatype UserDraft = UserDraft(
    email: string,
    password: string,
    role: Option<string>,
    firstName: string,
    lastName: string,
    phone: string)

  /** An unset role takes the default `user`. */
  function RoleOrDefault(r: Option<string>): (role: string)
    ensures r.None? ==> role == "user"
    ensures r.Some? ==> role == r.value
  {
    if r.None? then "user" else r.value
  }

  /** A new document: `email` trimmed and lower-cased, the names trimmed, the role defaulted. */
  function NewUser(d: UserDraft, id: nat): UserRecord {
    UserRecord(id, Lower(Trim(d.email)), d.password, RoleOrDefault(d.role),
               Trim(d.firstName), Trim(d.lastName), d.phone)
  }

  /** Schema validation of a document (the `required` checks included). */
  predicate IsValid(u: UserRecord) {
    && IsValidEmail(u.email)
    && ValidPassword(u.password)
    && ValidRole(u.role)
    && |u.firstName| >= 2
    && |u.lastName| >= 2
    && ValidPhone(u.phone)
  }

  /**
    A new document passes validation exactly when its raw fields do: the
    trimmed and lower-cased e-mail matches the pattern, the names have two
    characters after trimming, the role is an enum value or unset.
  */
  lemma NewUserValidity(d: UserDraft, id: nat)
    ensures IsValid(NewUser(d, id)) <==>
      && IsValidEmail(Trim(d.email))
      && ValidPassword(d.password)
      && (d.role.None? || ValidRole(d.role.value))
      && ValidName(d.firstName) && ValidName(d.lastName)
      && ValidPhone(d.phone)
  {
    LowerKeepsEmailValidity(Trim(d.email));
  }

  // ---------------------------------------------------------------------------
  // Instance helpers
  // ---------------------------------------------------------------------------

  /** `isAdmin()`. */
  predicate IsAdmin(u: UserRecord) {
    u.role == "admin"
  }

  /** `getFullName()`: first name, one space, last name. */
  function FullName(u: UserRecord): string {
    u.firstName + " " + u.lastName
  }

  /**
    A new user is an admin exactly when the request asked for the `admin`
    role; when the stored role passes the enum, every other user has the
    default role `user`.
  */
  lemma AdminOnlyOnRequest(d: UserDraft, id: nat)
    ensures IsAdmin(NewUser(d, id)) <==> d.role == Some("admin")
    ensures ValidRole(NewUser(d, id).role) ==> (!IsAdmin(NewUser(d, id)) <==> NewUser(d, id).role == "user")
  {
  }

  /** A user created without a role is a plain user. */
  lemma DefaultRoleIsNotAdmin(d: UserDraft, id: nat)
    requires d.role.None?
    ensures ValidRole(NewUser(d, id).role) && !IsAdmin(NewUser(d, id))
  {
  }

  /**
    The full name reads back as first name, one space, last name; built from
    trimmed non-empty names it has no surrounding whitespace, and on a valid
    record it has at least five characters.
  */
  lemma FullNameShape(u: UserRecord)
    ensures var n := FullName(u);
      && |n| == |u.firstName| + 1 + |u.lastName|
      && n[..|u.firstName|] == u.firstName
      && n[|u.firstName|] == ' '
      && n[|u.firstName| + 1..] == u.lastName
      && (u.firstName != [] && u.lastName != [] && IsTrimmed(u.firstName) && IsTrimmed(u.lastName) ==> IsTrimmed(n))
      && (IsValid(u) ==> |n| >= 5)
  {
    var n := FullName(u);
    assert n[..|u.firstName|] == u.firstName;
    assert n[|u.firstName| + 1..] == u.lastName;
    if u.firstName != [] && u.lastName != [] {
      assert n[0] == u.firstName[0];
      assert n[|n| - 1] == u.lastName[|u.lastName| - 1];
    }
  }

  /** A new user's names are stored trimmed. */
  lemma NewUserNamesTrimmed(d: UserDraft, id: nat)
    ensures IsTrimmed(NewUser(d, id).firstName) && IsTrimmed(NewUser(d, id).lastName)
  {
  }

  // ---------------------------------------------------------------------------
  // The document and its pre-save hook
  // ---------------------------------------------------------------------------

  datatype HookOutcome = Proceed | Abort(message: string)

  /** A user document: its fields and the change tracking the pre-save hook consults. */
  class UserDocument {
    var user: UserRecord
    var isNew: bool
    var emailModified: bool

    /** `new User(data)`: the setters run and the document is new. */
    constructor (d: UserDraft, id: nat)
      ensures user == NewUser(d, id) && isNew && emailModified
    {
      user := NewUser(d, id);
      isNew := true;
      emailModified := true;
    }

    /**
      The pre-save hook: nothing to do unless the document is new or its
      e-mail changed; otherwise an e-mail that fails the pattern aborts the
      save, and an accepted one is lower-cased. The hook leaves the stored
      e-mail valid and in lower case, so running it again changes nothing.
    */
    method PreSave() returns (r: HookOutcome)
      modifies this
      ensures isNew == old(isNew) && emailModified == old(emailModified)
      ensures !old(isNew) && !old(emailModified) ==> r == Proceed && user == old(user)
      ensures (old(isNew) || old(emailModified)) && !IsValidEmail(old(user.email)) ==>
        r == Abort("Invalid email format") && user == old(user)
      ensures (old(isNew) || old(emailModified)) && IsValidEmail(old(user.email)) ==>
        && r == Proceed
        && user == old(user).(email := Lower(old(user.email)))
        && IsValidEmail(user.email)
        && Lower(user.email) == user.email
    {
      if !emailModified && !isNew {
        return Proceed;
      }
      if !IsValidEmail(user.email) {
        return Abort("Invalid email format");
      }
      LowerKeepsEmailValidity(user.email);
      LowerIdempotent(user.email);
      user := user.(email := Lower(user.email));
      r := Proceed;
    }
  }

  // ---------------------------------------------------------------------------
  // JSON view
  // ---------------------------------------------------------------------------

  /** The keys of a user's plain object. */
  datatype Path =
    | IdPath | EmailPath | PasswordPath | RolePath | FirstNamePath | LastNamePath | PhonePath | VersionPath
  {
    /** The key as it appears in the document. */
    function Key(): string {
      match this
      case IdPath => "_id"
      case EmailPath => "email"
      case PasswordPath => "password"
      case RolePath => "role"
      case FirstNamePath => "firstName"
      case LastNamePath => "lastName"
      case PhonePath => "phone"
      case VersionPath => "__v"
    }
  }

  /** Distinct paths are distinct keys, so a map over paths is a plain object with those keys. */
  lemma KeysDistinct(p: Path, q: Path)
    ensures p.Key() == q.Key() <==> p == q
  {
  }

  type UserObject = map<Path, Value>

  /** The plain object of a user document. */
  function ToObject(u: UserRecord): UserObject {
    map[
      IdPath := Ref(u.id),
      EmailPath := Str(u.email),
      PasswordPath := Str(u.password),
      RolePath := Str(u.role),
      FirstNamePath := Str(u.firstName),
      LastNamePath := Str(u.lastName),
      PhonePath := Str(u.phone),
      VersionPath := Num(0)]
  }

  /** The schema's `toJSON` transform: `password` and `__v` are deleted, everything else is kept. */
  function ToJson(ret: UserObject): (r: UserObject)
    ensures PasswordPath !in r && VersionPath !in r
    ensures forall p :: p in ret && p != PasswordPath && p != VersionPath ==> p in r && r[p] == ret[p]
    ensures forall p :: p in r ==> p in ret
  {
    ret - {PasswordPath} - {VersionPath}
  }

  /** What a client may see of a user. */
  datatype PublicUser = PublicUser(id: nat, email: string, role: string, firstName: string, lastName: string, phone: string)

  /** Reads the public part of a user back from its JSON form. */
  function FromJson(o: UserObject): Option<PublicUser> {
    if && IdPath in o && o[IdPath].Ref?
       && EmailPath in o && o[EmailPath].Str?
       && RolePath in o && o[RolePath].Str?
       && FirstNamePath in o && o[FirstNamePath].Str?
       && LastNamePath in o && o[LastNamePath].Str?
       && PhonePath in o && o[PhonePath].Str?
    then
      Some(PublicUser(o[IdPath].id, o[EmailPath].text, o[RolePath].text,
                      o[FirstNamePath].text, o[LastNamePath].text, o[PhonePath].text))
    else None
  }

  /** The JSON of a user never shows the password and keeps every other field. */
  lemma JsonHidesOnlyPassword(u: UserRecord)
    ensures PasswordPath !in ToJson(ToObject(u))
    ensures FromJson(ToJson(ToObject(u))) ==
      Some(PublicUser(u.id, u.email, u.role, u.firstName, u.lastName, u.phone))
  {
    var j := ToJson(ToObject(u));
    assert IdPath in j && EmailPath in j && RolePath in j;
    assert FirstNamePath in j && LastNamePath in j && PhonePath in j;
  }
}
