/**
 * Request and token schemas: the field constraints a request body or a token
 * payload must meet before an endpoint sees it, and the string values of the
 * enumerations on the wire.
 */
module Schemas {
  import opened Outcomes
  import opened Models

  const NameMinLength := 1
  const NameMaxLength := 120
  const PasswordMinLength := 8
  const PasswordMaxLength := 128

  /** A name of acceptable length when names may be at most `maxLength` long. */
  predicate ValidNameWithin(name: string, maxLength: int) {
    NameMinLength <= |name| <= maxLength
  }

  predicate ValidName(name: string) {
    ValidNameWithin(name, NameMaxLength)
  }

  predicate ValidPassword(password: string) {
    PasswordMinLength <= |password| <= PasswordMaxLength
  }

  function RoleValue(r: Role): string {
    match r
    case Librarian => "Librarian"
    case Author => "Author"
    case Member => "Member"
  }

  /** The role whose wire value is `s`, if any. */
  function ParseRole(s: string): (r: Option<Role>)
    ensures forall x: Role :: r == Some(x) <==> RoleValue(x) == s
  {
    if s == "Librarian" then Some(Librarian)
    else if s == "Author" then Some(Author)
    else if s == "Member" then Some(Member)
    else None
  }

  function PreferenceValue(p: NotificationPreference): string {
    match p
    case Websocket => "websocket"
    case Email => "email"
    case All => "all"
  }

  /** The preference whose wire value is `s`, if any. */
  function ParsePreference(s: string): (r: Option<NotificationPreference>)
    ensures forall x: NotificationPreference :: r == Some(x) <==> PreferenceValue(x) == s
  {
    if s == "websocket" then Some(Websocket)
    else if s == "email" then Some(Email)
    else if s == "all" then Some(All)
    else None
  }

  /** The wire value of a book status; note the lower-case value of Overdue. */
  function BookStatusValue(b: BookStatus): string {
    match b
    case Available => "Available"
    case Borrowed => "Borrowed"
    case Overdue => "overdue"
  }

  /** The book status whose wire value is `s`, if any. */
  function ParseBookStatus(s: string): (r: Option<BookStatus>)
    ensures forall x: BookStatus :: r == Some(x) <==> BookStatusValue(x) == s
  {
    if s == "Available" then Some(Available)
    else if s == "Borrowed" then Some(Borrowed)
    else if s == "overdue" then Some(BookStatus.Overdue)
    else None
  }

  /** A preference update body must name exactly one known preference. */
  function ValidatePreferencesUpdate(raw: string): (r: Response<NotificationPreference>)
    ensures r.Success? <==> raw in {"websocket", "email", "all"}
    ensures r.Success? ==> PreferenceValue(r.value) == raw
    ensures r.Failure? ==> r.error == Unprocessable
  {
    match ParsePreference(raw)
    case Some(p) => Success(p)
    case None => Failure(Unprocessable)
  }

  /** A registration body as received. */
  datatype RawRegistration = RawRegistration(
    name: string, email: string, password: string, role: string,
    bio: Option<string>, birthdate: Option<Day>)

  /** A registration body that passed validation. */
  datatype UserRegister = UserRegister(
    name: string, email: string, password: string, role: Role,
    bio: Option<string>, birthdate: Option<Day>)

  /**
   * Validates a registration body against a name length bound of `nameMax`.
   * `normalizeEmail` stands for the email validator: it refuses an address
   * (None) or answers its normalized form (display name dropped, domain
   * lower-cased), which replaces the address in the validated body. Neither
   * rule is modelled further.
   */
  function ValidateRegistrationWithin(raw: RawRegistration, normalizeEmail: string -> Option<string>, nameMax: int)
    : (r: Response<UserRegister>)
    ensures r.Success? <==>
      && ValidNameWithin(raw.name, nameMax) && normalizeEmail(raw.email).Some?
      && ValidPassword(raw.password) && ParseRole(raw.role).Some?
    ensures r.Success? ==>
      && r.value.name == raw.name && Some(r.value.email) == normalizeEmail(raw.email)
      && r.value.password == raw.password && RoleValue(r.value.role) == raw.role
      && r.value.bio == raw.bio && r.value.birthdate == raw.birthdate
    ensures r.Failure? ==> r.error == Unprocessable
  {
    var email := normalizeEmail(raw.email);
    if ValidNameWithin(raw.name, nameMax) && email.Some? && ValidPassword(raw.password) && ParseRole(raw.role).Some? then
      Success(UserRegister(raw.name, email.value, raw.password, ParseRole(raw.role).value, raw.bio, raw.birthdate))
    else
      Failure(Unprocessable)
  }

  /** Validates a registration body as the schema declares it. */
  function ValidateRegistration(raw: RawRegistration, normalizeEmail: string -> Option<string>): (r: Response<UserRegister>)
    ensures r.Success? <==>
      && ValidName(raw.name) && normalizeEmail(raw.email).Some?
      && ValidPassword(raw.password) && ParseRole(raw.role).Some?
    ensures r.Success? ==> Some(r.value.email) == normalizeEmail(raw.email) && r.value.name == raw.name
    ensures r.Failure? ==> r.error == Unprocessable
  {
    ValidateRegistrationWithin(raw, normalizeEmail, NameMaxLength)
  }

  /** A book upload body: only the title is required. */
  datatype BookUpload = BookUpload(
    isbn: Option<string>, title: string, description: Option<string>,
    publishedDate: Option<Day>, status: Option<BookStatus>)

  /** One field of a partial update: not sent, sent as null, or sent with a value. */
  datatype Patch<+T> = Unset | Null | SetTo(value: T)

  /** A partial book update; every field may be left out or sent as null. */
  datatype BookUpdate = BookUpdate(
    isbn: Patch<string>, title: Patch<string>, description: Patch<string>,
    publishedDate: Patch<Day>, status: Patch<BookStatus>)

  /** The update that sends no field at all, which the schema accepts. */
  const NoChange: BookUpdate := BookUpdate(Unset, Unset, Unset, Unset, Unset)

  // ---- token payload ----

  /** A claim value of a decoded token, as far as validation cares. */
  datatype Claim = IntClaim(i: int) | StrClaim(s: string) | OtherClaim

  type Claims = map<string, Claim>

  datatype TokenPayload = TokenPayload(sub: int, role: Role, exp: int)

  predicate IsDigit(c: char) { '0' <= c <= '9' }

  function DigitValue(c: char): nat
    requires IsDigit(c)
  {
    c as int - '0' as int
  }

  function DigitChar(d: nat): char
    requires d < 10
  {
    (d + '0' as int) as char
  }

  /** The value of a non-empty string of decimal digits. */
  function ParseDigits(s: string): (r: Option<nat>)
    ensures r.Some? <==> |s| > 0 && forall i :: 0 <= i < |s| ==> IsDigit(s[i])
    decreases |s|
  {
    if |s| == 0 || !IsDigit(s[|s| - 1]) then None
    else if |s| == 1 then Some(DigitValue(s[0]))
    else match ParseDigits(s[..|s| - 1])
      case None => None
      case Some(v) => Some(10 * v + DigitValue(s[|s| - 1]))
  }

  /** The decimal spelling of a natural number, as Python's `str` writes it. */
  function ShowNat(n: nat): (s: string)
    ensures |s| > 0
    decreases n
  {
    if n < 10 then [DigitChar(n)] else ShowNat(n / 10) + [DigitChar(n % 10)]
  }

  /** An optional plus or minus sign followed by decimal digits. */
  function ParseInt(s: string): Option<int> {
    if |s| > 0 && (s[0] == '-' || s[0] == '+') then
      match ParseDigits(s[1..])
      case None => None
      case Some(v) => if s[0] == '-' then Some(-(v as int)) else Some(v as int)
    else
      match ParseDigits(s)
      case None => None
      case Some(v) => Some(v as int)
  }

  /** Reading back the decimal spelling of a natural number gives the number. */
  lemma {:induction false} ParseShowNat(n: nat)
    ensures ParseDigits(ShowNat(n)) == Some(n)
    ensures ParseInt(ShowNat(n)) == Some(n)
    decreases n
  {
    if n >= 10 {
      ParseShowNat(n / 10);
      var s := ShowNat(n);
      assert s[..|s| - 1] == ShowNat(n / 10);
      assert DigitValue(s[|s| - 1]) == n % 10;
    }
    assert ShowNat(n)[0] != '-';
  }

  /** A signed decimal spelling reads back as the signed number. */
  lemma ParseSigned(n: nat)
    ensures ParseInt("-" + ShowNat(n)) == Some(-(n as int))
    ensures ParseInt("+" + ShowNat(n)) == Some(n)
  {
    ParseShowNat(n);
    assert ("-" + ShowNat(n))[1..] == ShowNat(n);
    assert ("+" + ShowNat(n))[1..] == ShowNat(n);
  }

  /** An integer field accepts an integer, or a string spelling one. */
  function ClaimAsInt(c: Claim): Option<int> {
    match c
    case IntClaim(i) => Some(i)
    case StrClaim(s) => ParseInt(s)
    case OtherClaim => None
  }

  /** The role field accepts the wire value of a role. */
  function ClaimAsRole(c: Claim): Option<Role> {
    match c
    case StrClaim(s) => ParseRole(s)
    case _ => None
  }

  /** Validates the decoded payload: `sub` and `exp` integers, `role` a role; other claims are ignored. */
  function ValidateTokenPayload(claims: Claims): (r: Option<TokenPayload>)
    ensures r.Some? <==>
      && "sub" in claims && ClaimAsInt(claims["sub"]).Some?
      && "role" in claims && ClaimAsRole(claims["role"]).Some?
      && "exp" in claims && ClaimAsInt(claims["exp"]).Some?
    ensures r.Some? ==>
      && Some(r.value.sub) == ClaimAsInt(claims["sub"])
      && Some(r.value.role) == ClaimAsRole(claims["role"])
      && Some(r.value.exp) == ClaimAsInt(claims["exp"])
  {
    if "sub" in claims && "role" in claims && "exp" in claims then
      match (ClaimAsInt(claims["sub"]), ClaimAsRole(claims["role"]), ClaimAsInt(claims["exp"]))
      case (Some(sub), Some(role), Some(exp)) => Some(TokenPayload(sub, role, exp))
      case _ => None
    else None
  }

  /** The claims a login issues for a user: the id as a string, the role's value and an integer expiry. */
  function LoginClaims(id: nat, role: Role, exp: int): Claims {
    map["sub" := StrClaim(ShowNat(id)), "role" := StrClaim(RoleValue(role)), "exp" := IntClaim(exp)]
  }

  /** The payload a login issues validates back to the same user id, role and expiry. */
  lemma LoginClaimsValidate(id: nat, role: Role, exp: int)
    ensures ValidateTokenPayload(LoginClaims(id, role, exp)) == Some(TokenPayload(id, role, exp))
  {
    ParseShowNat(id);
  }
}
