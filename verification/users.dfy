/** The user-side rules: username normalisation (UsernameValidationMixin),
    the is_subscribed flags, the recipes_limit handling of the two
    subscription serializers, the two password changes, the avatar
    deletion, and registration (UserCreateSerializer) against the unique
    email and username columns. */
module Users {
  import opened Common
  import opened Schema
  import Text

  // ---------------------------------------------------------------- usernames

  const ForbiddenNames: set<string> := {"me", "admin", "api", "auth"}

  datatype UsernameError = ForbiddenName(name: string) | BadCharacters

  /** UnicodeUsernameValidator's pattern ^[\w.@+-]+\Z, with the Unicode word
      class \w taken as a parameter. */
  predicate UsernameChars(s: string, isWord: char -> bool) {
    |s| > 0 && forall i :: 0 <= i < |s| ==> isWord(s[i]) || s[i] in ".@+-"
  }

  /** str.strip().lower(). */
  function Normalise(s: string): string {
    Text.LowerStr(Text.Strip(s))
  }

  /** validate_username: normalise, refuse the reserved names, then refuse
      names outside the character rule; the normalised name is returned. */
  function ValidateUsername(value: string, isWord: char -> bool): (r: Result<string, UsernameError>)
    ensures r.Ok? <==> Normalise(value) !in ForbiddenNames && UsernameChars(Normalise(value), isWord)
    ensures r.Ok? ==> r.value == Normalise(value)
    ensures Normalise(value) in ForbiddenNames ==> r == Err(ForbiddenName(Normalise(value)))
  {
    var v := Normalise(value);
    if v in ForbiddenNames then Err(ForbiddenName(v))
    else if !UsernameChars(v, isWord) then Err(BadCharacters)
    else Ok(v)
  }

  /** A lower-cased stripped string is still stripped. */
  lemma NormaliseIsTrimmed(s: string)
    ensures var n := Normalise(s); n != [] ==> !Text.IsSpace(n[0]) && !Text.IsSpace(n[|n| - 1])
  {
    var t := Text.Strip(s);
    if t != [] {
      Text.LowerFacts(t[0]);
      Text.LowerFacts(t[|t| - 1]);
    }
  }

  /** Normalising twice is normalising once. */
  lemma NormaliseIdempotent(s: string)
    ensures Normalise(Normalise(s)) == Normalise(s)
  {
    var n := Normalise(s);
    NormaliseIsTrimmed(s);
    Text.StripOfTrimmed(n);
    Text.LowerStrIdempotent(Text.Strip(s));
  }

  /** An accepted username validates again to itself. */
  lemma ValidateUsernameIdempotent(value: string, isWord: char -> bool)
    requires ValidateUsername(value, isWord).Ok?
    ensures ValidateUsername(ValidateUsername(value, isWord).value, isWord) == ValidateUsername(value, isWord)
  {
    NormaliseIdempotent(value);
  }

  /** The reserved names are refused whatever their case and surrounding
      whitespace. */
  lemma PaddedReservedRefused(name: string, isWord: char -> bool)
    requires name != [] && !Text.IsSpace(name[0]) && !Text.IsSpace(name[|name| - 1])
    requires Text.LowerStr(name) in ForbiddenNames
    ensures ValidateUsername(" " + name + " ", isWord) == Err(ForbiddenName(Text.LowerStr(name)))
  {
    Text.StripPadded(name);
  }

  /** " Admin " is refused as "admin". */
  lemma PaddedAdminRefused(isWord: char -> bool)
    ensures ValidateUsername(" " + "Admin" + " ", isWord) == Err(ForbiddenName("admin"))
  {
    assert Text.LowerStr("Admin") == "admin" by {
      var l := Text.LowerStr("Admin");
      assert l[0] == 'a' && l[1] == 'd' && l[2] == 'm' && l[3] == 'i' && l[4] == 'n';
    }
    PaddedReservedRefused("Admin", isWord);
  }

  // ----------------------------------------------------------- is_subscribed

  /** UserSerializer.get_is_subscribed (both versions): False without a
      request or for an anonymous requester, otherwise whether the requester
      follows the author. */
  function IsSubscribed(request: Option<Requester>, follows: set<(UserId, UserId)>, author: UserId): (b: bool)
    ensures b <==> request.Some? && request.value.Authenticated? && (request.value.id, author) in follows
  {
    match request
    case None => false
    case Some(who) => who.IsAuthenticated() && (who.id, author) in follows
  }

  /** The subscription serializers answer True for every author they list,
      and the authors listed for a user are those the user follows, so
      their constant agrees with UserSerializer's answer. */
  lemma ConstantTrueIsConsistent(follows: set<(UserId, UserId)>, u: UserId, author: UserId)
    requires (u, author) in follows
    ensures IsSubscribed(Some(Authenticated(u)), follows, author)
  {
  }

  // ----------------------------------------------------------- recipes_limit

  /** What int(...) makes of the recipes_limit query parameter. */
  datatype LimitParam = Absent | NotInteger | Integer(n: int)

  /** SubscriptionSerializer.get_recipes (api): a TypeError (absent value)
      or ValueError (not a number, or the negative slice the ORM refuses) is
      swallowed and every recipe is listed. */
  function ApiRecipesShown(request: bool, limit: LimitParam, recipes: seq<RecipeId>): (r: seq<RecipeId>)
    ensures r <= recipes
    ensures request && limit.Integer? && limit.n >= 0 ==> |r| == if limit.n <= |recipes| then limit.n else |recipes|
    ensures !(request && limit.Integer? && limit.n >= 0) ==> r == recipes
  {
    if request && limit.Integer? && limit.n >= 0 then Take(recipes, limit.n) else recipes
  }

  datatype LimitError = LimitNotInteger | NegativeLimit

  /** FollowSerializer.get_recipes (users): the limit defaults to 3, and a
      value int() or the negative slice refuses is an error. */
  function FollowRecipesShown(limit: LimitParam, recipes: seq<RecipeId>): (r: Result<seq<RecipeId>, LimitError>)
    ensures limit.Absent? ==> r.Ok? && r.value == Take(recipes, 3)
    ensures limit.Integer? && limit.n >= 0 ==> r.Ok? && r.value == Take(recipes, limit.n)
    ensures r.Ok? ==> r.value <= recipes && |r.value| <= (if limit.Integer? then limit.n else 3)
    ensures r.Err? <==> limit.NotInteger? || (limit.Integer? && limit.n < 0)
  {
    match limit
    case Absent => Ok(Take(recipes, 3))
    case NotInteger => Err(LimitNotInteger)
    case Integer(n) => if n < 0 then Err(NegativeLimit) else Ok(Take(recipes, n))
  }

  /** The two serializers agree on every non-negative integer limit; without
      one, the api lists everything and the users version three. */
  lemma RecipeLimitsCompared(limit: LimitParam, recipes: seq<RecipeId>)
    ensures limit.Integer? && limit.n >= 0 ==> FollowRecipesShown(limit, recipes) == Ok(ApiRecipesShown(true, limit, recipes))
    ensures limit.Absent? && |recipes| > 3 ==>
      |ApiRecipesShown(true, limit, recipes)| == |recipes| && |FollowRecipesShown(limit, recipes).value| == 3
  {
  }

  // --------------------------------------------------------------- passwords

  /** The outcome of a password change: the status and the stored hash. */
  datatype PasswordReply = PasswordReply(status: Status, stored: string)

  /** UserViewSet.set_password of backend/api/views.py: a missing or empty
      password of either kind is refused, then a wrong current password;
      otherwise the new one is hashed and stored. check and hash stand for
      check_password and make_password. */
  function ApiSetPassword(stored: string, current: Option<string>, next: Option<string>,
                          check: (string, string) -> bool, hash: string -> string): (r: PasswordReply)
    ensures r.status == NoContent204 <==>
      current.Some? && current.value != [] && next.Some? && next.value != [] && check(stored, current.value)
    ensures r.status == NoContent204 ==> r.stored == hash(next.value)
    ensures r.status != NoContent204 ==> r.status == BadRequest400 && r.stored == stored
  {
    if current.None? || current.value == [] || next.None? || next.value == [] then PasswordReply(BadRequest400, stored)
    else if !check(stored, current.value) then PasswordReply(BadRequest400, stored)
    else PasswordReply(NoContent204, hash(next.value))
  }

  datatype PasswordField = CurrentPassword | NewPassword
  datatype PasswordProblem = Missing | Blank | Wrong | Weak

  /** One CharField(required=True): trimmed, and blank refused. */
  function CharValue(v: Option<string>): Result<string, PasswordProblem> {
    match v
    case None => Err(Missing)
    case Some(s) => if Text.Strip(s) == [] then Err(Blank) else Ok(Text.Strip(s))
  }

  /** The field errors of PasswordSerializer: validate_current_password
      checks the trimmed current password; validate_password (the strength
      rules, a parameter here) checks the trimmed new one. */
  function PasswordErrors(stored: string, current: Option<string>, next: Option<string>,
                          check: (string, string) -> bool, strong: string -> bool): seq<(PasswordField, PasswordProblem)>
  {
    var c := CharValue(current);
    var n := CharValue(next);
    (if c.Err? then [(CurrentPassword, c.error)] else if !check(stored, c.value) then [(CurrentPassword, Wrong)] else [])
    + (if n.Err? then [(NewPassword, n.error)] else if !strong(n.value) then [(NewPassword, Weak)] else [])
  }

  /** UserViewSet.set_password of backend/users/views.py with
      PasswordSerializer: any field error is a 400 that changes nothing;
      otherwise the trimmed new password is hashed and stored. */
  function UsersSetPassword(stored: string, current: Option<string>, next: Option<string>,
                            check: (string, string) -> bool, strong: string -> bool, hash: string -> string): (r: PasswordReply)
    ensures r.status == NoContent204 <==>
      && current.Some? && Text.Strip(current.value) != [] && check(stored, Text.Strip(current.value))
      && next.Some? && Text.Strip(next.value) != [] && strong(Text.Strip(next.value))
    ensures r.status == NoContent204 ==> r.stored == hash(Text.Strip(next.value))
    ensures r.status != NoContent204 ==> r.status == BadRequest400 && r.stored == stored
  {
    if PasswordErrors(stored, current, next, check, strong) != [] then PasswordReply(BadRequest400, stored)
    else PasswordReply(NoContent204, hash(CharValue(next).value))
  }

  /** A wrong current password is refused by both versions and leaves the
      stored password as it was. */
  lemma WrongPasswordRefused(stored: string, current: string, next: string,
                             check: (string, string) -> bool, strong: string -> bool, hash: string -> string)
    requires !check(stored, current) && !check(stored, Text.Strip(current))
    ensures ApiSetPassword(stored, Some(current), Some(next), check, hash) == PasswordReply(BadRequest400, stored)
    ensures UsersSetPassword(stored, Some(current), Some(next), check, strong, hash) == PasswordReply(BadRequest400, stored)
  {
  }

  /** The versions store different passwords for a new password with
      surrounding spaces: the api stores it as sent, the users version
      trimmed. */
  lemma NewPasswordTrimmedOnlyByUsers(stored: string, current: string, next: string,
                                      check: (string, string) -> bool, strong: string -> bool, hash: string -> string)
    requires current != [] && !Text.IsSpace(current[0]) && !Text.IsSpace(current[|current| - 1])
    requires next != [] && !Text.IsSpace(next[0]) && !Text.IsSpace(next[|next| - 1])
    requires check(stored, current) && strong(next)
    ensures ApiSetPassword(stored, Some(current), Some(" " + next + " "), check, hash)
              == PasswordReply(NoContent204, hash(" " + next + " "))
    ensures UsersSetPassword(stored, Some(current), Some(" " + next + " "), check, strong, hash)
              == PasswordReply(NoContent204, hash(next))
  {
    Text.StripOfTrimmed(current);
    Text.StripPadded(next);
    assert CharValue(Some(current)) == Ok(current);
    assert CharValue(Some(" " + next + " ")) == Ok(next);
  }

  // ------------------------------------------------------------------ avatar

  /** The avatar DELETE branch of backend/users/views.py: the file is
      deleted if there is one and the field is set to None regardless. */
  function DeleteAvatar(u: User): (r: User)
    ensures r.avatar.None?
    ensures r.(avatar := u.avatar) == u
  {
    u.(avatar := None)
  }

  /** delete_avatar of backend/api/views.py: a set (non-empty) file is
      deleted, which also clears the field; an empty field is saved as it
      is. */
  function ApiDeleteAvatar(u: User): (r: User)
    ensures r.avatar.None? || r.avatar == Some("")
    ensures u.avatar.Some? && u.avatar.value != "" ==> r.avatar.None?
    ensures r.(avatar := u.avatar) == u
  {
    if u.avatar.Some? && u.avatar.value != "" then u.(avatar := None) else u
  }

  /** The two avatar deletions leave the same user unless the stored name
      is the empty string, which only the users version turns into None. */
  lemma AvatarDeletionsAgree(u: User)
    ensures ApiDeleteAvatar(u) == DeleteAvatar(u) <==> u.avatar != Some("")
  {
    if u.avatar == Some("") {
      assert ApiDeleteAvatar(u).avatar != DeleteAvatar(u).avatar;
    }
  }

  // ------------------------------------------------------------ registration

  /** AbstractUser.username is a unique column too. */
  predicate UniqueUsernames(db: Db) {
    forall a, b :: a in db.users && b in db.users && a != b ==> db.users[a].username != db.users[b].username
  }

  function Emails(db: Db): set<string> { set k | k in db.users :: db.users[k].email }
  function Usernames(db: Db): set<string> { set k | k in db.users :: db.users[k].username }

  /** UserManager.normalize_email, which create_user applies: the address
      is stripped and split at its last '@', and the domain after it is
      lower-cased; an address without '@' comes back as it was given. */
  function NormalizeEmail(email: string): string {
    var t := Text.Strip(email);
    var k := Text.LastIndex(t, '@');
    if k < 0 then email else t[..k] + "@" + Text.LowerStr(t[k + 1..])
  }

  /** Only '@' lower-cases to '@'. */
  lemma LowerIsAt(c: char)
    ensures Text.Lower(c) == '@' <==> c == '@'
  {
  }

  /** On a trimmed address split at its last '@', normalisation keeps the
      local part, case and all, and lower-cases the domain. */
  lemma NormalizeEmailParts(local: string, domain: string)
    requires '@' !in domain
    requires local != [] ==> !Text.IsSpace(local[0])
    requires domain != [] ==> !Text.IsSpace(domain[|domain| - 1])
    ensures NormalizeEmail(local + "@" + domain) == local + "@" + Text.LowerStr(domain)
  {
    var e := local + "@" + domain;
    assert e[0] == if local != [] then local[0] else '@';
    assert e[|e| - 1] == if domain != [] then domain[|domain| - 1] else '@';
    Text.StripOfTrimmed(e);
    var k := Text.LastIndex(e, '@');
    assert e[|local|] == '@';
    forall i | |local| < i < |e| ensures e[i] != '@' {
      assert e[i] == domain[i - |local| - 1];
    }
    assert k == |local|;
    assert e[..k] == local && e[k + 1..] == domain;
  }

  /** Normalising a normalised address changes nothing. */
  lemma NormalizeEmailIdempotent(email: string)
    ensures NormalizeEmail(NormalizeEmail(email)) == NormalizeEmail(email)
  {
    var t := Text.Strip(email);
    var k := Text.LastIndex(t, '@');
    if k >= 0 {
      var local, domain := t[..k], t[k + 1..];
      assert t == local + "@" + domain;
      forall i | 0 <= i < |domain| ensures domain[i] != '@' {
        assert domain[i] == t[k + 1 + i];
      }
      var lower := Text.LowerStr(domain);
      forall i | 0 <= i < |lower| ensures lower[i] != '@' {
        LowerIsAt(domain[i]);
      }
      if local != [] { assert local[0] == t[0]; }
      if domain != [] {
        assert domain[|domain| - 1] == t[|t| - 1];
        Text.LowerFacts(domain[|domain| - 1]);
      }
      NormalizeEmailParts(local, lower);
      Text.LowerStrIdempotent(domain);
    }
  }

  /** The address as stored: the EmailField strips it, then create_user
      normalises it. */
  function StoredEmail(s: SignUp): string { NormalizeEmail(Text.Strip(s.email)) }

  /** The fields of UserCreateSerializer that a client writes. Every one is
      required and may not be blank; an absent field is given here as the
      empty string, which the serializer refuses with 400 just as it
      refuses a blank one. */
  datatype SignUp = SignUp(email: string, username: string, password: string, firstName: string, lastName: string)

  datatype SignUpField = EmailField | UsernameField | PasswordField | FirstNameField | LastNameField

  /** A DRF CharField (EmailField included) strips its value and refuses
      one that is then empty. */
  predicate IsBlank(value: string) { Text.Strip(value) == [] }

  /** No field of the sign-up is blank. first_name and last_name are
      CharFields of the model without blank=True, so the serializer
      generated for them demands them too. */
  predicate Filled(s: SignUp) {
    && !IsBlank(s.email) && !IsBlank(s.username) && !IsBlank(s.password)
    && !IsBlank(s.firstName) && !IsBlank(s.lastName)
  }

  /** The user a sign-up stores: every field as its serializer field
      cleaned it, the address and the name as create_user normalises them,
      no avatar, and the hash of the stripped password. */
  function SignUpUser(s: SignUp, hash: string -> string): User {
    User(StoredEmail(s), Normalise(s.username), Text.Strip(s.firstName), Text.Strip(s.lastName), None, hash(Text.Strip(s.password)))
  }

  /** The refusals of a sign-up. IntegrityError is the database refusing
      the INSERT on a unique column, which nothing catches. */
  datatype SignUpError =
    | BlankField(field: SignUpField)
    | EmailTaken
    | UsernameTaken
    | BadUsername(reason: UsernameError)
    | IntegrityError

  /** The response to a refused sign-up: 400 for a validation error, 500
      for the integrity error. */
  function SignUpStatus(e: SignUpError): (s: Status)
    ensures s == InternalError500 <==> e == IntegrityError
    ensures s == BadRequest400 <==> e != IntegrityError
  {
    if e == IntegrityError then InternalError500 else BadRequest400
  }

  /** The refusal of the first blank field in Meta.fields order, if any. */
  function BlankIn(s: SignUp): (r: Option<SignUpField>)
    ensures r.None? <==> Filled(s)
  {
    if IsBlank(s.email) then Some(EmailField)
    else if IsBlank(s.username) then Some(UsernameField)
    else if IsBlank(s.password) then Some(PasswordField)
    else if IsBlank(s.firstName) then Some(FirstNameField)
    else if IsBlank(s.lastName) then Some(LastNameField)
    else None
  }

  /** UserCreateSerializer as written. Each field strips its value and
      refuses a blank one; each UniqueValidator compares the stripped value
      with the stored ones exactly; validate_username then normalises the
      name and create_user normalises the address. A sign-up that differs
      from a stored user only in the case of its name or of its email's
      domain passes validation, and the INSERT then violates the unique
      column: nothing is stored and the answer is 500. */
  function RegisterAsWritten(db: Db, id: UserId, s: SignUp, isWord: char -> bool, hash: string -> string): (r: Result<Db, SignUpError>)
    requires id !in db.users
    ensures r.Ok? ==> r.value == db.(users := db.users[id := User(StoredEmail(s), Normalise(s.username),
      Text.Strip(s.firstName), Text.Strip(s.lastName), None, hash(Text.Strip(s.password)))])
    ensures r.Ok? <==>
      && Filled(s)
      && Text.Strip(s.email) !in Emails(db)
      && Text.Strip(s.username) !in Usernames(db)
      && ValidateUsername(s.username, isWord).Ok?
      && StoredEmail(s) !in Emails(db)
      && Normalise(s.username) !in Usernames(db)
    ensures r == Err(IntegrityError) <==>
      && Filled(s)
      && Text.Strip(s.email) !in Emails(db)
      && Text.Strip(s.username) !in Usernames(db)
      && ValidateUsername(s.username, isWord).Ok?
      && (StoredEmail(s) in Emails(db) || Normalise(s.username) in Usernames(db))
  {
    if IsBlank(s.email) then Err(BlankField(EmailField))
    else if Text.Strip(s.email) in Emails(db) then Err(EmailTaken)
    else if IsBlank(s.username) then Err(BlankField(UsernameField))
    else if Text.Strip(s.username) in Usernames(db) then Err(UsernameTaken)
    else match ValidateUsername(s.username, isWord)
      case Err(e) => Err(BadUsername(e))
      case Ok(name) =>
        if BlankIn(s).Some? then Err(BlankField(BlankIn(s).value))
        else
          var u := SignUpUser(s, hash);
          if u.email in Emails(db) || name in Usernames(db) then Err(IntegrityError)
          else Ok(db.(users := db.users[id := u]))
  }

  /** UserCreateSerializer with the address and the name compared in the
      form they are stored in, as the unique columns demand. */
  function Register(db: Db, id: UserId, s: SignUp, isWord: char -> bool, hash: string -> string): (r: Result<Db, SignUpError>)
    requires id !in db.users
    ensures r.Ok? ==> r.value == db.(users := db.users[id := User(StoredEmail(s), Normalise(s.username),
      Text.Strip(s.firstName), Text.Strip(s.lastName), None, hash(Text.Strip(s.password)))])
    ensures r.Ok? <==>
      && Filled(s)
      && StoredEmail(s) !in Emails(db)
      && ValidateUsername(s.username, isWord).Ok?
      && Normalise(s.username) !in Usernames(db)
    ensures r != Err(IntegrityError)
  {
    if IsBlank(s.email) then Err(BlankField(EmailField))
    else if StoredEmail(s) in Emails(db) then Err(EmailTaken)
    else if IsBlank(s.username) then Err(BlankField(UsernameField))
    else match ValidateUsername(s.username, isWord)
      case Err(e) => Err(BadUsername(e))
      case Ok(name) =>
        if name in Usernames(db) then Err(UsernameTaken)
        else if BlankIn(s).Some? then Err(BlankField(BlankIn(s).value))
        else Ok(db.(users := db.users[id := SignUpUser(s, hash)]))
  }

  /** A sign-up with a blank or missing field is refused with 400 by both
      versions, and nothing is stored. */
  lemma BlankFieldRefused(db: Db, id: UserId, s: SignUp, isWord: char -> bool, hash: string -> string)
    requires id !in db.users && !Filled(s)
    ensures RegisterAsWritten(db, id, s, isWord, hash).Err?
    ensures SignUpStatus(RegisterAsWritten(db, id, s, isWord, hash).error) == BadRequest400
    ensures Register(db, id, s, isWord, hash).Err?
    ensures SignUpStatus(Register(db, id, s, isWord, hash).error) == BadRequest400
  {
  }

  /** A password sent with a space on each side is stored as the hash of
      the password without them, by both versions. */
  lemma PaddedPasswordStoredTrimmed(db: Db, id: UserId, s: SignUp, pw: string, isWord: char -> bool, hash: string -> string)
    requires id !in db.users
    requires pw != [] && !Text.IsSpace(pw[0]) && !Text.IsSpace(pw[|pw| - 1])
    requires s.password == " " + pw + " "
    ensures RegisterAsWritten(db, id, s, isWord, hash).Ok? ==>
      RegisterAsWritten(db, id, s, isWord, hash).value.users[id].password == hash(pw)
    ensures Register(db, id, s, isWord, hash).Ok? ==>
      Register(db, id, s, isWord, hash).value.users[id].password == hash(pw)
  {
    Text.StripPadded(pw);
  }

  /** Every stored address and name is in the form registration stores:
      normalize_email and str.lower() leave it as it is. */
  predicate StoredFormsNormal(db: Db) {
    forall k :: k in db.users ==>
      NormalizeEmail(db.users[k].email) == db.users[k].email && Text.LowerStr(db.users[k].username) == db.users[k].username
  }

  /** Over a store in normal form, an address found stored as sent is
      found in its stored form too. */
  lemma StrippedEmailStored(db: Db, s: SignUp)
    requires StoredFormsNormal(db)
    ensures Text.Strip(s.email) in Emails(db) ==> StoredEmail(s) in Emails(db)
  {
    if Text.Strip(s.email) in Emails(db) {
      var k :| k in db.users && db.users[k].email == Text.Strip(s.email);
      assert StoredEmail(s) == db.users[k].email;
    }
  }

  /** Over a store in normal form, a name found stored as sent is found in
      its normalised form too. */
  lemma StrippedNameStored(db: Db, s: SignUp)
    requires StoredFormsNormal(db)
    ensures Text.Strip(s.username) in Usernames(db) ==> Normalise(s.username) in Usernames(db)
  {
    if Text.Strip(s.username) in Usernames(db) {
      var k :| k in db.users && db.users[k].username == Text.Strip(s.username);
      assert Normalise(s.username) == db.users[k].username;
    }
  }

  /** Where the sign-up as written stores a user, the corrected one stores
      the same user, and over a store in normal form the converse holds;
      where the version as written ends in the integrity error, the
      corrected one refuses the duplicate address or name with 400. */
  lemma RegisterVersionsAgree(db: Db, id: UserId, s: SignUp, isWord: char -> bool, hash: string -> string)
    requires id !in db.users && StoredFormsNormal(db)
    ensures RegisterAsWritten(db, id, s, isWord, hash).Ok? <==> Register(db, id, s, isWord, hash).Ok?
    ensures RegisterAsWritten(db, id, s, isWord, hash).Ok? ==> RegisterAsWritten(db, id, s, isWord, hash) == Register(db, id, s, isWord, hash)
    ensures RegisterAsWritten(db, id, s, isWord, hash) == Err(IntegrityError) ==>
      Register(db, id, s, isWord, hash) == Err(EmailTaken) || Register(db, id, s, isWord, hash) == Err(UsernameTaken)
  {
    StrippedEmailStored(db, s);
    StrippedNameStored(db, s);
  }

  /** A sign-up that passes every check of the serializer although its
      normalised name is already stored: as written it ends in the
      integrity error, where the corrected version refuses the name. */
  lemma RegisterAsWrittenDuplicates(db: Db, id: UserId, other: UserId, s: SignUp, isWord: char -> bool, hash: string -> string)
    requires id !in db.users && other in db.users && Filled(s)
    requires Text.Strip(s.email) !in Emails(db) && StoredEmail(s) !in Emails(db)
    requires Text.Strip(s.username) !in Usernames(db)
    requires ValidateUsername(s.username, isWord).Ok?
    requires Normalise(s.username) == db.users[other].username
    ensures RegisterAsWritten(db, id, s, isWord, hash) == Err(IntegrityError)
    ensures Register(db, id, s, isWord, hash) == Err(UsernameTaken)
  {
    assert Normalise(s.username) in Usernames(db);
  }

  /** "Bob" is trimmed, differs from "bob", and validates to "bob". */
  lemma BobFacts(isWord: char -> bool)
    requires isWord('b') && isWord('o')
    ensures Text.Strip("Bob") == "Bob" && "Bob" != "bob"
    ensures ValidateUsername("Bob", isWord) == Ok("bob")
  {
    Text.StripOfTrimmed("Bob");
    assert Text.LowerStr("Bob") == "bob" by {
      var l := Text.LowerStr("Bob");
      assert l[0] == 'b' && l[1] == 'o' && l[2] == 'b';
    }
    assert Normalise("Bob") == "bob";
    assert UsernameChars("bob", isWord);
  }

  /** Signing up as "Bob" next to a stored "bob": 500 as written, 400 once
      corrected. */
  lemma RegisterAsWrittenDuplicatesBob(db: Db, id: UserId, other: UserId, s: SignUp, isWord: char -> bool, hash: string -> string)
    requires s.username == "Bob" && Filled(s)
    requires id !in db.users && other in db.users && db.users[other].username == "bob"
    requires Text.Strip(s.email) !in Emails(db) && StoredEmail(s) !in Emails(db)
    requires "Bob" !in Usernames(db)
    requires isWord('b') && isWord('o')
    ensures RegisterAsWritten(db, id, s, isWord, hash) == Err(IntegrityError)
    ensures Register(db, id, s, isWord, hash) == Err(UsernameTaken)
  {
    BobFacts(isWord);
    RegisterAsWrittenDuplicates(db, id, other, s, isWord, hash);
  }

  /** The domain of the example address: no '@' in it, no whitespace at
      its end, and lower-cased it is example.com. A lemma of its own,
      because unfolding the literal inside a larger proof is costly. */
  lemma ExampleDomain(domain: string)
    requires domain == "EXAMPLE.com"
    ensures '@' !in domain && !Text.IsSpace(domain[|domain| - 1])
    ensures Text.LowerStr(domain) == "example.com"
  {
    var l := Text.LowerStr(domain);
    assert l[0] == 'e' && l[1] == 'x' && l[2] == 'a' && l[3] == 'm';
    assert l[4] == 'p' && l[5] == 'l' && l[6] == 'e' && l[7] == '.';
    assert l[8] == 'c' && l[9] == 'o' && l[10] == 'm';
  }

  /** The address a@EXAMPLE.com, split at its '@', is already trimmed and
      is stored as a@example.com. */
  lemma ExampleAddress(local: string, domain: string)
    requires local == "a" && domain == "EXAMPLE.com"
    ensures Text.Strip(local + "@" + domain) == local + "@" + domain
    ensures NormalizeEmail(local + "@" + domain) == "a@example.com"
  {
    ExampleDomain(domain);
    var e := local + "@" + domain;
    assert e[0] == 'a' && e[|e| - 1] == domain[|domain| - 1];
    Text.StripOfTrimmed(e);
    NormalizeEmailParts(local, domain);
    assert local + "@" + "example.com" == "a@example.com";
  }

  /** Signing up as a@EXAMPLE.com next to a stored a@example.com: the
      address as sent is not stored, so validation passes, and
      create_user lower-cases its domain into the stored one. */
  lemma RegisterAsWrittenEmailClash(db: Db, id: UserId, other: UserId, s: SignUp, local: string, domain: string, isWord: char -> bool, hash: string -> string)
    requires local == "a" && domain == "EXAMPLE.com" && s.email == local + "@" + domain && Filled(s)
    requires id !in db.users && other in db.users && db.users[other].email == "a@example.com"
    requires local + "@" + domain !in Emails(db)
    requires Text.Strip(s.username) !in Usernames(db) && ValidateUsername(s.username, isWord).Ok?
    ensures RegisterAsWritten(db, id, s, isWord, hash) == Err(IntegrityError)
    ensures Register(db, id, s, isWord, hash) == Err(EmailTaken)
  {
    ExampleAddress(local, domain);
    assert StoredEmail(s) in Emails(db);
  }

  /** Adding a user under a fresh key whose email and username no stored
      user holds keeps the schema and the usernames unique. */
  lemma FreshUserKeepsUnique(db: Db, b: Bounds, id: UserId, u: User)
    requires WellFormed(db, b) && UniqueUsernames(db) && id !in db.users
    requires u.email !in Emails(db) && u.username !in Usernames(db)
    ensures var d := db.(users := db.users[id := u]);
      WellFormed(d, b) && UniqueUsernames(d)
  {
    var d := db.(users := db.users[id := u]);
    forall a | a in db.users ensures db.users[a].email != u.email && db.users[a].username != u.username {
      assert db.users[a].email in Emails(db);
      assert db.users[a].username in Usernames(db);
    }
    assert UniqueEmails(d);
    NewUserKeepsKeys(db, id, u);
  }

  /** A new user row breaks no foreign key. */
  lemma NewUserKeepsKeys(db: Db, id: UserId, u: User)
    requires ForeignKeys(db)
    ensures ForeignKeys(db.(users := db.users[id := u]))
  {
  }

  /** The user a sign-up stores is in normal form. */
  lemma SignUpUserNormal(db: Db, id: UserId, s: SignUp, hash: string -> string)
    requires StoredFormsNormal(db)
    ensures StoredFormsNormal(db.(users := db.users[id := SignUpUser(s, hash)]))
  {
    NormalizeEmailIdempotent(Text.Strip(s.email));
    Text.LowerStrIdempotent(Text.Strip(s.username));
  }

  /** Registration keeps emails and usernames unique, the store well formed
      and every stored address and name in normal form. */
  lemma RegisterKeepsUnique(db: Db, b: Bounds, id: UserId, s: SignUp, isWord: char -> bool, hash: string -> string)
    requires WellFormed(db, b) && UniqueUsernames(db) && StoredFormsNormal(db) && id !in db.users
    requires Register(db, id, s, isWord, hash).Ok?
    ensures var d := Register(db, id, s, isWord, hash).value;
      WellFormed(d, b) && UniqueUsernames(d) && StoredFormsNormal(d)
  {
    FreshUserKeepsUnique(db, b, id, SignUpUser(s, hash));
    SignUpUserNormal(db, id, s, hash);
  }

  /** The sign-up as written never stores a second user of one address or
      name either: the database refuses the INSERT instead. */
  lemma RegisterAsWrittenKeepsUnique(db: Db, b: Bounds, id: UserId, s: SignUp, isWord: char -> bool, hash: string -> string)
    requires WellFormed(db, b) && UniqueUsernames(db) && StoredFormsNormal(db) && id !in db.users
    requires RegisterAsWritten(db, id, s, isWord, hash).Ok?
    ensures var d := RegisterAsWritten(db, id, s, isWord, hash).value;
      WellFormed(d, b) && UniqueUsernames(d) && StoredFormsNormal(d)
  {
    FreshUserKeepsUnique(db, b, id, SignUpUser(s, hash));
    SignUpUserNormal(db, id, s, hash);
  }
}
