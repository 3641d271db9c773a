/** Registration and login (app/api/authentication.js): the checks `register`
    makes before it creates a user, the duplicate-email conflict against the
    user store, and the public projection of a user that both handlers send
    back beside a token.

    The token is opaque: signing it is a foreign library, and all the model
    keeps of it is the payload it carries. */
module Authentication {
  import opened Requests
  import opened Models

  const MsgNoEmail := "You must enter an email address."
  const MsgNoDisplayName := "You must enter a display name."
  const MsgNoPassword := "You must enter a password."
  const MsgNoTimeZone := "You must enter a time zone."
  const MsgEmailInUse := "That email address is already in use."

  /** The public view of a user: `{_id, displayName, email}`. */
  datatype UserInfo = UserInfo(id: Id, displayName: string, email: string)

  /** A signed token; `payload` is what verifying it gives back. */
  datatype Token = Token(payload: UserInfo)

  /** The body of a successful login or registration: `{token, user}`. */
  datatype Session = Session(token: Token, user: UserInfo)

  /** The fields of a registration request body. */
  datatype Registration = Registration(
    email: Option<string>,
    displayName: Option<string>,
    password: Option<string>,
    timeZone: Option<string>)

  /** The database step that fails when the handler reaches it, if any, with
      the error handed on to `next`. */
  datatype RegisterFault = NoFault | LookupFails(err: string) | SaveFails(err: string)

  /** What a registration leaves behind: the first response and the users. */
  datatype RegisterOutcome = RegisterOutcome(response: Response<Session>, users: seq<User>)

  // ----- Projection and tokens -----

  /** `setUserInfo`: id, display name and email, and nothing else. */
  function SetUserInfo(u: User): (info: UserInfo)
    ensures info.id == u.id && info.displayName == u.displayName && info.email == u.email
  {
    UserInfo(u.id, u.displayName, u.email)
  }

  /** Signing a payload (the signature itself is not modelled). */
  function Sign(info: UserInfo): (t: Token)
  {
    Token(info)
  }

  /** Verifying a token gives back the payload it was signed with. */
  function Verify(t: Token): (info: UserInfo)
  {
    t.payload
  }

  /** The `{token, user}` body for a user. */
  function SessionFor(u: User): (s: Session)
  {
    Session(Sign(SetUserInfo(u)), SetUserInfo(u))
  }

  /** `login`: the user the authentication middleware put on the request
      gets a 200 response carrying their public view and a token for it. */
  function Login(u: User): (r: Response<Session>)
    ensures r.Ok? && r.status == 200
    ensures Verify(r.body.token) == r.body.user
    ensures r.body.user.id == u.id && r.body.user.displayName == u.displayName && r.body.user.email == u.email
  {
    Ok(200, SessionFor(u))
  }

  // ----- Validation -----

  /** The required fields, in the order `register` checks them. */
  function Required(req: Registration): (fields: seq<Option<string>>)
    ensures |fields| == 4
  {
    [req.email, req.displayName, req.password, req.timeZone]
  }

  /** The message for each required field that is missing, in the same order. */
  const RequiredMessages: seq<string> := [MsgNoEmail, MsgNoDisplayName, MsgNoPassword, MsgNoTimeZone]

  /** How each required field is named in its message, in the same order. */
  const FieldNames: seq<string> := ["email", "display name", "password", "time zone"]

  /** `name` occurs in `msg` starting at position `i`. */
  predicate OccursAt(msg: string, name: string, i: int)
  {
    0 <= i && i + |name| <= |msg| && msg[i..i + |name|] == name
  }

  /** `msg.indexOf(name) > 0`: the first occurrence of `name` in `msg` is
      after its first character. */
  predicate Mentions(msg: string, name: string)
  {
    !OccursAt(msg, name, 0) && exists i :: 0 < i <= |msg| && OccursAt(msg, name, i)
  }

  /** The early returns of `register`: the message of the first required
      field that is missing or empty, or `None` when all four are present. */
  function ValidateRegistration(req: Registration): (r: Option<string>)
    ensures r.None? <==> forall i :: 0 <= i < 4 ==> Truthy(Required(req)[i])
    ensures r.Some? ==> r.value in RequiredMessages
  {
    var fields := Required(req);
    if !Truthy(fields[0]) then Some(MsgNoEmail)
    else if !Truthy(fields[1]) then Some(MsgNoDisplayName)
    else if !Truthy(fields[2]) then Some(MsgNoPassword)
    else if !Truthy(fields[3]) then Some(MsgNoTimeZone)
    else None
  }

  // ----- The user store -----

  /** `User.findOne({'local.email': email})`: some user with that email. */
  function FindByEmail(s: seq<User>, email: string): (r: Option<User>)
    ensures r.Some? ==> r.value in s && r.value.email == email
    ensures r.None? <==> forall i :: 0 <= i < |s| ==> s[i].email != email
  {
    if s == [] then None
    else if s[0].email == email then Some(s[0])
    else
      assert forall i :: 1 <= i < |s| ==> s[i] == s[1..][i - 1];
      FindByEmail(s[1..], email)
  }

  /** The store invariant: ids are distinct and below the next fresh id, and
      no two users share an email. */
  ghost predicate UsersWellformed(s: seq<User>, freshId: Id)
  {
    && (forall i, j :: 0 <= i < j < |s| ==> s[i].id != s[j].id && s[i].email != s[j].email)
    && (forall i :: 0 <= i < |s| ==> s[i].id < freshId)
  }

  /** The user a valid registration creates: not yet verified, with the
      password as supplied (hashing happens in a save hook outside this
      model). */
  function NewUser(freshId: Id, req: Registration): (u: User)
    requires ValidateRegistration(req).None?
    ensures u.id == freshId && !u.verified
    ensures Some(u.email) == req.email && Some(u.displayName) == req.displayName
    ensures Some(u.password) == req.password && Some(u.timeZone) == req.timeZone
  {
    assert Truthy(Required(req)[0]) && Truthy(Required(req)[1]);
    assert Truthy(Required(req)[2]) && Truthy(Required(req)[3]);
    User(freshId, req.displayName.value, req.timeZone.value, req.email.value, req.password.value, false)
  }

  /** The whole of `register` (authentication.js:44-103), first response
      only. */
  function RegisterEffect(s: seq<User>, freshId: Id, req: Registration, fault: RegisterFault): (o: RegisterOutcome)
    ensures o.response.Ok? <==> && ValidateRegistration(req).None? && fault.NoFault?
                                && FindByEmail(s, NewUser(freshId, req).email).None?
    ensures !o.response.Ok? ==> o.users == s
    ensures o.response.Ok? ==> && |o.users| == |s| + 1 && o.users[..|s|] == s
                               && o.users[|s|] == NewUser(freshId, req)
    ensures o.response.Err? && ValidateRegistration(req).None? ==> o.response == Err(422, MsgEmailInUse)
    ensures ValidateRegistration(req).Some? ==> o.response == Err(422, ValidateRegistration(req).value)
    ensures ValidateRegistration(req).None? && fault.LookupFails? ==> o.response == Forward(fault.err)
    ensures ValidateRegistration(req).None? && fault.SaveFails? && FindByEmail(s, NewUser(freshId, req).email).None?
            ==> o.response == Forward(fault.err)
  {
    var invalid := ValidateRegistration(req);
    if invalid.Some? then RegisterOutcome(Err(422, invalid.value), s)
    else if fault.LookupFails? then RegisterOutcome(Forward(fault.err), s)
    else if FindByEmail(s, NewUser(freshId, req).email).Some? then RegisterOutcome(Err(422, MsgEmailInUse), s)
    else if fault.SaveFails? then RegisterOutcome(Forward(fault.err), s)
    else
      var u := NewUser(freshId, req);
      RegisterOutcome(Ok(201, SessionFor(u)), s + [u])
  }

  class UserStore {
    var users: seq<User>
    var nextId: Id

    ghost predicate Valid()
      reads this
    {
      UsersWellformed(users, nextId)
    }

    constructor ()
      ensures Valid() && users == [] && nextId == 0
    {
      users := [];
      nextId := 0;
    }

    /** `register`: validate, look the email up, then create and save. */
    method Register(req: Registration, fault: RegisterFault) returns (r: Response<Session>)
      requires Valid()
      modifies this
      ensures Valid()
      ensures RegisterOutcome(r, users) == RegisterEffect(old(users), old(nextId), req, fault)
      ensures nextId == old(nextId) + |users| - |old(users)|
    {
      var invalid := ValidateRegistration(req);
      if invalid.Some? {
        return Err(422, invalid.value);
      }
      if fault.LookupFails? {
        return Forward(fault.err);
      }
      var user := NewUser(nextId, req);
      var existing := FindByEmail(users, user.email);
      if existing.Some? {
        return Err(422, MsgEmailInUse);
      }
      if fault.SaveFails? {
        return Forward(fault.err);
      }
      RegisterKeepsWellformed(users, nextId, req, fault);
      users := users + [user];
      nextId := nextId + 1;
      r := Ok(201, SessionFor(user));
    }
  }

  // ----- Properties -----

  /** The first missing field decides the message, whatever follows it. */
  lemma ValidateReportsFirstMissing(req: Registration, i: nat)
    requires i < 4 && !Truthy(Required(req)[i])
    requires forall j :: 0 <= j < i ==> Truthy(Required(req)[j])
    ensures ValidateRegistration(req) == Some(RequiredMessages[i])
  {
  }

  /** Each message names its field after its first character, so a client
      can tell from the message which field was missing. */
  lemma MessagesNameTheirFields()
    ensures forall i :: 0 <= i < 4 ==> Mentions(RequiredMessages[i], FieldNames[i])
  {
    EmailMessageNamesField();
    DisplayNameMessageNamesField();
    PasswordMessageNamesField();
    TimeZoneMessageNamesField();
  }

  lemma EmailMessageNamesField()
    ensures Mentions(MsgNoEmail, "email")
  {
    assert MsgNoEmail[18..23] == "email";
    MentionedAt(MsgNoEmail, "email", 18);
  }

  lemma DisplayNameMessageNamesField()
    ensures Mentions(MsgNoDisplayName, "display name")
  {
    assert MsgNoDisplayName[17..29] == "display name";
    MentionedAt(MsgNoDisplayName, "display name", 17);
  }

  lemma PasswordMessageNamesField()
    ensures Mentions(MsgNoPassword, "password")
  {
    assert MsgNoPassword[17..25] == "password";
    MentionedAt(MsgNoPassword, "password", 17);
  }

  lemma TimeZoneMessageNamesField()
    ensures Mentions(MsgNoTimeZone, "time zone")
  {
    assert MsgNoTimeZone[17..26] == "time zone";
    MentionedAt(MsgNoTimeZone, "time zone", 17);
  }

  /** A name that occurs after the first character of a message, and does
      not share its first character, is mentioned by it. */
  lemma MentionedAt(msg: string, name: string, i: int)
    requires 0 < i && OccursAt(msg, name, i)
    requires name != [] && msg[0] != name[0]
    ensures Mentions(msg, name)
  {
    assert msg[0..|name|][0] != name[0];
  }

  /** Only a created account changes the store: every other outcome leaves
      the users as they were, and a creation adds exactly one user. */
  lemma RegisterWritesOnlyOnSuccess(s: seq<User>, freshId: Id, req: Registration, fault: RegisterFault)
    ensures var o := RegisterEffect(s, freshId, req, fault);
            && (!o.response.Ok? ==> o.users == s)
            && (o.response.Ok? ==> |o.users| == |s| + 1 && o.users[..|s|] == s)
  {
  }

  /** A successful registration stores the requested user, unverified, and
      answers 201 with that user's public view and a token carrying it. */
  lemma RegisterCreates(s: seq<User>, freshId: Id, req: Registration, fault: RegisterFault)
    requires RegisterEffect(s, freshId, req, fault).response.Ok?
    ensures var o := RegisterEffect(s, freshId, req, fault);
            var info := UserInfo(freshId, req.displayName.value, req.email.value);
            && ValidateRegistration(req).None? && fault == NoFault
            && o.users == s + [User(freshId, req.displayName.value, req.timeZone.value,
                                    req.email.value, req.password.value, false)]
            && o.response == Ok(201, Session(Sign(info), info))
            && Verify(o.response.body.token) == info
  {
    assert ValidateRegistration(req).None?;
    assert Truthy(Required(req)[0]) && Truthy(Required(req)[1]);
    assert Truthy(Required(req)[2]) && Truthy(Required(req)[3]);
  }

  /** A registration whose email some stored user has is refused with 422,
      unless the lookup itself fails. */
  lemma RegisterRejectsTakenEmail(s: seq<User>, freshId: Id, req: Registration, fault: RegisterFault, k: nat)
    requires ValidateRegistration(req).None? && !fault.LookupFails?
    requires k < |s| && Some(s[k].email) == req.email
    ensures RegisterEffect(s, freshId, req, fault) == RegisterOutcome(Err(422, MsgEmailInUse), s)
  {
    var u := NewUser(freshId, req);
    assert s[k].email == u.email;
  }

  /** Every registration keeps the store well formed; in particular no two
      users ever share an email. */
  lemma RegisterKeepsWellformed(s: seq<User>, freshId: Id, req: Registration, fault: RegisterFault)
    requires UsersWellformed(s, freshId)
    ensures UsersWellformed(RegisterEffect(s, freshId, req, fault).users, freshId + 1)
  {
  }

  /** Registering the same email twice: once the first registration has
      succeeded, the second one is refused and writes nothing. */
  lemma {:induction false} RegisterTwiceRejected(s: seq<User>, freshId: Id, req1: Registration, fault1: RegisterFault,
                                                 req2: Registration, fault2: RegisterFault)
    requires RegisterEffect(s, freshId, req1, fault1).response.Ok?
    requires ValidateRegistration(req2).None? && !fault2.LookupFails?
    requires req2.email == req1.email
    ensures var s' := RegisterEffect(s, freshId, req1, fault1).users;
            RegisterEffect(s', freshId + 1, req2, fault2) == RegisterOutcome(Err(422, MsgEmailInUse), s')
  {
    RegisterCreates(s, freshId, req1, fault1);
    var s' := RegisterEffect(s, freshId, req1, fault1).users;
    RegisterRejectsTakenEmail(s', freshId + 1, req2, fault2, |s|);
  }

  /** Nothing the handlers send depends on the password, the time zone or
      the verified flag. */
  lemma SessionHidesSecrets(u: User, password: string, timeZone: string, verified: bool)
    ensures SessionFor(u.(password := password, timeZone := timeZone, verified := verified)) == SessionFor(u)
  {
  }

  /** The projection is exactly id, display name and email: two users get the
      same public view if and only if these three agree. */
  lemma SetUserInfoExact(u1: User, u2: User)
    ensures SetUserInfo(u1) == SetUserInfo(u2)
            <==> u1.id == u2.id && u1.displayName == u2.displayName && u1.email == u2.email
  {
  }
}
