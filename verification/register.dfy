/** `RegisterUser.mutate` in `lamia/views/graph/users/mutations.py`: five checks in a fixed
    order, then an actor, an identity and an account built from the request and linked
    to each other. The database is the `Store` it is given, and the outside world (the email
    validator, the clock and the keys the database hands out) comes in through `Context`. */
module RegisterUser {
  import opened Wrappers
  import opened Strings
  import opened Models

  /** What `email_validator.validate_email` does with an address: return normally, raise
      `EmailSyntaxError`, or raise `EmailUndeliverableError`. */
  datatype EmailVerdict = Deliverable | SyntaxError | Undeliverable

  /** The five `GraphQLError`s registration can raise. */
  datatype RegisterError =
    | /** "Email address as entered is not a valid email address." */
      InvalidEmail
    | /** "Password is too short! Should be at least five characters in length." */
      PasswordTooShort
    | /** "Invalid user name. Characters allowed are a-z and _." */
      InvalidUserName
    | /** "This email address is already in use for another account." */
      EmailTaken
    | /** "This user name is already in use. User names must be unique." */
      UserNameTaken

  /** The mutation's three arguments. */
  datatype Request = Request(userName: string, emailAddress: string, password: string)

  /** The row ids the database assigns to the three new rows. */
  datatype Keys = Keys(actor: nat, identity: nat, account: nat)

  /** Everything registration takes from outside the database: `BASE_URL`, the email
      validator, `pendulum.now()` and the new row ids. */
  datatype Context = Context(baseUrl: string, validate: string -> EmailVerdict, now: int, keys: Keys)

  /** The `IdentityObjectType` the mutation returns. */
  datatype IdentityView = IdentityView(displayName: string, userName: string, uri: string, avatar: string, created: int)

  /** The three rows written and the value returned. */
  datatype Registration = Registration(actor: Actor, identity: Identity, account: Account, view: IdentityView)

  const MinPasswordLength: nat := 5

  // ---------------------------------------------------------------------------------------
  // `ALLOWED_NAME_CHARACTERS_RE`: from the start, one or more ASCII letters or underscores up to
  // the end of the text, where `$` also accepts a single trailing newline

  predicate IsNameChar(c: char) {
    ('a' <= c <= 'z') || ('A' <= c <= 'Z') || c == '_'
  }

  /** Length of the greedy `[a-zA-Z_]+` run at the start of `s`. */
  function NameRun(s: string): (n: nat)
    ensures n <= |s|
    ensures forall k :: 0 <= k < n ==> IsNameChar(s[k])
    ensures n == |s| || !IsNameChar(s[n])
    decreases |s|
  {
    if |s| > 0 && IsNameChar(s[0]) then 1 + NameRun(s[1..]) else 0
  }

  /** `ALLOWED_NAME_CHARACTERS_RE.match(s) is not None`: the run is non-empty and reaches the
      end of `s`, or stops right before a final newline, where Python's `$` also matches. */
  predicate NameMatches(s: string) {
    var n := NameRun(s);
    n > 0 && (n == |s| || (n == |s| - 1 && s[n] == '\n'))
  }

  /** A non-empty string of ASCII letters and underscores. */
  predicate IsNameWord(w: string) {
    |w| > 0 && forall k :: 0 <= k < |w| ==> IsNameChar(w[k])
  }

  lemma NameRunCovers(s: string, m: nat)
    requires m <= |s| && forall k :: 0 <= k < m ==> IsNameChar(s[k])
    ensures NameRun(s) >= m
  {
  }

  /** The pattern accepts exactly a name word, optionally followed by one newline. */
  lemma NameMatchesIff(s: string)
    ensures NameMatches(s) <==>
      (IsNameWord(s) || (|s| > 0 && s[|s| - 1] == '\n' && IsNameWord(s[..|s| - 1])))
  {
    var n := NameRun(s);
    if IsNameWord(s) {
      NameRunCovers(s, |s|);
    }
    if |s| > 0 && s[|s| - 1] == '\n' && IsNameWord(s[..|s| - 1]) {
      NameRunCovers(s, |s| - 1);
      assert !IsNameChar(s[|s| - 1]);
    }
    if NameMatches(s) && n == |s| - 1 {
      assert IsNameWord(s[..n]);
    }
  }

  /** The trailing newline `$` lets through. */
  lemma NameWithNewlineAccepted()
    ensures NameMatches("lamia\n")
    ensures !NameMatches("lamia\n\n") && !NameMatches("") && !NameMatches("la mia")
  {
    var s := "lamia\n";
    NameMatchesIff(s);
    assert s[..5] == "lamia";
    assert IsNameWord("lamia");
    var t := "lamia\n\n";
    NameMatchesIff(t);
    assert !IsNameChar(t[..6][5]);
    var u := "la mia";
    NameMatchesIff(u);
    assert !IsNameChar(u[2]);
  }

  // ---------------------------------------------------------------------------------------
  // Lines 98-111: the uniqueness queries

  /** Some account already has this email address. */
  predicate EmailInUse(db: Store, email: string) {
    exists i :: 0 <= i < |db.accounts| && db.accounts[i].emailAddress == email
  }

  /** Some identity already has this name as its user name or its display name. */
  predicate NameInUse(db: Store, name: string) {
    exists i :: 0 <= i < |db.identities| &&
      (db.identities[i].userName == name || db.identities[i].displayName == name)
  }

  // ---------------------------------------------------------------------------------------
  // Lines 113-152: the new records

  /** `f'{BASE_URL}/u/{user_name}'` */
  function ActorId(baseUrl: string, userName: string): string {
    baseUrl + "/u/" + userName
  }

  /** Different user names give different actor ids on the same server. */
  lemma ActorIdInjective(baseUrl: string, a: string, b: string)
    requires ActorId(baseUrl, a) == ActorId(baseUrl, b)
    ensures a == b
  {
    var p := baseUrl + "/u/";
    assert a == ActorId(baseUrl, a)[|p|..];
    assert b == ActorId(baseUrl, b)[|p|..];
  }

  /** How the four rows of one registration point at each other: the actor and the identity
      name each other, the identity and the account name each other, the collections hang
      under the actor id, the returned view names the actor, and all share one timestamp. */
  predicate Linked(reg: Registration) {
    && reg.actor.identityKey == reg.identity.key
    && reg.identity.actorKey == reg.actor.key
    && reg.identity.accountKey == reg.account.key
    && reg.account.primaryIdentityKey == reg.identity.key
    && reg.actor.url == reg.actor.id
    && reg.actor.followers == reg.actor.id + "/followers"
    && reg.actor.following == reg.actor.id + "/following"
    && reg.actor.inbox == reg.actor.id + "/inbox"
    && reg.actor.outbox == reg.actor.id + "/outbox"
    && reg.view.uri == reg.actor.id
    && reg.identity.created == reg.identity.lastUpdated == reg.account.created == reg.view.created
  }

  /** What the rows take from the request and the context. */
  ghost predicate Describes(reg: Registration, ctx: Context, req: Request) {
    && reg.actor.key == ctx.keys.actor
    && reg.identity.key == ctx.keys.identity
    && reg.account.key == ctx.keys.account
    && reg.actor.id == ActorId(ctx.baseUrl, req.userName)
    && reg.actor.kind == "Person"
    && reg.actor.name == req.userName && reg.actor.preferredUsername == req.userName
    && reg.identity.userName == req.userName && reg.identity.displayName == req.userName
    && !reg.identity.disabled
    && reg.account.emailAddress == req.emailAddress
    && CheckPassword(reg.account.password, Strip(req.password))
    && (forall p :: CheckPassword(reg.account.password, p) ==> p == Strip(req.password))
    && reg.account.created == ctx.now
    && reg.view.userName == req.userName && reg.view.displayName == req.userName
    && reg.view.avatar == ""
  }

  /** Lines 113-152 for a request that passed every check. */
  function Build(ctx: Context, req: Request): (reg: Registration)
    ensures Linked(reg) && Describes(reg, ctx, req)
  {
    var id := ActorId(ctx.baseUrl, req.userName);
    var actor := Actor(ctx.keys.actor, id, "Person", id, id + "/followers", id + "/following",
                       id + "/inbox", id + "/outbox", req.userName, req.userName, ctx.keys.identity);
    var identity := Identity(ctx.keys.identity, ctx.keys.actor, ctx.keys.account,
                             req.userName, req.userName, false, ctx.now, ctx.now);
    var account := Account(ctx.keys.account, req.emailAddress, SetPassword(Strip(req.password)),
                           ctx.keys.identity, ctx.now);
    var view := IdentityView(req.userName, req.userName, id, "", account.created);
    Registration(actor, identity, account, view)
  }

  // ---------------------------------------------------------------------------------------
  // The mutation

  /** `RegisterUser.mutate`: the first failing check decides the error; only when all pass
      are the records built. */
  function Register(db: Store, ctx: Context, req: Request): (r: Result<Registration, RegisterError>)
    ensures r.Success? <==>
      && ctx.validate(req.emailAddress) != SyntaxError
      && |Strip(req.password)| >= MinPasswordLength
      && NameMatches(req.userName)
      && !EmailInUse(db, req.emailAddress)
      && !NameInUse(db, req.userName)
    ensures r.Success? ==> Linked(r.value) && Describes(r.value, ctx, req)
    ensures r == Failure(InvalidEmail) <==> ctx.validate(req.emailAddress) == SyntaxError
  {
    if ctx.validate(req.emailAddress) == SyntaxError then Failure(InvalidEmail)
    else if |Strip(req.password)| < MinPasswordLength then Failure(PasswordTooShort)
    else if !NameMatches(req.userName) then Failure(InvalidUserName)
    else if EmailInUse(db, req.emailAddress) then Failure(EmailTaken)
    else if NameInUse(db, req.userName) then Failure(UserNameTaken)
    else Success(Build(ctx, req))
  }

  /** The database once the three rows are inserted. */
  function Apply(db: Store, reg: Registration): (db': Store)
    ensures forall e :: EmailInUse(db', e) <==> EmailInUse(db, e) || e == reg.account.emailAddress
    ensures forall n :: NameInUse(db', n) <==>
      NameInUse(db, n) || n == reg.identity.userName || n == reg.identity.displayName
  {
    var db' := Store(db.actors + [reg.actor], db.identities + [reg.identity], db.accounts + [reg.account]);
    ApplyInUse(db, reg, db');
    db'
  }

  lemma ApplyInUse(db: Store, reg: Registration, db': Store)
    requires db'.accounts == db.accounts + [reg.account]
    requires db'.identities == db.identities + [reg.identity]
    ensures forall e :: EmailInUse(db', e) <==> EmailInUse(db, e) || e == reg.account.emailAddress
    ensures forall n :: NameInUse(db', n) <==>
      NameInUse(db, n) || n == reg.identity.userName || n == reg.identity.displayName
  {
    forall e ensures EmailInUse(db', e) <==> EmailInUse(db, e) || e == reg.account.emailAddress {
      if EmailInUse(db, e) {
        var i :| 0 <= i < |db.accounts| && db.accounts[i].emailAddress == e;
        assert db'.accounts[i] == db.accounts[i];
      }
      if e == reg.account.emailAddress {
        assert db'.accounts[|db.accounts|] == reg.account;
      }
      if EmailInUse(db', e) {
        var i :| 0 <= i < |db'.accounts| && db'.accounts[i].emailAddress == e;
        if i < |db.accounts| {
          assert db'.accounts[i] == db.accounts[i];
        }
      }
    }
    forall n ensures NameInUse(db', n) <==>
      NameInUse(db, n) || n == reg.identity.userName || n == reg.identity.displayName
    {
      if NameInUse(db, n) {
        var i :| 0 <= i < |db.identities| &&
          (db.identities[i].userName == n || db.identities[i].displayName == n);
        assert db'.identities[i] == db.identities[i];
      }
      if n == reg.identity.userName || n == reg.identity.displayName {
        assert db'.identities[|db.identities|] == reg.identity;
      }
      if NameInUse(db', n) {
        var i :| 0 <= i < |db'.identities| &&
          (db'.identities[i].userName == n || db'.identities[i].displayName == n);
        if i < |db.identities| {
          assert db'.identities[i] == db.identities[i];
        }
      }
    }
  }

  // ---------------------------------------------------------------------------------------
  // The order of the checks

  /** One validation step: whether it passed and the error it raises when it does not. */
  datatype Check = Check(passed: bool, error: RegisterError)

  /** Lines 80-111 as a list, in source order. */
  function Checks(db: Store, ctx: Context, req: Request): (cs: seq<Check>)
    ensures |cs| == 5
  {
    [ Check(ctx.validate(req.emailAddress) != SyntaxError, InvalidEmail),
      Check(|Strip(req.password)| >= MinPasswordLength, PasswordTooShort),
      Check(NameMatches(req.userName), InvalidUserName),
      Check(!EmailInUse(db, req.emailAddress), EmailTaken),
      Check(!NameInUse(db, req.userName), UserNameTaken) ]
  }

  /** The error of the first check that did not pass, if any. */
  function FirstFailure(cs: seq<Check>): Option<RegisterError>
    decreases |cs|
  {
    if |cs| == 0 then None
    else if !cs[0].passed then Some(cs[0].error)
    else FirstFailure(cs[1..])
  }

  /** `FirstFailure` names the error of a failed check that every earlier check passed, and
      finds none exactly when every check passed. */
  lemma {:induction false} FirstFailureIsFirst(cs: seq<Check>)
    ensures FirstFailure(cs).None? <==> forall i :: 0 <= i < |cs| ==> cs[i].passed
    ensures FirstFailure(cs).Some? ==>
      exists i :: 0 <= i < |cs| && !cs[i].passed && cs[i].error == FirstFailure(cs).value &&
                  forall j :: 0 <= j < i ==> cs[j].passed
    decreases |cs|
  {
    if |cs| > 0 && cs[0].passed {
      var t := cs[1..];
      FirstFailureIsFirst(t);
      if FirstFailure(t).Some? {
        var i :| 0 <= i < |t| && !t[i].passed && t[i].error == FirstFailure(t).value &&
                 forall j :: 0 <= j < i ==> t[j].passed;
        assert cs[i + 1] == t[i];
        forall j | 0 <= j < i + 1 ensures cs[j].passed {
          if j > 0 {
            assert cs[j] == t[j - 1];
          }
        }
      } else {
        forall i | 0 <= i < |cs| ensures cs[i].passed {
          if i > 0 {
            assert cs[i] == t[i - 1];
          }
        }
      }
    } else if |cs| > 0 {
      assert !cs[0].passed;
    }
  }

  /** Registration fails with exactly the error of the first failing check, and succeeds
      with the built records when none fails. */
  lemma RegisterFollowsChecks(db: Store, ctx: Context, req: Request)
    ensures Register(db, ctx, req) ==
      match FirstFailure(Checks(db, ctx, req))
      case Some(e) => Failure(e)
      case None => Success(Build(ctx, req))
  {
    var cs := Checks(db, ctx, req);
    FirstFailureIsFirst(cs);
    if FirstFailure(cs).Some? {
      var i :| 0 <= i < |cs| && !cs[i].passed && cs[i].error == FirstFailure(cs).value &&
               forall j :: 0 <= j < i ==> cs[j].passed;
      assert i == 0 || cs[0].passed;
      assert i <= 1 || cs[1].passed;
      assert i <= 2 || cs[2].passed;
      assert i <= 3 || cs[3].passed;
      assert Register(db, ctx, req) == Failure(cs[i].error);
    } else {
      assert cs[0].passed && cs[1].passed && cs[2].passed && cs[3].passed && cs[4].passed;
    }
  }

  /** Lines 85-86: an undeliverable address registers exactly as a deliverable one would. */
  lemma UndeliverableIgnored(db: Store, ctx: Context, req: Request)
    requires ctx.validate(req.emailAddress) == Undeliverable
    ensures Register(db, ctx, req) == Register(db, ctx.(validate := _ => Deliverable), req)
  {
  }

  /** Lines 88-92: the length test is on the stripped password, so surrounding whitespace
      neither helps nor hurts, and the stripped password is what the account accepts. */
  lemma PasswordStrippedFirst(db: Store, ctx: Context, req: Request)
    ensures Register(db, ctx, req) == Register(db, ctx, req.(password := Strip(req.password)))
    ensures Register(db, ctx, req).Success? ==>
      CheckPassword(Register(db, ctx, req).value.account.password, Strip(req.password))
  {
    StripIdempotent(req.password);
  }

  // ---------------------------------------------------------------------------------------
  // What registration keeps true of the database

  /** No two accounts share an email address. */
  predicate UniqueEmails(db: Store) {
    forall i, j :: 0 <= i < j < |db.accounts| ==> db.accounts[i].emailAddress != db.accounts[j].emailAddress
  }

  /** Some name of one identity is a name of the other. */
  predicate NamesClash(a: Identity, b: Identity) {
    a.userName == b.userName || a.userName == b.displayName ||
    a.displayName == b.userName || a.displayName == b.displayName
  }

  /** No two identities share a user or display name, in either role. */
  predicate UniqueNames(db: Store) {
    forall i, j :: 0 <= i < j < |db.identities| ==> !NamesClash(db.identities[i], db.identities[j])
  }

  /** A successful registration keeps both uniqueness invariants. */
  lemma RegisterKeepsUnique(db: Store, ctx: Context, req: Request)
    requires UniqueEmails(db) && UniqueNames(db)
    requires Register(db, ctx, req).Success?
    ensures UniqueEmails(Apply(db, Register(db, ctx, req).value))
    ensures UniqueNames(Apply(db, Register(db, ctx, req).value))
  {
    var reg := Register(db, ctx, req).value;
    var db' := Apply(db, reg);
    forall i, j | 0 <= i < j < |db'.accounts|
      ensures db'.accounts[i].emailAddress != db'.accounts[j].emailAddress
    {
      if j == |db.accounts| {
        assert db'.accounts[i] == db.accounts[i];
      }
    }
    forall i, j | 0 <= i < j < |db'.identities|
      ensures !NamesClash(db'.identities[i], db'.identities[j])
    {
      if j == |db.identities| {
        assert db'.identities[i] == db.identities[i];
      }
    }
  }

  /** Registering the same request twice: the second attempt finds its own email address. */
  lemma SecondRegistrationRejected(db: Store, ctx: Context, ctx2: Context, req: Request)
    requires Register(db, ctx, req).Success?
    requires ctx2.validate(req.emailAddress) == ctx.validate(req.emailAddress)
    ensures Register(Apply(db, Register(db, ctx, req).value), ctx2, req) == Failure(EmailTaken)
  {
    var db' := Apply(db, Register(db, ctx, req).value);
    assert db'.accounts[|db.accounts|].emailAddress == req.emailAddress;
  }

  /** A new email address with a name already registered is turned away by the name check. */
  lemma NameReuseRejected(db: Store, ctx: Context, req: Request, ctx2: Context, req2: Request)
    requires Register(db, ctx, req).Success?
    requires req2.userName == req.userName && req2.emailAddress != req.emailAddress
    requires ctx2.validate(req2.emailAddress) != SyntaxError
    requires |Strip(req2.password)| >= MinPasswordLength
    requires !EmailInUse(db, req2.emailAddress)
    ensures Register(Apply(db, Register(db, ctx, req).value), ctx2, req2) == Failure(UserNameTaken)
  {
    var db' := Apply(db, Register(db, ctx, req).value);
    assert db'.identities[|db.identities|].userName == req.userName;
  }
}
