/** `LoginUser.mutate` in `lamia/views/graph/users/mutations.py`: the name typed is looked up
    first as an account's email address and then as an identity's user name, and a token is
    granted for the row found when its account accepts the password. */
module LoginUser {
  import opened Wrappers
  import opened Strings
  import opened Models
  import RegisterUser

  /** Both ways of failing raise the same `GraphQLError`, "Invalid username or password." */
  datatype LoginError = InvalidCredentials

  /** What the issued `OauthToken` carries: the account it belongs to and the
      `identity_id` put into it. */
  datatype Grant = Grant(accountKey: nat, identityKey: nat)

  // ---------------------------------------------------------------------------------------
  // `Account.join(Identity, Account.id == Identity.account_id)`

  /** One row of the join. */
  datatype Row = Row(account: Account, identity: Identity)

  /** The rows one account contributes, in identity order. */
  function RowsOf(a: Account, ids: seq<Identity>): seq<Row>
    decreases |ids|
  {
    if |ids| == 0 then []
    else (if ids[0].accountKey == a.key then [Row(a, ids[0])] else []) + RowsOf(a, ids[1..])
  }

  /** The inner join, account by account. */
  function JoinRows(accounts: seq<Account>, ids: seq<Identity>): seq<Row>
    decreases |accounts|
  {
    if |accounts| == 0 then [] else RowsOf(accounts[0], ids) + JoinRows(accounts[1..], ids)
  }

  lemma {:induction false} RowsOfMembers(a: Account, ids: seq<Identity>, r: Row)
    ensures r in RowsOf(a, ids) <==> r.account == a && r.identity in ids && r.identity.accountKey == a.key
    decreases |ids|
  {
    if |ids| > 0 {
      RowsOfMembers(a, ids[1..], r);
      assert ids == [ids[0]] + ids[1..];
    }
  }

  /** A row is in the join exactly when its account and identity are stored and the
      identity belongs to the account. */
  lemma {:induction false} JoinRowsMembers(accounts: seq<Account>, ids: seq<Identity>, r: Row)
    ensures r in JoinRows(accounts, ids) <==>
      r.account in accounts && r.identity in ids && r.identity.accountKey == r.account.key
    decreases |accounts|
  {
    if |accounts| > 0 {
      RowsOfMembers(accounts[0], ids, r);
      JoinRowsMembers(accounts[1..], ids, r);
      assert accounts == [accounts[0]] + accounts[1..];
    }
  }

  // ---------------------------------------------------------------------------------------
  // The two lookups

  /** The two `WHERE` clauses. */
  datatype Key = ByEmail(email: string) | ByUserName(name: string)

  predicate Matches(r: Row, key: Key) {
    match key
    case ByEmail(e) => r.account.emailAddress == e
    case ByUserName(n) => r.identity.userName == n
  }

  /** `.first()`: the position of the first row the clause selects. */
  function First(rows: seq<Row>, key: Key): (i: Option<nat>)
    ensures i.Some? ==> i.value < |rows| && Matches(rows[i.value], key)
    ensures i.Some? ==> forall j :: 0 <= j < i.value ==> !Matches(rows[j], key)
    ensures i.None? ==> forall j :: 0 <= j < |rows| ==> !Matches(rows[j], key)
    decreases |rows|
  {
    if |rows| == 0 then None
    else if Matches(rows[0], key) then Some(0)
    else
      match First(rows[1..], key)
      case None => None
      case Some(k) => Some(k + 1)
  }

  /** The first matching row is the one every earlier row fails to match. */
  lemma FirstIs(rows: seq<Row>, key: Key, k: nat)
    requires k < |rows| && Matches(rows[k], key)
    requires forall j :: 0 <= j < k ==> !Matches(rows[j], key)
    ensures First(rows, key) == Some(k)
  {
  }

  /** Lines 33-48: the row found for `userName`, trying email addresses before user names. */
  function Lookup(db: Store, userName: string): (r: Option<Row>)
    ensures r.Some? ==> r.value in JoinRows(db.accounts, db.identities)
    ensures r.Some? ==> Matches(r.value, ByEmail(userName)) || Matches(r.value, ByUserName(userName))
    ensures r.None? <==> forall x :: x in JoinRows(db.accounts, db.identities) ==>
                           !Matches(x, ByEmail(userName)) && !Matches(x, ByUserName(userName))
  {
    var rows := JoinRows(db.accounts, db.identities);
    match First(rows, ByEmail(userName))
    case Some(i) => Some(rows[i])
    case None =>
      match First(rows, ByUserName(userName))
      case Some(i) => Some(rows[i])
      case None => None
  }

  /** Some row that either clause selects for `userName` belongs to an account accepting
      `password`, and `g` names that row's account and identity. */
  ghost predicate Grants(db: Store, userName: string, password: string, g: Grant) {
    exists x :: x in JoinRows(db.accounts, db.identities) &&
      (Matches(x, ByEmail(userName)) || Matches(x, ByUserName(userName))) &&
      CheckPassword(x.account.password, password) &&
      g == Grant(x.account.key, x.identity.key)
  }

  /** `LoginUser.mutate`: the row the lookup finds decides alone; a grant names its account
      and identity exactly when its account accepts the password. */
  function Login(db: Store, userName: string, password: string): (r: Result<Grant, LoginError>)
    ensures r.Success? ==> Grants(db, userName, password, r.value)
    ensures r.Success? <==> Lookup(db, userName).Some? &&
                            CheckPassword(Lookup(db, userName).value.account.password, password)
    ensures r.Success? ==> r.value == Grant(Lookup(db, userName).value.account.key,
                                            Lookup(db, userName).value.identity.key)
    ensures (forall x :: x in JoinRows(db.accounts, db.identities) ==>
               !Matches(x, ByEmail(userName)) && !Matches(x, ByUserName(userName)))
            ==> r == Failure(InvalidCredentials)
  {
    match Lookup(db, userName)
    case None => Failure(InvalidCredentials)
    case Some(x) =>
      if CheckPassword(x.account.password, password) then Success(Grant(x.account.key, x.identity.key))
      else Failure(InvalidCredentials)
  }

  /** Lines 40-48: a row matching by email address always wins over a row matching by user
      name, so when one exists the grant, if any, is for an account with that address. */
  lemma EmailMatchTakesPriority(db: Store, userName: string, password: string, x: Row)
    requires x in JoinRows(db.accounts, db.identities) && Matches(x, ByEmail(userName))
    ensures Lookup(db, userName).Some? && Matches(Lookup(db, userName).value, ByEmail(userName))
    ensures Login(db, userName, password).Success? ==>
      exists y :: y in JoinRows(db.accounts, db.identities) && Matches(y, ByEmail(userName)) &&
                  Login(db, userName, password).value.accountKey == y.account.key
  {
    var rows := JoinRows(db.accounts, db.identities);
    var k :| 0 <= k < |rows| && rows[k] == x;
    assert First(rows, ByEmail(userName)).Some?;
  }

  /** An account whose email address is someone else's user name hides that user: the
      user name is never tried, even with that user's own password. Registration alone does
      not write such rows, since `validate_email` wants an `@` and a user name cannot hold
      one; the shadowing needs an account whose address was written by other means. */
  lemma EmailShadowsUserName()
    ensures
      var alice := Account(1, "bob", SetPassword("alice-secret"), 1, 0);
      var bob := Account(2, "bob@example.org", SetPassword("bob-secret"), 2, 0);
      var db := Store([], [Identity(1, 1, 1, "alice", "alice", false, 0, 0),
                           Identity(2, 2, 2, "bob", "bob", false, 0, 0)], [alice, bob]);
      Login(db, "bob", "bob-secret") == Failure(InvalidCredentials)
  {
    var alice := Account(1, "bob", SetPassword("alice-secret"), 1, 0);
    var bob := Account(2, "bob@example.org", SetPassword("bob-secret"), 2, 0);
    var ids := [Identity(1, 1, 1, "alice", "alice", false, 0, 0), Identity(2, 2, 2, "bob", "bob", false, 0, 0)];
    var db := Store([], ids, [alice, bob]);
    var rows := JoinRows(db.accounts, db.identities);
    assert RowsOf(alice, ids) == [Row(alice, ids[0])] by {
      assert RowsOf(alice, ids[1..]) == [] by {
        assert ids[1..][1..] == [];
      }
    }
    assert rows[0] == Row(alice, ids[0]);
    FirstIs(rows, ByEmail("bob"), 0);
  }

  // ---------------------------------------------------------------------------------------
  // Registering and then logging in

  /** The database hands out an account id that no stored identity points at yet. */
  predicate FreshAccountKey(db: Store, keys: RegisterUser.Keys) {
    forall i :: 0 <= i < |db.identities| ==> db.identities[i].accountKey != keys.account
  }

  lemma {:induction false} JoinRowsSnoc(accounts: seq<Account>, a: Account, ids: seq<Identity>)
    ensures JoinRows(accounts + [a], ids) == JoinRows(accounts, ids) + RowsOf(a, ids)
    decreases |accounts|
  {
    if |accounts| == 0 {
      assert accounts + [a] == [a];
    } else {
      assert (accounts + [a])[1..] == accounts[1..] + [a];
      JoinRowsSnoc(accounts[1..], a, ids);
    }
  }

  lemma {:induction false} RowsOfSnoc(a: Account, ids: seq<Identity>, id: Identity)
    ensures RowsOf(a, ids + [id]) == RowsOf(a, ids) + (if id.accountKey == a.key then [Row(a, id)] else [])
    decreases |ids|
  {
    if |ids| == 0 {
      assert ids + [id] == [id];
    } else {
      assert (ids + [id])[1..] == ids[1..] + [id];
      RowsOfSnoc(a, ids[1..], id);
    }
  }

  lemma {:induction false} RowsOfNone(a: Account, ids: seq<Identity>)
    requires forall i :: 0 <= i < |ids| ==> ids[i].accountKey != a.key
    ensures RowsOf(a, ids) == []
    decreases |ids|
  {
    if |ids| > 0 {
      RowsOfNone(a, ids[1..]);
    }
  }

  /** After a registration, the new account's only row comes last in the join. */
  lemma JoinAfterRegister(db: Store, ctx: RegisterUser.Context, req: RegisterUser.Request)
    requires RegisterUser.Register(db, ctx, req).Success?
    requires FreshAccountKey(db, ctx.keys)
    ensures
      var reg := RegisterUser.Register(db, ctx, req).value;
      var db' := RegisterUser.Apply(db, reg);
      JoinRows(db'.accounts, db'.identities) ==
        JoinRows(db.accounts, db'.identities) + [Row(reg.account, reg.identity)]
  {
    var reg := RegisterUser.Register(db, ctx, req).value;
    var ids := db.identities + [reg.identity];
    JoinRowsSnoc(db.accounts, reg.account, ids);
    RowsOfSnoc(reg.account, db.identities, reg.identity);
    RowsOfNone(reg.account, db.identities);
  }

  /** After a registration, logging in with the email address finds the new account and
      identity. */
  lemma LookupAfterRegister(db: Store, ctx: RegisterUser.Context, req: RegisterUser.Request)
    requires RegisterUser.Register(db, ctx, req).Success?
    requires FreshAccountKey(db, ctx.keys)
    ensures
      var reg := RegisterUser.Register(db, ctx, req).value;
      Lookup(RegisterUser.Apply(db, reg), req.emailAddress) == Some(Row(reg.account, reg.identity))
  {
    var reg := RegisterUser.Register(db, ctx, req).value;
    var db' := RegisterUser.Apply(db, reg);
    var prefix := JoinRows(db.accounts, db'.identities);
    var rows := JoinRows(db'.accounts, db'.identities);
    JoinAfterRegister(db, ctx, req);
    forall j | 0 <= j < |prefix| ensures !Matches(prefix[j], ByEmail(req.emailAddress)) {
      JoinRowsMembers(db.accounts, db'.identities, prefix[j]);
      var i :| 0 <= i < |db.accounts| && db.accounts[i] == prefix[j].account;
    }
    assert rows[|prefix|] == Row(reg.account, reg.identity);
    FirstIs(rows, ByEmail(req.emailAddress), |prefix|);
  }

  /** As written: logging in with exactly the stripped password that registration stored
      succeeds. */
  lemma RegisterThenLogin(db: Store, ctx: RegisterUser.Context, req: RegisterUser.Request)
    requires RegisterUser.Register(db, ctx, req).Success?
    requires FreshAccountKey(db, ctx.keys)
    ensures Login(RegisterUser.Apply(db, RegisterUser.Register(db, ctx, req).value),
                  req.emailAddress, Strip(req.password))
         == Success(Grant(ctx.keys.account, ctx.keys.identity))
  {
    LookupAfterRegister(db, ctx, req);
  }

  /** As written: line 88 strips the password before it is stored but line 51 checks the
      password exactly as typed, so a password registered with surrounding whitespace is
      refused when typed the same way again. */
  lemma UntrimmedPasswordLocksOut(db: Store, ctx: RegisterUser.Context, req: RegisterUser.Request)
    requires RegisterUser.Register(db, ctx, req).Success?
    requires FreshAccountKey(db, ctx.keys)
    requires Strip(req.password) != req.password
    ensures Login(RegisterUser.Apply(db, RegisterUser.Register(db, ctx, req).value),
                  req.emailAddress, req.password)
         == Failure(InvalidCredentials)
  {
    LookupAfterRegister(db, ctx, req);
  }

  /** The lockout on a concrete registration: `" hunter2"` is accepted at registration and
      refused at login. */
  lemma UntrimmedPasswordExample(ctx: RegisterUser.Context)
    requires ctx.validate("lamia@lamia.social") == RegisterUser.Deliverable
    ensures
      var req := RegisterUser.Request("lamia", "lamia@lamia.social", " hunter2");
      var db := Store([], [], []);
      RegisterUser.Register(db, ctx, req).Success? &&
      Login(RegisterUser.Apply(db, RegisterUser.Register(db, ctx, req).value), "lamia@lamia.social", " hunter2")
        == Failure(InvalidCredentials)
  {
    var req := RegisterUser.Request("lamia", "lamia@lamia.social", " hunter2");
    var db := Store([], [], []);
    StripLeadingSpace();
    NameLamia();
    assert RegisterUser.Register(db, ctx, req).Success?;
    UntrimmedPasswordLocksOut(db, ctx, req);
  }

  lemma StripLeadingSpace()
    ensures Strip(" hunter2") == "hunter2"
  {
    var pw := " hunter2";
    assert IsSpace(pw[0]);
    assert pw[1..] == "hunter2";
    assert LeadingSpace(pw) == 1;
    assert pw[1..] == "hunter2";
    assert TrailingSpace("hunter2") == 0;
    assert "hunter2"[..7] == "hunter2";
  }

  lemma NameLamia()
    ensures RegisterUser.NameMatches("lamia")
  {
    RegisterUser.NameMatchesIff("lamia");
    assert RegisterUser.IsNameWord("lamia");
  }

  /** Corrected: the password typed at login is stripped the way registration strips it. */
  function LoginTrimmed(db: Store, userName: string, password: string): (r: Result<Grant, LoginError>)
    ensures r.Success? ==> Grants(db, userName, Strip(password), r.value)
    ensures r.Success? <==> Lookup(db, userName).Some? &&
                            CheckPassword(Lookup(db, userName).value.account.password, Strip(password))
    ensures r.Success? ==> r.value == Grant(Lookup(db, userName).value.account.key,
                                            Lookup(db, userName).value.identity.key)
    ensures (forall x :: x in JoinRows(db.accounts, db.identities) ==>
               !Matches(x, ByEmail(userName)) && !Matches(x, ByUserName(userName)))
            ==> r == Failure(InvalidCredentials)
  {
    Login(db, userName, Strip(password))
  }

  /** Corrected: whatever password registration accepted, typing it again logs in, and the
      grant is for the new account and identity. */
  lemma RegisterThenLoginTrimmed(db: Store, ctx: RegisterUser.Context, req: RegisterUser.Request)
    requires RegisterUser.Register(db, ctx, req).Success?
    requires FreshAccountKey(db, ctx.keys)
    ensures LoginTrimmed(RegisterUser.Apply(db, RegisterUser.Register(db, ctx, req).value),
                         req.emailAddress, req.password)
         == Success(Grant(ctx.keys.account, ctx.keys.identity))
  {
    RegisterThenLogin(db, ctx, req);
  }

  /** The correction changes nothing for a password without surrounding whitespace. */
  lemma LoginTrimmedAgrees(db: Store, userName: string, password: string)
    requires Strip(password) == password
    ensures LoginTrimmed(db, userName, password) == Login(db, userName, password)
  {
  }
}
