/** The database records that registration writes and login reads: the actor, identity and
    account rows of `lamia/models`, reduced to the columns these two operations touch. */
module Models {

  /** A bcrypt hash kept symbolically as the secret it was made from. */
  datatype PasswordHash = Bcrypt(secret: string)

  /** `Account.set_password`: the hash accepts the password it was made from and no other. */
  function SetPassword(password: string): (h: PasswordHash)
    ensures CheckPassword(h, password)
    ensures forall other :: CheckPassword(h, other) ==> other == password
  {
    Bcrypt(password)
  }

  /** `Account.check_password`: does `password` hash to `h`? */
  predicate CheckPassword(h: PasswordHash, password: string) {
    h.secret == password
  }

  /** A row of `actors`, with the ActivityPub fields registration fills in. */
  datatype Actor = Actor(
    key: nat,
    id: string,
    kind: string,
    url: string,
    followers: string,
    following: string,
    inbox: string,
    outbox: string,
    name: string,
    preferredUsername: string,
    identityKey: nat)

  /** A row of `identities`. */
  datatype Identity = Identity(
    key: nat,
    actorKey: nat,
    accountKey: nat,
    displayName: string,
    userName: string,
    disabled: bool,
    created: int,
    lastUpdated: int)

  /** A row of `accounts`. */
  datatype Account = Account(
    key: nat,
    emailAddress: string,
    password: PasswordHash,
    primaryIdentityKey: nat,
    created: int)

  /** The three tables, each in the order a query without `ORDER BY` returns its rows. */
  datatype Store = Store(actors: seq<Actor>, identities: seq<Identity>, accounts: seq<Account>)
}
