# Lamia: webfinger normalisation, registration and login

A Dafny model of three pieces of the Lamia ActivityPub server:

- **Webfinger identifier normalisation** (`normalize` and `port_re` in
  `lamia/utilities/webfinger.py`). It turns what a user typed into the resource to ask for
  and the `https://` base of the server to ask. Examples of input are `acct:user@host`,
  `http(s)://host/path` and `host/@user`. It runs as a fixed pipeline:
  1. drop one `acct:`;
  2. drop `:digits` ports behind a stray-colon guard;
  3. take the first matching branch: URL, then email-like, then bare host.

  The part of Python's `urllib.parse.urlparse` the function reads, the `netloc`, is
  modelled too. It follows CPython 3.8.11 and later 3.8 releases:
  - tab, CR and LF are deleted;
  - the scheme is the text before the first `:`;
  - the netloc is the text after `//` up to `/`, `?` or `#`;
  - `ValueError` is raised when only one of `[` and `]` appears;
  - `ValueError` is also raised for a non-ASCII netloc that NFKC normalisation changes into
    text holding `/`, `?`, `#`, `@` or `:` (`_checknetloc`). NFKC itself
    (`unicodedata.normalize`) is a parameter `nfkc` of every operation that reaches it.
- **Registration** (`RegisterUser.mutate` in `lamia/views/graph/users/mutations.py`). Five
  checks run in a fixed order. Then an actor, an identity and an account are built, linked
  to each other, and added to the database.
- **Login** (`LoginUser.mutate` in the same file). The name typed is looked up first as an
  email address and then as a user name. A grant is issued only when the password checks.

Files (one module each):

| file | module | contents |
|---|---|---|
| `wrappers.dfy` | `Wrappers` | `Option`, `Result` |
| `strings.dfy` | `Strings` | Python `str` operations: `startswith`, `in`, `replace`, `find`, `split`, `strip` |
| `urlparse.dfy` | `UrlParse` | `urlparse(...).netloc` |
| `webfinger.dfy` | `Webfinger` | `normalize`, its steps, and its properties |
| `models.dfy` | `Models` | the actor, identity and account rows and the password hash |
| `register.dfy` | `RegisterUser` | registration, its check order, the uniqueness invariants |
| `login.dfy` | `LoginUser` | the join, the two lookups, login, and register-then-login |

The outside world comes in as values:
- the database is a `Store` of three sequences; queries read them in sequence order, a choice the source does not fix (see "## Left out");
- `email_validator` is a function `string -> EmailVerdict` in the registration `Context`;
- `pendulum.now()`, `BASE_URL` and the row ids the database assigns are also in the `Context`;
- bcrypt is a symbolic hash `Bcrypt(secret)` that accepts exactly its own secret.

`normalize` as written is not total. The code passes the identifier to `urlparse`, which
raises on a netloc with one square bracket and not the other, for example `[lamia.social`,
and on a non-ASCII netloc that NFKC turns into one holding a delimiter, for example
`lamia＠lamia.social` with a fullwidth `＠`. So `Webfinger.Normalize` returns a `Result`. It
is proved to succeed on every ASCII input without square brackets, whatever `nfkc` is.

## Model

| member | source | states |
|---|---|---|
| Webfinger.StripAcct | lamia/utilities/webfinger.py:34-35 | exactly one leading `acct:` is removed; any other identifier is unchanged |
| Webfinger.AcctStrippedOnce | lamia/utilities/webfinger.py:34-35 | for any `x` not itself starting with `acct:`, normalising `acct:` + `x` gives the same answer as normalising `x` |
| Webfinger.StripPortsNoPort | lamia/utilities/webfinger.py:18 | after the `port_re` substitution no colon-digit pair is left; text with no match is returned unchanged |
| Webfinger.StripPortsChars | lamia/utilities/webfinger.py:18 | the substitution only deletes characters, it never introduces one |
| Webfinger.StripPortsMatchesScan | lamia/utilities/webfinger.py:18 | deleting whole `:\d+` matches left to right equals an independent one-character-at-a-time scan |
| Webfinger.StripPortsKeepsBareColons | lamia/utilities/webfinger.py:18 | the colons left are exactly the colons not followed by a digit |
| Webfinger.HasStrayColonIff | lamia/utilities/webfinger.py:40 | the guard `':' in s.replace('://', '')` holds iff some colon does not start a `://` |
| Webfinger.PortGuardRedundant | lamia/utilities/webfinger.py:40-41 | the guard never changes the result: guarded stripping equals unconditional stripping |
| Webfinger.PrepareNoColon | lamia/utilities/webfinger.py:34-41 | an identifier without a colon passes the `acct:` and port steps unchanged |
| Webfinger.PrepareUrlWithPort | lamia/utilities/webfinger.py:34-41 | on `scheme://host:digits/path` only the `:digits` port is deleted |
| Webfinger.Prepare | lamia/utilities/webfinger.py:30-41 | the identifier after the first two steps only uses characters of the input |
| Webfinger.EmailHost | lamia/utilities/webfinger.py:55-58 | the host taken by `split('@')[1]` holds no `@` |
| Webfinger.EmailHostIsSecondField | lamia/utilities/webfinger.py:55-58 | the host is the text between the first `@` and the second one, or the end |
| Webfinger.UrlResource | lamia/utilities/webfinger.py:48 | removing the schemes never lengthens the identifier |
| Webfinger.UrlResourceDropsScheme | lamia/utilities/webfinger.py:48 | the URL resource is the text after `http://` or `https://` when no other scheme separator follows |
| Webfinger.Classify | lamia/utilities/webfinger.py:45-54 | branch precedence: the URL branch iff the text starts with `http`, even when it holds `@`; the email branch iff it does not, holds `@` and holds no `/@`; the host branch otherwise |
| Webfinger.Resolve | lamia/utilities/webfinger.py:44-66 | every base starts with `https://`; outside the URL branch the resource is the prepared identifier; outside the email branch the base holds no `/`, `?` or `#` after `https://`; failure only on square brackets or non-ASCII text |
| Webfinger.Normalize | lamia/utilities/webfinger.py:20-66 | succeeds on every ASCII identifier without square brackets; the base always starts with `https://`, never `http://`; the same branch facts in terms of the original identifier |
| Webfinger.ResolveUrl | lamia/utilities/webfinger.py:44-50 | on a web URL the resource is host and path and the base is `https://` + host |
| Webfinger.NormalizeUrl | lamia/utilities/webfinger.py:44-50 | `http(s)://host/path` normalises to `(host/path, https://host)` whatever the scheme; this includes hosts holding `@`, because the URL test comes first |
| Webfinger.NormalizeUrlDropsPort | lamia/utilities/webfinger.py:40-50 | with a numeric port after the host, the port is dropped from both resource and base |
| Webfinger.NoSlashBeforeAt | lamia/utilities/webfinger.py:54 | `user@host` with no `/` right before the `@` is not taken for a `/@` handle |
| Webfinger.ResolveEmail | lamia/utilities/webfinger.py:53-59 | `user@host` resolves to itself and to `https://host` |
| Webfinger.NormalizeEmail | lamia/utilities/webfinger.py:53-59 | `user@host` normalises to `(user@host, https://host)` |
| Webfinger.NormalizeAcctEmail | lamia/utilities/webfinger.py:33-59 | `acct:user@host` normalises to `(user@host, https://host)` |
| Webfinger.ResolveEmailFields | lamia/utilities/webfinger.py:53-59 | with further `@`s after the host, the resource keeps everything and the base is `https://` + the text between the first and second `@` |
| Webfinger.NormalizeEmailFields | lamia/utilities/webfinger.py:53-59 | the same through the whole pipeline, for colon-free text |
| Webfinger.ResolveHostPath | lamia/utilities/webfinger.py:61-66 | a host followed by a path, query, fragment or `/@user` handle resolves to itself and to `https://` + host |
| Webfinger.NormalizeHostPath | lamia/utilities/webfinger.py:61-66 | the same through the whole pipeline |
| Webfinger.NormalizeAcctHostPath | lamia/utilities/webfinger.py:33-66 | the same with `acct:` in front |
| Webfinger.BareHost | lamia/utilities/webfinger.py:61-66 | a bare host without colon, `@`, `/`, `?`, `#` or unsafe characters resolves to itself, with `urlparse`'s two netloc checks deciding whether it raises |
| Webfinger.NormalizeUnbalancedHost | lamia/utilities/webfinger.py:61-62 | a bare host with one square bracket but not the other makes `normalize` raise |
| Webfinger.NormalizeNfkcDelimiter | lamia/utilities/webfinger.py:61-62 | a bare non-ASCII host that NFKC changes into text holding a delimiter makes `normalize` raise |
| Webfinger.ExampleUrl | lamia/utilities/webfinger.py:44-50 | `http://lamia.social/users/lamia` gives `(lamia.social/users/lamia, https://lamia.social)` |
| Webfinger.ExampleUrlWithPort | lamia/utilities/webfinger.py:40-50 | `http://lamia.social:8080/@lamia` gives `(lamia.social/@lamia, https://lamia.social)` |
| Webfinger.ExampleUrlWithUser | lamia/utilities/webfinger.py:45-50 | `http://lamia@lamia.social` takes the URL branch and keeps the user in the base |
| Webfinger.ExampleAcct | lamia/utilities/webfinger.py:33-59 | `acct:lamia@lamia.social` gives `(lamia@lamia.social, https://lamia.social)` |
| Webfinger.ExampleHandle | lamia/utilities/webfinger.py:61-66 | `lamia.social/@lamia` gives `(lamia.social/@lamia, https://lamia.social)` |
| Webfinger.ExampleAcctHandle | lamia/utilities/webfinger.py:33-66 | `acct:lamia.social/@lamia` gives `(lamia.social/@lamia, https://lamia.social)` |
| Webfinger.ExampleEmpty | lamia/utilities/webfinger.py:61-66 | the empty identifier gives `("", "https://")` |
| Webfinger.ExampleEmailWithPath | lamia/utilities/webfinger.py:53-59 | `lamia@lamia.social/about` keeps the path in the base: `https://lamia.social/about` |
| Webfinger.ExampleUnbalancedBracket | lamia/utilities/webfinger.py:61-62 | `[lamia.social` makes `normalize` raise |
| Webfinger.ExampleFullwidthAt | lamia/utilities/webfinger.py:61-62 | `lamia＠lamia.social` with a fullwidth `＠`, which NFKC maps to `@`, makes `normalize` raise |
| Webfinger.ExampleTwoAts | lamia/utilities/webfinger.py:53-59 | `lamia@lamia.social@example.org` keeps all of it as the resource, with base `https://lamia.social` |
| UrlParse.Netloc | lamia/utilities/webfinger.py:46-49 | the netloc holds no `/`, `?` or `#`; parsing fails only when a square bracket or a non-ASCII character is present |
| UrlParse.HostChars | lamia/utilities/webfinger.py:46-49 | every character of the netloc comes from the URL |
| UrlParse.CheckBrackets | lamia/utilities/webfinger.py:62-65 | the netloc is accepted iff it has both square brackets or neither |
| UrlParse.CheckNfkc | lamia/utilities/webfinger.py:62-65 | an ASCII netloc is accepted; a netloc is refused iff it is not ASCII and `nfkc` changes its undelimited form into text holding `/`, `?`, `#`, `@` or `:` |
| UrlParse.CheckNetloc | lamia/utilities/webfinger.py:62-65 | a balanced ASCII netloc is accepted unchanged; the bracket error comes exactly from unbalanced brackets |
| UrlParse.NetlocAfterScheme | lamia/utilities/webfinger.py:62-65 | after `http://` or `https://` the netloc is the host part of the rest once tab, CR and LF are dropped |
| UrlParse.SchemeRestOfWebScheme | lamia/utilities/webfinger.py:46 | `http` and `https` are read as schemes whatever follows |
| UrlParse.RemoveUnsafeAppend | lamia/utilities/webfinger.py:46 | deleting tab, CR and LF distributes over concatenation |
| UrlParse.HostPartPrefix | lamia/utilities/webfinger.py:46 | the host part is a prefix of the text after `//` |
| Strings.RemoveAll | lamia/utilities/webfinger.py:40 | `replace(pat, '')` keeps only characters of the input and changes nothing when `pat` does not occur |
| Strings.RemoveAllKeepsHead | lamia/utilities/webfinger.py:48 | a prefix without the pattern's first character passes through `replace` |
| Strings.SplitOn | lamia/utilities/webfinger.py:55 | `split(sep)` gives one more field than there are separators, and no field holds one |
| Strings.JoinSplit | lamia/utilities/webfinger.py:55 | joining the fields of `split(sep)` with `sep` gives the string back |
| Strings.Strip | lamia/views/graph/users/mutations.py:88 | `strip()` returns the stretch of the input with whitespace-only text on both sides and no whitespace at its own ends |
| Strings.StripIdempotent | lamia/views/graph/users/mutations.py:88 | stripping twice is stripping once |
| Strings.StripTight | lamia/views/graph/users/mutations.py:88 | text without surrounding whitespace is left alone |
| Models.SetPassword | lamia/models/features.py:52-59 | the stored hash accepts the password it was made from and no other |
| RegisterUser.NameRun | lamia/views/graph/users/mutations.py:15 | the greedy `[a-zA-Z_]+` run: all name characters, stopped by the first other character |
| RegisterUser.NameMatchesIff | lamia/views/graph/users/mutations.py:15 | the name pattern accepts exactly a non-empty run of ASCII letters and `_`, optionally followed by one newline |
| RegisterUser.NameWithNewlineAccepted | lamia/views/graph/users/mutations.py:15 | `lamia\n` is accepted; `lamia\n\n`, the empty name and `la mia` are not |
| RegisterUser.ActorIdInjective | lamia/views/graph/users/mutations.py:116 | different user names give different actor ids |
| RegisterUser.Build | lamia/views/graph/users/mutations.py:113-152 | the actor, identity, account and view point at each other and carry the name, the URIs under the actor id, the email, the hash of the stripped password and one timestamp |
| RegisterUser.Register | lamia/views/graph/users/mutations.py:76-154 | success iff the email is not a syntax error, the stripped password has at least 5 characters, the name matches, the email is unused and the name is unused; success gives linked records built from the request; the syntax error and only it gives the invalid-email error |
| RegisterUser.Apply | lamia/views/graph/users/mutations.py:127-145 | after the inserts an email address is in use iff it was before or is the new account's; a name is in use iff it was before or is the new identity's user or display name |
| RegisterUser.FirstFailureIsFirst | lamia/views/graph/users/mutations.py:80-111 | the error reported is that of a failed check every earlier check passed; none is reported iff all pass |
| RegisterUser.RegisterFollowsChecks | lamia/views/graph/users/mutations.py:80-113 | registration fails with the error of the first failing check in source order and builds records only when none fails |
| RegisterUser.UndeliverableIgnored | lamia/views/graph/users/mutations.py:80-86 | an undeliverable address registers exactly as a deliverable one would |
| RegisterUser.PasswordStrippedFirst | lamia/views/graph/users/mutations.py:88-92 | surrounding whitespace in the password changes nothing, and the stripped password is the one the account accepts |
| RegisterUser.RegisterKeepsUnique | lamia/views/graph/users/mutations.py:98-111 | a successful registration keeps email addresses unique and user and display names unique |
| RegisterUser.SecondRegistrationRejected | lamia/views/graph/users/mutations.py:98-102 | repeating a successful registration fails with the email-in-use error |
| RegisterUser.NameReuseRejected | lamia/views/graph/users/mutations.py:104-111 | a new email with an already registered name fails with the name-in-use error |
| LoginUser.JoinRowsMembers | lamia/views/graph/users/mutations.py:33 | a row is in the join iff its account and identity are stored and the identity belongs to the account |
| LoginUser.First | lamia/views/graph/users/mutations.py:37-38 | `.first()` picks a matching row with no matching row before it, and none when no row matches |
| LoginUser.Lookup | lamia/views/graph/users/mutations.py:33-48 | the row found is in the join and matches the email or the user name; there is none iff no row matches either |
| LoginUser.Login | lamia/views/graph/users/mutations.py:29-57 | login succeeds iff the lookup finds a row whose account accepts the password, and the grant then names that row's account and identity; otherwise it fails with the one invalid-credentials error |
| LoginUser.EmailMatchTakesPriority | lamia/views/graph/users/mutations.py:40-48 | when a row matches by email, the lookup returns an email match, and any grant is for an account with that address |
| LoginUser.EmailShadowsUserName | lamia/views/graph/users/mutations.py:33-48 | one example store: an account whose email address is another user's user name hides that user, who is then refused with their own password because the shadowing account does not accept it |
| LoginUser.JoinAfterRegister | lamia/views/graph/users/mutations.py:139-145 | after registration the new account's only join row comes last |
| LoginUser.LookupAfterRegister | lamia/views/graph/users/mutations.py:33-38 | after registration the email address finds the new account and identity |
| LoginUser.RegisterThenLogin | lamia/views/graph/users/mutations.py:51-55 | after registration, logging in with the email and the stripped password grants the new account and identity |
| LoginUser.UntrimmedPasswordLocksOut | lamia/views/graph/users/mutations.py:51 | a password registered with surrounding whitespace is refused when typed the same way again |
| LoginUser.UntrimmedPasswordExample | lamia/views/graph/users/mutations.py:88 | ` hunter2` is accepted at registration and refused at login |
| LoginUser.LoginTrimmed | lamia/views/graph/users/mutations.py:51 | corrected login: succeeds iff the lookup finds a row whose account accepts the stripped password, with the grant naming that row's account and identity; no matching row means failure |
| LoginUser.RegisterThenLoginTrimmed | lamia/views/graph/users/mutations.py:143 | with the correction, the password registration accepted always logs in to the new account and identity |
| LoginUser.LoginTrimmedAgrees | lamia/views/graph/users/mutations.py:51 | the correction changes nothing for a password without surrounding whitespace |

## Left out

- `finger` (webfinger.py lines 69-88): network I/O over aiohttp.
- Webfinger.Normalize: `normalize` is not total. `urlparse` raises on an unbalanced square bracket, modelled as `Failure(InvalidIPv6Url)`. It also raises on a non-ASCII netloc that NFKC turns into one holding a delimiter, modelled as `Failure(InvalidUnderNfkc)`. NFKC normalisation (`unicodedata.normalize('NFKC', ...)`) is a parameter `nfkc`, not defined here, so whether a non-ASCII identifier is refused depends on that parameter. Success is promised only for ASCII identifiers without square brackets.
- `urlparse` behaviour of other Python versions is not modelled: the bracket-content validation of newer versions, and the leading-whitespace stripping of later 3.8 releases. Both call sites start with `h`, so the latter never applies.
- LoginUser.JoinRows: the join has no `ORDER BY`, so the database may return rows in any order and `.first()` may pick any matching row. The model fixes one order, account by account, as a choice; the lemmas about which row is found hold for that order.
- Webfinger.StripPorts: `\d` is read as ASCII digits. Python's `re` also matches other Unicode decimal digits.
- Models.SetPassword: bcrypt is modelled symbolically. It has no salt, and its 72-byte truncation is not modelled, so two long passwords sharing their first 72 bytes are not identified.
- `email_validator` is a parameter. Its own rules are not part of this model.
- `pendulum.now()`, `BASE_URL` and the database's row ids are parameters. Row ids are assumed distinct from existing ones where a lemma needs it (`FreshAccountKey`).
- RSA key generation (`generate_keys`) and the actor's other ActivityPub fields are not modelled.
- `OauthToken` issuance: login returns the account and identity ids the token would carry, not a token.
- The inserts are not transactional in the source, and concurrent registrations are not modelled. The model applies each registration atomically.
- The GraphQL and graphene wiring (`Mutations`, argument declarations, translated messages) is not modelled. The error messages are kept as the untranslated strings.
- `lamia/models/features.py` beyond `set_password` and `check_password`, and `lamia/middleware/gino.py`: column declarations and framework plumbing.

## Findings

| source | as written | input that shows it | evidently intended | confidence | as-written member | corrected member |
|---|---|---|---|---|---|---|
| lamia/views/graph/users/mutations.py:51 | registration stores the hash of `password.strip()` (lines 88, 143), but login checks the password exactly as typed | register `lamia`, `lamia@lamia.social`, password ` hunter2`; log in with the same email and ` hunter2` | login strips the password as registration does, so the password typed at registration always works | not executed | LoginUser.UntrimmedPasswordLocksOut | LoginUser.RegisterThenLoginTrimmed |
