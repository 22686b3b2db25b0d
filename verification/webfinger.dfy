/** Webfinger identifier normalisation: turns what a user typed (`acct:user@host`,
    `http(s)://host/path`, `host/@user`, ...) into the resource to ask for and the
    `https://` base of the server to ask, as in `lamia/utilities/webfinger.py`. */
module Webfinger {
  import opened Wrappers
  import opened Strings
  import opened UrlParse

  const AcctScheme: string := "acct:"
  const Https: string := "https://"
  const Http: string := "http://"
  const SchemeSeparator: string := "://"

  /** The `(resource, address)` pair `normalize` returns. */
  datatype Resolution = Resolution(resource: string, base: string)

  /** The three shapes `normalize` tells apart, in the order it tries them. */
  datatype Form = UrlForm | EmailForm | HostForm

  // ---------------------------------------------------------------------------------------
  // Step 1: the `acct:` scheme

  /** Drops one leading `acct:` and nothing else. */
  function StripAcct(identifier: string): (r: string)
    ensures StartsWith(identifier, AcctScheme) ==> identifier == AcctScheme + r
    ensures !StartsWith(identifier, AcctScheme) ==> r == identifier
  {
    if StartsWith(identifier, AcctScheme) then
      assert identifier == identifier[..5] + identifier[5..];
      identifier[5..]
    else identifier
  }

  // ---------------------------------------------------------------------------------------
  // Step 2: ports; `port_re` matches a colon followed by one or more ASCII digits

  /** A match of `port_re` starts at `i`: a colon followed by a digit. */
  predicate PortAt(s: string, i: int) {
    0 <= i && i + 1 < |s| && s[i] == ':' && IsDigit(s[i + 1])
  }

  /** `port_re` matches nowhere in `s`. */
  predicate NoPort(s: string) {
    forall i :: 0 <= i < |s| ==> !PortAt(s, i)
  }

  /** The greedy `\d+` part of a match: skips the leading digits. */
  function DropDigits(s: string): (r: string)
    ensures |r| <= |s|
    ensures |r| == 0 || !IsDigit(r[0])
    decreases |s|
  {
    if |s| > 0 && IsDigit(s[0]) then DropDigits(s[1..]) else s
  }

  /** What `DropDigits` removes is a run of digits at the front. */
  lemma {:induction false} DropDigitsSuffix(s: string)
    ensures DropDigits(s) == s[|s| - |DropDigits(s)|..]
    ensures forall k :: 0 <= k < |s| - |DropDigits(s)| ==> IsDigit(s[k])
    decreases |s|
  {
    if |s| > 0 && IsDigit(s[0]) {
      DropDigitsSuffix(s[1..]);
      assert s[1..][|s| - 1 - |DropDigits(s)|..] == s[|s| - |DropDigits(s)|..];
    }
  }

  lemma NoPortTail(s: string)
    requires |s| > 0
    ensures NoPort(s) ==> NoPort(s[1..])
  {
    if NoPort(s) {
      forall i | 0 <= i < |s| - 1 ensures !PortAt(s[1..], i) {
        assert !PortAt(s, i + 1);
      }
    }
  }

  lemma NoPortCons(c: char, t: string)
    requires NoPort(t)
    requires c != ':' || |t| == 0 || !IsDigit(t[0])
    ensures NoPort([c] + t)
  {
    var s := [c] + t;
    forall i | 0 <= i < |s| ensures !PortAt(s, i) {
      if i > 0 {
        assert !PortAt(t, i - 1);
      }
    }
  }

  /** `port_re.sub('', s)`: every colon followed by a run of digits is deleted together with
      the whole run, scanning left to right. */
  function StripPorts(s: string): (r: string)
    ensures |r| <= |s|
    decreases |s|
  {
    if |s| == 0 then []
    else if PortAt(s, 0) then StripPorts(DropDigits(s[1..]))
    else [s[0]] + StripPorts(s[1..])
  }

  /** Nothing `port_re` could match survives the substitution, and text it cannot match
      anywhere is left as it is. */
  lemma {:induction false} StripPortsNoPort(s: string)
    ensures NoPort(StripPorts(s))
    ensures |StripPorts(s)| > 0 && IsDigit(StripPorts(s)[0]) ==> IsDigit(s[0])
    ensures NoPort(s) ==> StripPorts(s) == s
    decreases |s|
  {
    if |s| > 0 {
      if PortAt(s, 0) {
        StripPortsNoPort(DropDigits(s[1..]));
      } else {
        var t := StripPorts(s[1..]);
        StripPortsNoPort(s[1..]);
        NoPortTail(s);
        NoPortCons(s[0], t);
        assert s == [s[0]] + s[1..];
      }
    }
  }

  lemma {:induction false} StripPortsChars(s: string)
    ensures forall c :: c in StripPorts(s) ==> c in s
    decreases |s|
  {
    if |s| > 0 {
      if PortAt(s, 0) {
        var d := DropDigits(s[1..]);
        DropDigitsSuffix(s[1..]);
        StripPortsChars(d);
        forall c | c in d ensures c in s {
          var k :| 0 <= k < |d| && d[k] == c;
          assert s[|s| - |d| + k] == c;
        }
      } else {
        StripPortsChars(s[1..]);
      }
    }
  }

  /** Reference reading of `port_re.sub('', s)`, one character at a time: `inRun` says the
      previous character was deleted as part of a match, so a digit here is deleted too. */
  function ScanPorts(s: string, inRun: bool): string
    decreases |s|
  {
    if |s| == 0 then []
    else if inRun && IsDigit(s[0]) then ScanPorts(s[1..], true)
    else if PortAt(s, 0) then ScanPorts(s[1..], true)
    else [s[0]] + ScanPorts(s[1..], false)
  }

  lemma {:induction false} ScanSkipsRun(s: string)
    ensures ScanPorts(s, true) == ScanPorts(DropDigits(s), false)
    decreases |s|
  {
    if |s| > 0 && IsDigit(s[0]) {
      ScanSkipsRun(s[1..]);
    }
  }

  /** Skipping a whole match at once, as the regex engine does, deletes exactly the
      characters the one-character scan deletes. */
  lemma {:induction false} StripPortsMatchesScan(s: string)
    ensures StripPorts(s) == ScanPorts(s, false)
    decreases |s|
  {
    if |s| > 0 {
      if PortAt(s, 0) {
        StripPortsMatchesScan(DropDigits(s[1..]));
        ScanSkipsRun(s[1..]);
      } else {
        StripPortsMatchesScan(s[1..]);
      }
    }
  }

  /** The colons of `s` that no digit follows. */
  function BareColons(s: string): nat
    decreases |s|
  {
    if |s| == 0 then 0
    else (if s[0] == ':' && !PortAt(s, 0) then 1 else 0) + BareColons(s[1..])
  }

  lemma {:induction false} BareColonsSkipDigits(s: string)
    ensures BareColons(DropDigits(s)) == BareColons(s)
    decreases |s|
  {
    if |s| > 0 && IsDigit(s[0]) {
      BareColonsSkipDigits(s[1..]);
    }
  }

  /** A colon that is not followed by a digit is never deleted, and every other colon is. */
  lemma {:induction false} StripPortsKeepsBareColons(s: string)
    ensures CountChar(StripPorts(s), ':') == BareColons(s)
    decreases |s|
  {
    if |s| > 0 {
      if PortAt(s, 0) {
        StripPortsKeepsBareColons(DropDigits(s[1..]));
        BareColonsSkipDigits(s[1..]);
      } else {
        StripPortsKeepsBareColons(s[1..]);
        assert ([s[0]] + StripPorts(s[1..]))[1..] == StripPorts(s[1..]);
      }
    }
  }

  /** `':' in s.replace('://', '')`: some colon of `s` is not part of a removed `://`. */
  predicate HasStrayColon(s: string) {
    ':' in RemoveAll(s, SchemeSeparator)
  }

  /** The colon at `i` does not start a `://`. */
  predicate StrayColonAt(s: string, i: int) {
    0 <= i < |s| && s[i] == ':' && !StartsWith(s[i..], SchemeSeparator)
  }

  /** The guard at line 40 holds exactly when some colon does not start a `://`. */
  lemma {:induction false} HasStrayColonIff(s: string)
    ensures HasStrayColon(s) <==> exists i :: StrayColonAt(s, i)
    decreases |s|
  {
    if |s| > 0 {
      if StartsWith(s, SchemeSeparator) {
        HasStrayColonIff(s[3..]);
        StrayColonsAfterSeparator(s);
      } else {
        HasStrayColonIff(s[1..]);
        StrayColonsAfterHead(s);
      }
    }
  }

  lemma StrayColonsAfterSeparator(s: string)
    requires StartsWith(s, SchemeSeparator)
    ensures HasStrayColon(s) == HasStrayColon(s[3..])
    ensures (exists i :: StrayColonAt(s, i)) <==> (exists j :: StrayColonAt(s[3..], j))
  {
    var t := s[3..];
    assert s[..3] == SchemeSeparator;
    assert s[0] == ':' && s[1] == '/' && s[2] == '/';
    if exists i :: StrayColonAt(s, i) {
      var i :| StrayColonAt(s, i);
      assert i >= 3;
      assert s[i..] == t[i - 3..];
      assert StrayColonAt(t, i - 3);
    }
    if exists j :: StrayColonAt(t, j) {
      var j :| StrayColonAt(t, j);
      assert s[j + 3..] == t[j..];
      assert StrayColonAt(s, j + 3);
    }
  }

  lemma StrayColonsAfterHead(s: string)
    requires |s| > 0 && !StartsWith(s, SchemeSeparator)
    ensures HasStrayColon(s) <==> (s[0] == ':' || HasStrayColon(s[1..]))
    ensures (exists i :: StrayColonAt(s, i)) <==> (s[0] == ':' || exists j :: StrayColonAt(s[1..], j))
  {
    var t := s[1..];
    assert RemoveAll(s, SchemeSeparator) == [s[0]] + RemoveAll(t, SchemeSeparator);
    if exists i :: StrayColonAt(s, i) {
      var i :| StrayColonAt(s, i);
      if i > 0 {
        assert s[i..] == t[i - 1..];
        assert StrayColonAt(t, i - 1);
      }
    }
    if exists j :: StrayColonAt(t, j) {
      var j :| StrayColonAt(t, j);
      assert s[j + 1..] == t[j..];
      assert StrayColonAt(s, j + 1);
    }
    if s[0] == ':' {
      assert s[0..] == s;
      assert StrayColonAt(s, 0);
    }
  }

  /** Lines 40-41: ports are stripped only behind the stray-colon guard. */
  function DropPort(s: string): string {
    if HasStrayColon(s) then StripPorts(s) else s
  }

  /** The guard never changes the outcome: a colon followed by a digit is always a stray
      colon, so when the guard fails there is nothing for `port_re` to delete. */
  lemma PortGuardRedundant(s: string)
    ensures DropPort(s) == StripPorts(s)
  {
    if !HasStrayColon(s) {
      HasStrayColonIff(s);
      PortIsStray(s);
      StripPortsNoPort(s);
    }
  }

  lemma PortIsStray(s: string)
    requires !exists i :: StrayColonAt(s, i)
    ensures NoPort(s)
  {
    forall i | 0 <= i < |s| ensures !PortAt(s, i) {
      assert !StrayColonAt(s, i);
    }
  }

  /** The identifier after steps 1 and 2 (`_identifier` at line 43). */
  function Prepare(identifier: string): (r: string)
    ensures forall c :: c in r ==> c in identifier
  {
    var id := StripAcct(identifier);
    StripPortsChars(id);
    DropPort(id)
  }

  // ---------------------------------------------------------------------------------------
  // Step 3: the three branches

  /** Lines 45 and 54: the URL test comes first, so an `http...` identifier is a URL even when
      it contains `@`; an `@` makes it email-like unless it also contains `/@`. */
  function Classify(id: string): (f: Form)
    ensures f == UrlForm <==> StartsWith(id, "http")
    ensures f == EmailForm <==> !StartsWith(id, "http") && '@' in id && !Contains(id, "/@")
    ensures f == HostForm <==> !StartsWith(id, "http") && ('@' !in id || Contains(id, "/@"))
  {
    if StartsWith(id, "http") then UrlForm
    else if '@' in id && !Contains(id, "/@") then EmailForm
    else HostForm
  }

  /** `id.split('@')[1]`: the text between the first `@` and the next one (or the end). */
  function EmailHost(id: string): (h: string)
    requires '@' in id
    ensures '@' !in h
  {
    CountCharPositive(id, '@');
    SplitOn(id, '@')[1]
  }

  lemma {:induction false} CountCharPositive(s: string, c: char)
    requires c in s
    ensures CountChar(s, c) > 0
    decreases |s|
  {
    if s[0] != c {
      CountCharPositive(s[1..], c);
    }
  }

  /** `id.replace('https://', '').replace('http://', '')` */
  function UrlResource(id: string): (r: string)
    ensures |r| <= |id|
  {
    RemoveAll(RemoveAll(id, Https), Http)
  }

  /** The discovery base keeps only a network location: no path, query or fragment. */
  predicate HostOnlyBase(b: string) {
    StartsWith(b, Https) && forall k :: |Https| <= k < |b| ==> !IsNetlocEnd(b[k])
  }

  /** Lines 45-66 applied to the prepared identifier. `nfkc` is the NFKC normalisation
      `urlparse` applies to a non-ASCII netloc. */
  function Resolve(id: string, nfkc: string -> string): (r: Result<Resolution, UrlError>)
    ensures r.Success? ==> StartsWith(r.value.base, Https)
    ensures r.Success? && Classify(id) != UrlForm ==> r.value.resource == id
    ensures r.Success? && Classify(id) != EmailForm ==> HostOnlyBase(r.value.base)
    ensures r.Failure? ==> '[' in id || ']' in id || !IsAscii(id)
  {
    match Classify(id)
    case UrlForm =>
      var netloc :- Netloc(id, nfkc);
      Success(Resolution(UrlResource(id), Https + netloc))
    case EmailForm =>
      Success(Resolution(id, Https + EmailHost(id)))
    case HostForm =>
      AsciiAfterScheme(id);
      var netloc :- Netloc(Https + id, nfkc);
      Success(Resolution(id, Https + netloc))
  }

  lemma AsciiAfterScheme(id: string)
    ensures IsAscii(id) ==> IsAscii(Https + id)
    ensures '[' in Https + id ==> '[' in id
    ensures ']' in Https + id ==> ']' in id
  {
    var s := Https + id;
    if '[' in s {
      var k :| 0 <= k < |s| && s[k] == '[';
      assert s[k] == id[k - |Https|];
    }
    if ']' in s {
      var k :| 0 <= k < |s| && s[k] == ']';
      assert s[k] == id[k - |Https|];
    }
  }

  /** `normalize(identifier)`. Python's `urlparse` raises on a netloc with an unmatched square
      bracket, and on a non-ASCII netloc that NFKC normalisation turns into one holding a
      delimiter, so the result is a `Result`; on ASCII text without square brackets it always
      succeeds. */
  function Normalize(identifier: string, nfkc: string -> string): (r: Result<Resolution, UrlError>)
    ensures ('[' !in identifier && ']' !in identifier && IsAscii(identifier)) ==> r.Success?
    ensures r.Success? ==> StartsWith(r.value.base, Https)
    ensures r.Success? && Classify(Prepare(identifier)) != UrlForm ==> r.value.resource == Prepare(identifier)
    ensures r.Success? && Classify(Prepare(identifier)) != EmailForm ==> HostOnlyBase(r.value.base)
  {
    var id := Prepare(identifier);
    AsciiChars(identifier, id);
    Resolve(id, nfkc)
  }

  // ---------------------------------------------------------------------------------------
  // Properties of `normalize`

  lemma NotStartsWith(s: string, p: string, i: nat)
    requires i < |p| && i < |s| && s[i] != p[i]
    ensures !StartsWith(s, p)
  {
  }

  /** Text that `urlparse` reads as a whole network location and accepts: ASCII, with nothing
      that ends it, marks a port, opens a bracket or is dropped as unsafe. */
  predicate NetlocText(h: string) {
    forall k :: 0 <= k < |h| ==> h[k] !in ":/?#[]" && !IsUnsafe(h[k]) && (h[k] as int) < 0x80
  }

  lemma NoColonNoPort(s: string)
    requires ':' !in s
    ensures NoPort(s)
  {
    forall i | 0 <= i < |s| ensures !PortAt(s, i) {
      assert s[i] in s;
    }
  }

  /** No match of `port_re` starts where `a` meets `b`. */
  predicate Joinable(a: string, b: string) {
    |a| == 0 || |b| == 0 || a[|a| - 1] != ':' || !IsDigit(b[0])
  }

  lemma NoPortAppend(a: string, b: string)
    requires NoPort(a) && NoPort(b) && Joinable(a, b)
    ensures NoPort(a + b)
  {
    var s := a + b;
    forall i | 0 <= i < |s| ensures !PortAt(s, i) {
      if i + 1 < |a| {
        assert !PortAt(a, i);
      } else if i >= |a| {
        assert !PortAt(b, i - |a|);
      }
    }
  }

  lemma NoPortAtJoin(a: string, b: string)
    requires |a| > 0 && NoPort(a)
    requires Joinable(a, b)
    ensures !PortAt(a + b, 0)
  {
    if |a| >= 2 {
      assert !PortAt(a, 0);
    }
  }

  lemma JoinableTail(a: string, b: string)
    requires |a| > 0 && NoPort(a) && Joinable(a, b)
    ensures NoPort(a[1..]) && Joinable(a[1..], b)
  {
    NoPortTail(a);
    var a' := a[1..];
    assert |a'| == 0 || a'[|a'| - 1] == a[|a| - 1];
  }

  lemma StripPortsUnfold(s: string)
    requires |s| > 0 && !PortAt(s, 0)
    ensures StripPorts(s) == [s[0]] + StripPorts(s[1..])
  {
  }

  lemma StripPortsStep(a: string, b: string)
    requires |a| > 0 && !PortAt(a + b, 0)
    requires StripPorts(a[1..] + b) == a[1..] + StripPorts(b)
    ensures StripPorts(a + b) == a + StripPorts(b)
  {
    var s := a + b;
    StripPortsUnfold(s);
    assert s[1..] == a[1..] + b;
    assert [s[0]] + (a[1..] + StripPorts(b)) == a + StripPorts(b) by {
      assert a == [a[0]] + a[1..];
    }
  }

  /** A prefix in which `port_re` cannot start a match is copied unchanged. */
  lemma {:induction false} StripPortsAppend(a: string, b: string)
    requires NoPort(a) && Joinable(a, b)
    ensures StripPorts(a + b) == a + StripPorts(b)
    decreases |a|
  {
    if |a| == 0 {
      assert a + b == b;
    } else {
      JoinableTail(a, b);
      StripPortsAppend(a[1..], b);
      NoPortAtJoin(a, b);
      StripPortsStep(a, b);
    }
  }

  lemma {:induction false} DropDigitsOver(d: string, p: string)
    requires forall k :: 0 <= k < |d| ==> IsDigit(d[k])
    requires |p| == 0 || !IsDigit(p[0])
    ensures DropDigits(d + p) == p
    decreases |d|
  {
    if |d| == 0 {
      assert d + p == p;
    } else {
      assert (d + p)[1..] == d[1..] + p;
      DropDigitsOver(d[1..], p);
    }
  }

  lemma NoColonNotAcct(s: string)
    requires ':' !in s
    ensures !StartsWith(s, AcctScheme)
  {
    if |s| >= 5 {
      assert s[4] in s;
      NotStartsWith(s, AcctScheme, 4);
    }
  }

  /** An identifier without any colon comes out of steps 1 and 2 unchanged. */
  lemma PrepareNoColon(s: string)
    requires ':' !in s
    ensures Prepare(s) == s
  {
    NoColonNotAcct(s);
    NoColonNoPort(s);
    StripPortsNoPort(s);
    PortGuardRedundant(s);
  }

  lemma SchemeNoPort(scheme: string)
    requires scheme == Http || scheme == Https
    ensures NoPort(scheme) && scheme[|scheme| - 1] != ':'
    ensures !StartsWith(scheme, AcctScheme)
  {
    NotStartsWith(scheme, AcctScheme, 0);
  }

  /** A web scheme followed by colon-free text comes out of steps 1 and 2 unchanged. */
  lemma PrepareUrlNoColon(scheme: string, rest: string)
    requires scheme == Http || scheme == Https
    requires ':' !in rest
    ensures Prepare(scheme + rest) == scheme + rest
  {
    var s := scheme + rest;
    SchemeNoPort(scheme);
    NotStartsWith(s, AcctScheme, 0);
    NoColonNoPort(rest);
    NoPortAppend(scheme, rest);
    StripPortsNoPort(s);
    PortGuardRedundant(s);
  }

  /** Steps 1 and 2 on a web URL with a numeric port: the port goes, nothing else does. */
  lemma PrepareUrlWithPort(scheme: string, host: string, digits: string, path: string)
    requires scheme == Http || scheme == Https
    requires ':' !in host
    requires |digits| > 0 && forall k :: 0 <= k < |digits| ==> IsDigit(digits[k])
    requires |path| == 0 || !IsDigit(path[0])
    requires ':' !in path
    ensures Prepare(scheme + host + ":" + digits + path) == scheme + host + path
  {
    var a := scheme + host;
    var b := ":" + digits + path;
    var s := scheme + host + ":" + digits + path;
    assert s == a + b;
    SchemeNoPort(scheme);
    NotStartsWith(s, AcctScheme, 0);
    NoColonNoPort(host);
    NoPortAppend(scheme, host);
    assert a[|a| - 1] != ':';
    StripPortsAppend(a, b);
    assert PortAt(b, 0);
    assert b[1..] == digits + path;
    DropDigitsOver(digits, path);
    NoColonNoPort(path);
    StripPortsNoPort(path);
    PortGuardRedundant(s);
  }

  lemma {:induction false} HostPartStops(host: string, p: string)
    requires forall k :: 0 <= k < |host| ==> !IsNetlocEnd(host[k])
    requires |p| == 0 || IsNetlocEnd(p[0])
    ensures HostPart(host + p) == host
    decreases |host|
  {
    if |host| == 0 {
      assert host + p == p;
    } else {
      assert (host + p)[1..] == host[1..] + p;
      HostPartStops(host[1..], p);
      assert host == [host[0]] + host[1..];
    }
  }

  /** The netloc of a host followed by a path, query or fragment is the host. */
  lemma HostPartOfHostPath(host: string, path: string)
    requires NetlocText(host)
    requires |path| == 0 || IsNetlocEnd(path[0])
    ensures HostPart(RemoveUnsafe(host + path)) == host
  {
    RemoveUnsafeAppend(host, path);
    RemoveUnsafeKeeps(host);
    var p := RemoveUnsafe(path);
    if |path| > 0 {
      assert p == [path[0]] + RemoveUnsafe(path[1..]);
    }
    HostPartStops(host, p);
  }

  /** The URL branch's resource is the text after the scheme when no other scheme
      separator follows. */
  lemma UrlResourceDropsScheme(scheme: string, rest: string)
    requires scheme == Http || scheme == Https
    requires ':' !in rest
    ensures UrlResource(scheme + rest) == rest
  {
    if Contains(rest, Https) {
      ContainsChars(rest, Https, ':');
    }
    if Contains(rest, Http) {
      ContainsChars(rest, Http, ':');
    }
    if scheme == Https {
      RemoveAllDropsHead(rest, Https);
      RemoveAllDropsHead(rest, Http);
    } else {
      var s := Http + rest;
      NotStartsWith(s, Https, 4);
      assert s[1..] == "ttp://" + rest;
      RemoveAllKeepsHead("ttp://", rest, Https);
      assert RemoveAll(s, Https) == s;
      RemoveAllDropsHead(rest, Http);
    }
  }

  /** Lines 45-50 on a web URL whose host is plain text. */
  lemma ResolveUrl(scheme: string, host: string, path: string, nfkc: string -> string)
    requires scheme == Http || scheme == Https
    requires NetlocText(host)
    requires |path| == 0 || IsNetlocEnd(path[0])
    requires ':' !in path
    ensures Resolve(scheme + host + path, nfkc) == Success(Resolution(host + path, Https + host))
  {
    var rest := host + path;
    assert scheme + host + path == scheme + rest;
    assert ':' !in host;
    assert (scheme + rest)[..4] == "http";
    NetlocAfterScheme(scheme, rest, nfkc);
    HostPartOfHostPath(host, path);
    UrlResourceDropsScheme(scheme, rest);
  }

  /** Lines 44-50: a web URL resolves to its host and path, and its base to
      `https://` + host, whatever its own scheme was. */
  lemma NormalizeUrl(scheme: string, host: string, path: string, nfkc: string -> string)
    requires scheme == Http || scheme == Https
    requires NetlocText(host)
    requires |path| == 0 || IsNetlocEnd(path[0])
    requires ':' !in path
    ensures Normalize(scheme + host + path, nfkc) == Success(Resolution(host + path, Https + host))
  {
    assert ':' !in host;
    assert scheme + host + path == scheme + (host + path);
    PrepareUrlNoColon(scheme, host + path);
    ResolveUrl(scheme, host, path, nfkc);
  }

  /** Lines 40-41 then 44-50: a numeric port after the host is dropped before anything else
      looks at the URL. */
  lemma NormalizeUrlDropsPort(scheme: string, host: string, digits: string, path: string, nfkc: string -> string)
    requires scheme == Http || scheme == Https
    requires NetlocText(host)
    requires |digits| > 0 && forall k :: 0 <= k < |digits| ==> IsDigit(digits[k])
    requires |path| == 0 || IsNetlocEnd(path[0])
    requires ':' !in path
    ensures Normalize(scheme + host + ":" + digits + path, nfkc) == Success(Resolution(host + path, Https + host))
  {
    assert ':' !in host;
    PrepareUrlWithPort(scheme, host, digits, path);
    ResolveUrl(scheme, host, path, nfkc);
  }

  /** Lines 34-35: one `acct:` is dropped and then forgotten. */
  lemma AcctStrippedOnce(x: string, nfkc: string -> string)
    requires !StartsWith(x, AcctScheme)
    ensures Normalize(AcctScheme + x, nfkc) == Normalize(x, nfkc)
  {
    assert (AcctScheme + x)[..5] == AcctScheme;
    assert (AcctScheme + x)[5..] == x;
  }

  lemma {:induction false} ContainsAppendLeft(a: string, b: string, p: string)
    requires Contains(b, p)
    ensures Contains(a + b, p)
    decreases |a|
  {
    if |a| == 0 {
      assert a + b == b;
    } else {
      ContainsAppendLeft(a[1..], b, p);
      assert (a + b)[1..] == a[1..] + b;
    }
  }

  /** With a single `@` that no `/` precedes, the text has no `/@`. */
  lemma {:induction false} NoSlashBeforeAt(u: string, h: string)
    requires '@' !in u && '@' !in h
    requires |u| == 0 || u[|u| - 1] != '/'
    ensures !Contains(u + "@" + h, "/@")
    decreases |u|
  {
    var s := u + "@" + h;
    if |u| == 0 {
      assert s[0] == '@';
      NotStartsWith(s, "/@", 0);
      assert s[1..] == h;
      if Contains(h, "/@") {
        ContainsChars(h, "/@", '@');
      }
    } else {
      assert s[1..] == u[1..] + "@" + h;
      NoSlashBeforeAt(u[1..], h);
      if |u| == 1 {
        assert s[1] == '@' && s[0] != '/';
        NotStartsWith(s, "/@", 0);
      } else {
        assert s[1] == u[1] != '@';
        NotStartsWith(s, "/@", 1);
      }
    }
  }

  /** `split('@')[1]` is the text between the first and the second `@`. */
  lemma EmailHostIsSecondField(u: string, h: string, t: string)
    requires '@' !in u && '@' !in h
    requires |t| == 0 || t[0] == '@'
    ensures EmailHost(u + "@" + h + t) == h
  {
    var s := u + "@" + h + t;
    assert s == u + ['@'] + (h + t);
    SplitAtFirst(u, '@', h + t);
    if |t| == 0 {
      assert h + t == h;
      SplitWithoutSeparator(h, '@');
    } else {
      assert h + t == h + ['@'] + t[1..];
      SplitAtFirst(h, '@', t[1..]);
    }
  }

  /** Lines 54-59 on `user@host`. */
  lemma ResolveEmail(u: string, h: string, nfkc: string -> string)
    requires '@' !in u && '@' !in h
    requires !StartsWith(u, "http")
    requires |u| == 0 || u[|u| - 1] != '/'
    ensures Resolve(u + "@" + h, nfkc) == Success(Resolution(u + "@" + h, Https + h))
  {
    var s := u + "@" + h;
    assert s[|u|] == '@';
    if |u| >= 4 {
      assert s[..4] == u[..4];
    } else {
      NotStartsWith(s, "http", |u|);
    }
    NoSlashBeforeAt(u, h);
    EmailHostIsSecondField(u, h, []);
    assert s + [] == s;
  }

  /** Lines 53-59: `user@host`, with or without `acct:`, resolves to itself and to
      `https://host`. */
  lemma NormalizeEmail(u: string, h: string, nfkc: string -> string)
    requires '@' !in u && '@' !in h
    requires ':' !in u && ':' !in h
    requires !StartsWith(u, "http")
    requires |u| == 0 || u[|u| - 1] != '/'
    ensures Normalize(u + "@" + h, nfkc) == Success(Resolution(u + "@" + h, Https + h))
  {
    var s := u + "@" + h;
    assert ':' !in s;
    PrepareNoColon(s);
    ResolveEmail(u, h, nfkc);
  }

  /** The same with `acct:` in front. */
  lemma NormalizeAcctEmail(u: string, h: string, nfkc: string -> string)
    requires '@' !in u && '@' !in h
    requires ':' !in u && ':' !in h
    requires !StartsWith(u, "http")
    requires |u| == 0 || u[|u| - 1] != '/'
    ensures Normalize(AcctScheme + (u + "@" + h), nfkc) == Success(Resolution(u + "@" + h, Https + h))
  {
    var s := u + "@" + h;
    assert ':' !in s;
    NoColonNotAcct(s);
    NormalizeEmail(u, h, nfkc);
    AcctStrippedOnce(s, nfkc);
  }

  /** Lines 54-59 on text with more than one `@`: `split('@')[1]` makes the base the text
      between the first and the second `@`, while the resource keeps everything. */
  lemma ResolveEmailFields(u: string, h: string, t: string, nfkc: string -> string)
    requires '@' !in u && '@' !in h
    requires |t| == 0 || t[0] == '@'
    requires !StartsWith(u, "http")
    requires !Contains(u + "@" + h + t, "/@")
    ensures Resolve(u + "@" + h + t, nfkc) == Success(Resolution(u + "@" + h + t, Https + h))
  {
    var s := u + "@" + h + t;
    assert s[|u|] == '@';
    if |u| >= 4 {
      assert s[..4] == u[..4];
    } else {
      NotStartsWith(s, "http", |u|);
    }
    EmailHostIsSecondField(u, h, t);
  }

  /** The same through the whole function, for colon-free text. */
  lemma NormalizeEmailFields(u: string, h: string, t: string, nfkc: string -> string)
    requires '@' !in u && '@' !in h
    requires |t| == 0 || t[0] == '@'
    requires ':' !in u && ':' !in h && ':' !in t
    requires !StartsWith(u, "http")
    requires !Contains(u + "@" + h + t, "/@")
    ensures Normalize(u + "@" + h + t, nfkc) == Success(Resolution(u + "@" + h + t, Https + h))
  {
    var s := u + "@" + h + t;
    assert ':' !in s;
    PrepareNoColon(s);
    ResolveEmailFields(u, h, t, nfkc);
  }

  lemma NoColonJoin(host: string, path: string)
    requires NetlocText(host) && ':' !in path
    ensures ':' !in host + path
  {
    assert ':' !in host;
  }

  /** Lines 61-66 on a host followed by a path, query or fragment. */
  lemma ResolveHostPath(host: string, path: string, nfkc: string -> string)
    requires NetlocText(host) && '@' !in host
    requires |path| == 0 || IsNetlocEnd(path[0])
    requires '@' !in path || Contains(path, "/@")
    requires !StartsWith(host + path, "http")
    ensures Resolve(host + path, nfkc) == Success(Resolution(host + path, Https + host))
  {
    var s := host + path;
    if '@' in s {
      assert '@' in path;
      ContainsAppendLeft(host, path, "/@");
    }
    assert Classify(s) == HostForm;
    NetlocAfterScheme(Https, s, nfkc);
    HostPartOfHostPath(host, path);
    assert '[' !in host && ']' !in host;
    assert Netloc(Https + s, nfkc) == Success(host);
  }

  /** Lines 61-66: a host with a path, a `/@user` handle or nothing after it resolves to
      itself and to `https://` + host. */
  lemma NormalizeHostPath(host: string, path: string, nfkc: string -> string)
    requires NetlocText(host) && '@' !in host
    requires |path| == 0 || IsNetlocEnd(path[0])
    requires ':' !in path
    requires '@' !in path || Contains(path, "/@")
    requires !StartsWith(host + path, "http")
    ensures Normalize(host + path, nfkc) == Success(Resolution(host + path, Https + host))
  {
    NoColonJoin(host, path);
    PrepareNoColon(host + path);
    ResolveHostPath(host, path, nfkc);
  }

  /** The same with `acct:` in front. */
  lemma NormalizeAcctHostPath(host: string, path: string, nfkc: string -> string)
    requires NetlocText(host) && '@' !in host
    requires |path| == 0 || IsNetlocEnd(path[0])
    requires ':' !in path
    requires '@' !in path || Contains(path, "/@")
    requires !StartsWith(host + path, "http")
    ensures Normalize(AcctScheme + (host + path), nfkc) == Success(Resolution(host + path, Https + host))
  {
    NoColonJoin(host, path);
    NoColonNotAcct(host + path);
    NormalizeHostPath(host, path, nfkc);
    AcctStrippedOnce(host + path, nfkc);
  }

  /** Lines 61-66 on a bare host with one square bracket but not the other: `normalize`
      raises instead of returning. */
  lemma NormalizeUnbalancedHost(host: string, nfkc: string -> string)
    requires forall k :: 0 <= k < |host| ==> host[k] !in ":/?#@" && !IsUnsafe(host[k])
    requires ('[' in host) != (']' in host)
    requires !StartsWith(host, "http")
    ensures Normalize(host, nfkc) == Failure(InvalidIPv6Url)
  {
    BareHost(host, nfkc);
  }


  /** A text without delimiters is its own undelimited form. */
  lemma UndelimitedPlain(host: string)
    requires forall k :: 0 <= k < |host| ==> host[k] !in ":#?@"
    ensures Undelimited(host) == host
  {
    if Contains(host, "@") { ContainsChars(host, "@", '@'); }
    if Contains(host, ":") { ContainsChars(host, ":", ':'); }
    if Contains(host, "#") { ContainsChars(host, "#", '#'); }
    if Contains(host, "?") { ContainsChars(host, "?", '?'); }
  }

  /** Lines 61-66 on a bare non-ASCII host that NFKC normalisation turns into text holding a
      delimiter: `normalize` raises instead of returning. */
  lemma NormalizeNfkcDelimiter(host: string, nfkc: string -> string)
    requires forall k :: 0 <= k < |host| ==> host[k] !in ":/?#@[]" && !IsUnsafe(host[k])
    requires !StartsWith(host, "http")
    requires !IsAscii(host)
    requires nfkc(host) != host
    requires exists k :: 0 <= k < |nfkc(host)| && IsNetlocDelimiter(nfkc(host)[k])
    ensures Normalize(host, nfkc) == Failure(InvalidUnderNfkc)
  {
    BareHost(host, nfkc);
    UndelimitedPlain(host);
  }

  /** A bare host without colon, `@`, end or unsafe characters is checked as it stands. */
  lemma BareHost(host: string, nfkc: string -> string)
    requires forall k :: 0 <= k < |host| ==> host[k] !in ":/?#@" && !IsUnsafe(host[k])
    requires !StartsWith(host, "http")
    ensures Normalize(host, nfkc) == (var n :- CheckNetloc(host, nfkc); Success(Resolution(host, Https + n)))
  {
    assert ':' !in host && '@' !in host;
    PrepareNoColon(host);
    assert Classify(host) == HostForm;
    BareHostNetloc(host, nfkc);
  }

  lemma BareHostNetloc(host: string, nfkc: string -> string)
    requires forall k :: 0 <= k < |host| ==> host[k] !in "/?#" && !IsUnsafe(host[k])
    ensures Netloc(Https + host, nfkc) == CheckNetloc(host, nfkc)
  {
    NetlocAfterScheme(Https, host, nfkc);
    RemoveUnsafeKeeps(host);
    HostPartStops(host, []);
    assert host + [] == host;
  }


  // ---------------------------------------------------------------------------------------
  // Worked cases

  /** A profile URL with a port: the port is dropped and the scheme replaced by `https`. */
  lemma ExampleUrlWithPort(nfkc: string -> string)
    ensures Normalize(Http + "lamia.social:8080/@lamia", nfkc)
         == Success(Resolution("lamia.social/@lamia", Https + "lamia.social"))
  {
    var host, digits, path := "lamia.social", "8080", "/@lamia";
    assert NetlocText(host);
    assert host + ":" + digits + path == "lamia.social:8080/@lamia";
    assert Http + host + ":" + digits + path == Http + "lamia.social:8080/@lamia";
    assert host + path == "lamia.social/@lamia";
    NormalizeUrlDropsPort(Http, host, digits, path, nfkc);
  }

  /** An `acct:` address resolves to itself without the scheme. */
  lemma ExampleAcct(nfkc: string -> string)
    ensures Normalize(AcctScheme + "lamia@lamia.social", nfkc)
         == Success(Resolution("lamia@lamia.social", Https + "lamia.social"))
  {
    var u, h := "lamia", "lamia.social";
    NotStartsWith(u, "http", 0);
    assert u + "@" + h == "lamia@lamia.social";
    NormalizeAcctEmail(u, h, nfkc);
  }

  /** A `host/@user` handle is looked up on the host. */
  lemma ExampleHandle(nfkc: string -> string)
    ensures Normalize("lamia.social" + "/@lamia", nfkc)
         == Success(Resolution("lamia.social" + "/@lamia", Https + "lamia.social"))
  {
    var host, path := "lamia.social", "/@lamia";
    assert NetlocText(host);
    NotStartsWith(host + path, "http", 0);
    assert path[..2] == "/@";
    NormalizeHostPath(host, path, nfkc);
  }


  /** The same handle behind `acct:`. */
  lemma ExampleAcctHandle(nfkc: string -> string)
    ensures Normalize(AcctScheme + ("lamia.social" + "/@lamia"), nfkc)
         == Success(Resolution("lamia.social" + "/@lamia", Https + "lamia.social"))
  {
    var host, path := "lamia.social", "/@lamia";
    assert NetlocText(host);
    NotStartsWith(host + path, "http", 0);
    assert path[..2] == "/@";
    NormalizeAcctHostPath(host, path, nfkc);
  }


  /** The empty identifier is not an error: it asks the empty host. */
  lemma ExampleEmpty(nfkc: string -> string)
    ensures Normalize("", nfkc) == Success(Resolution("", "https://"))
  {
    assert NetlocText("");
    assert "" + "" == "";
    assert Https + "" == Https;
    NormalizeHostPath("", "", nfkc);
  }

  /** An `http` URL with user information keeps it in the base: the URL test wins over
      the `@` test. */
  lemma ExampleUrlWithUser(nfkc: string -> string)
    ensures Normalize(Http + "lamia@lamia.social", nfkc)
         == Success(Resolution("lamia@lamia.social", Https + "lamia@lamia.social"))
  {
    var host := "lamia@lamia.social";
    assert NetlocText(host);
    assert Http + host + "" == Http + host;
    assert host + "" == host;
    NormalizeUrl(Http, host, "", nfkc);
  }

  /** A square bracket without its partner makes `urlparse` raise. */
  lemma ExampleUnbalancedBracket(nfkc: string -> string)
    ensures Normalize("[lamia.social", nfkc) == Failure(InvalidIPv6Url)
  {
    var host := "[lamia.social";
    assert host[0] == '[';
    NotStartsWith(host, "http", 0);
    NormalizeUnbalancedHost(host, nfkc);
  }

  /** The example of the URL branch: the path stays in the resource, not in the base. */
  lemma ExampleUrl(nfkc: string -> string)
    ensures Normalize(Http + "lamia.social/users/lamia", nfkc)
         == Success(Resolution("lamia.social/users/lamia", Https + "lamia.social"))
  {
    var host, path := "lamia.social", "/users/lamia";
    assert NetlocText(host);
    assert host + path == "lamia.social/users/lamia";
    assert Http + host + path == Http + "lamia.social/users/lamia";
    NormalizeUrl(Http, host, path, nfkc);
  }

  /** The email branch does not cut the host at a `/`: a path after the host ends up in the
      discovery base. */
  lemma ExampleEmailWithPath(nfkc: string -> string)
    ensures Normalize("lamia" + "@" + "lamia.social/about", nfkc)
         == Success(Resolution("lamia" + "@" + "lamia.social/about", Https + "lamia.social/about"))
  {
    NotStartsWith("lamia", "http", 0);
    NormalizeEmail("lamia", "lamia.social/about", nfkc);
  }


  /** A fullwidth commercial at, which NFKC maps to `@`, makes `urlparse` raise. */
  lemma ExampleFullwidthAt(nfkc: string -> string)
    requires nfkc("lamia\U{FF20}lamia.social") == "lamia@lamia.social"
    ensures Normalize("lamia\U{FF20}lamia.social", nfkc) == Failure(InvalidUnderNfkc)
  {
    var host := "lamia\U{FF20}lamia.social";
    assert host[0] == 'l' && host[1] == 'a';
    NotStartsWith(host, "http", 1);
    assert (host[5] as int) >= 0x80;
    assert IsNetlocDelimiter(nfkc(host)[5]);
    NormalizeNfkcDelimiter(host, nfkc);
  }

  /** With two `@`s the base is the text between them. */
  lemma ExampleTwoAts(nfkc: string -> string)
    ensures Normalize("lamia@lamia.social" + "@example.org", nfkc)
         == Success(Resolution("lamia@lamia.social" + "@example.org", Https + "lamia.social"))
  {
    var u, h := "lamia", "lamia.social";
    NotStartsWith(u, "http", 0);
    assert u + "@" + h == "lamia@lamia.social";
    NoSlashHandle(u + "@" + h + "@example.org");
    NormalizeEmailFields(u, h, "@example.org", nfkc);
  }

  /** Text without a `/` holds no `/@`. */
  lemma NoSlashHandle(s: string)
    requires forall k :: 0 <= k < |s| ==> s[k] != '/'
    ensures !Contains(s, "/@")
  {
    if Contains(s, "/@") {
      ContainsChars(s, "/@", '/');
    }
  }
}
