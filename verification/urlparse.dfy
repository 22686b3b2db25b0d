/** The part of Python's `urllib.parse.urlparse` that `normalize` reads: the `netloc` field,
    following CPython 3.8.11 and later 3.8 releases. */
module UrlParse {
  import opened Wrappers
  import opened Strings

  /** The two `ValueError`s `urlsplit` raises about a netloc: `InvalidIPv6Url` for one square
      bracket without the other, `InvalidUnderNfkc` when NFKC normalisation would turn
      characters of a non-ASCII netloc into delimiters. */
  datatype UrlError = InvalidIPv6Url | InvalidUnderNfkc

  /** Tab, carriage return and line feed are deleted from the whole URL before it is split. */
  predicate IsUnsafe(c: char) {
    c == '\t' || c == '\r' || c == '\n'
  }

  function RemoveUnsafe(s: string): (r: string)
    ensures |r| <= |s|
    ensures forall k :: 0 <= k < |r| ==> !IsUnsafe(r[k])
    decreases |s|
  {
    if |s| == 0 then []
    else (if IsUnsafe(s[0]) then [] else [s[0]]) + RemoveUnsafe(s[1..])
  }

  /** Nothing but the unsafe characters is removed, and only when there are any. */
  lemma {:induction false} RemoveUnsafeKeeps(s: string)
    ensures forall c :: c in RemoveUnsafe(s) ==> c in s
    ensures (forall k :: 0 <= k < |s| ==> !IsUnsafe(s[k])) ==> RemoveUnsafe(s) == s
    decreases |s|
  {
    if |s| > 0 {
      RemoveUnsafeKeeps(s[1..]);
      assert s == [s[0]] + s[1..];
    }
  }

  lemma {:induction false} RemoveUnsafeAppend(a: string, b: string)
    ensures RemoveUnsafe(a + b) == RemoveUnsafe(a) + RemoveUnsafe(b)
    decreases |a|
  {
    if |a| == 0 {
      assert a + b == b;
    } else {
      var head := if IsUnsafe(a[0]) then [] else [a[0]];
      assert (a + b)[0] == a[0];
      assert (a + b)[1..] == a[1..] + b;
      RemoveUnsafeAppend(a[1..], b);
      calc {
        RemoveUnsafe(a + b);
        head + RemoveUnsafe(a[1..] + b);
        head + (RemoveUnsafe(a[1..]) + RemoveUnsafe(b));
        (head + RemoveUnsafe(a[1..])) + RemoveUnsafe(b);
        RemoveUnsafe(a) + RemoveUnsafe(b);
      }
    }
  }

  /** `scheme_chars`: ASCII letters, digits and `+-.` */
  predicate IsSchemeChar(c: char) {
    ('a' <= c <= 'z') || ('A' <= c <= 'Z') || ('0' <= c <= '9') || c == '+' || c == '-' || c == '.'
  }

  predicate AllSchemeChars(s: string) {
    forall k :: 0 <= k < |s| ==> IsSchemeChar(s[k])
  }

  predicate AllDigits(s: string) {
    forall k :: 0 <= k < |s| ==> IsDigit(s[k])
  }

  /** What is left of `url` once a scheme is recognised and removed; `url` itself when
      there is none. The scheme is the text before the first `:` when it is non-empty and
      made of scheme characters, except that a non-`http` candidate followed only by digits
      is read as a host and port instead. */
  function SchemeRest(url: string): (r: string)
    ensures |r| <= |url|
  {
    if ':' !in url then url
    else
      var i := IndexOf(url, ':');
      if i > 0 && AllSchemeChars(url[..i]) then
        if url[..i] == "http" then url[i + 1..]
        else if |url[i + 1..]| == 0 || !AllDigits(url[i + 1..]) then url[i + 1..]
        else url
      else url
  }

  lemma SchemeRestSuffix(url: string)
    ensures SchemeRest(url) == url[|url| - |SchemeRest(url)|..]
  {
  }

  /** The characters that end the network location. */
  predicate IsNetlocEnd(c: char) {
    c == '/' || c == '?' || c == '#'
  }

  /** `_splitnetloc`: the text up to the first `/`, `?` or `#`. */
  function HostPart(s: string): (r: string)
    ensures |r| <= |s|
    ensures forall k :: 0 <= k < |r| ==> !IsNetlocEnd(r[k])
    ensures |r| == |s| || IsNetlocEnd(s[|r|])
    decreases |s|
  {
    if |s| == 0 || IsNetlocEnd(s[0]) then []
    else [s[0]] + HostPart(s[1..])
  }

  /** The host part is the text before the first end character. */
  lemma {:induction false} HostPartPrefix(s: string)
    ensures HostPart(s) == s[..|HostPart(s)|]
    decreases |s|
  {
    if |s| > 0 && !IsNetlocEnd(s[0]) {
      HostPartPrefix(s[1..]);
      assert s[..|HostPart(s)|] == [s[0]] + s[1..][..|HostPart(s[1..])|];
    }
  }

  /** The bracket check applied to every netloc that was found. */
  function CheckBrackets(netloc: string): (r: Result<string, UrlError>)
    ensures r.Success? <==> (('[' in netloc) <==> (']' in netloc))
    ensures r.Success? ==> r.value == netloc
  {
    if ('[' in netloc && ']' !in netloc) || (']' in netloc && '[' !in netloc) then Failure(InvalidIPv6Url)
    else Success(netloc)
  }

  /** `str.isascii()` */
  predicate IsAscii(s: string) {
    forall k :: 0 <= k < |s| ==> (s[k] as int) < 0x80
  }

  /** The characters `_checknetloc` refuses to see appear under normalisation. */
  predicate IsNetlocDelimiter(c: char) {
    c == '/' || c == '?' || c == '#' || c == '@' || c == ':'
  }

  /** The netloc with the delimiters it already holds taken out, before normalising. */
  function Undelimited(netloc: string): string {
    RemoveAll(RemoveAll(RemoveAll(RemoveAll(netloc, "@"), ":"), "#"), "?")
  }

  /** `_checknetloc`: an ASCII netloc passes; otherwise, when `nfkc` changes the netloc with its
      delimiters taken out and the changed text holds a delimiter, the netloc is refused.
      `nfkc` stands for `unicodedata.normalize('NFKC', ...)`, which is a parameter here. */
  function CheckNfkc(netloc: string, nfkc: string -> string): (r: Result<string, UrlError>)
    ensures IsAscii(netloc) ==> r == Success(netloc)
    ensures r.Success? ==> r.value == netloc
    ensures r.Failure? <==>
      && !IsAscii(netloc)
      && nfkc(Undelimited(netloc)) != Undelimited(netloc)
      && exists k :: 0 <= k < |nfkc(Undelimited(netloc))| && IsNetlocDelimiter(nfkc(Undelimited(netloc))[k])
  {
    if IsAscii(netloc) then Success(netloc)
    else
      var n := Undelimited(netloc);
      var n2 := nfkc(n);
      if n == n2 then Success(netloc)
      else if '/' in n2 || '?' in n2 || '#' in n2 || '@' in n2 || ':' in n2 then Failure(InvalidUnderNfkc)
      else Success(netloc)
  }

  /** Both checks `urlsplit` makes of a netloc it found, in its order. */
  function CheckNetloc(netloc: string, nfkc: string -> string): (r: Result<string, UrlError>)
    ensures r.Success? ==> r.value == netloc
    ensures (('[' in netloc) <==> (']' in netloc)) && IsAscii(netloc) ==> r == Success(netloc)
    ensures r == Failure(InvalidIPv6Url) <==> !(('[' in netloc) <==> (']' in netloc))
  {
    var checked :- CheckBrackets(netloc);
    CheckNfkc(checked, nfkc)
  }

  /** `urlparse(url).netloc`: the text after a `//` that follows the (optional) scheme, up to
      the next `/`, `?` or `#`; empty when no `//` follows. */
  function Netloc(url: string, nfkc: string -> string): (r: Result<string, UrlError>)
    ensures r.Success? ==> forall k :: 0 <= k < |r.value| ==> !IsNetlocEnd(r.value[k])
    ensures r.Failure? ==> '[' in url || ']' in url || !IsAscii(url)
  {
    var rest := SchemeRest(RemoveUnsafe(url));
    if StartsWith(rest, "//") then
      var host := HostPart(rest[2..]);
      HostChars(url, rest, host);
      AsciiChars(url, host);
      CheckNetloc(host, nfkc)
    else Success([])
  }

  /** Text made of characters of ASCII text is ASCII. */
  lemma AsciiChars(url: string, host: string)
    requires forall c :: c in host ==> c in url
    ensures IsAscii(url) ==> IsAscii(host)
  {
    if IsAscii(url) {
      forall k | 0 <= k < |host| ensures (host[k] as int) < 0x80 {
        assert host[k] in url;
      }
    }
  }

  lemma HostChars(url: string, rest: string, host: string)
    requires rest == SchemeRest(RemoveUnsafe(url)) && |rest| >= 2 && host == HostPart(rest[2..])
    ensures forall c :: c in host ==> c in url
  {
    var clean := RemoveUnsafe(url);
    RemoveUnsafeKeeps(url);
    SchemeRestSuffix(clean);
    HostPartPrefix(rest[2..]);
    forall c | c in host ensures c in url {
      var k :| 0 <= k < |host| && host[k] == c;
      assert rest[2 + k] == c;
      assert clean[|clean| - |rest| + 2 + k] == c;
    }
  }

  /** After an `http://` or `https://` prefix the netloc is the host part of the remainder,
      once tab, carriage return and line feed are dropped. */
  lemma NetlocAfterScheme(scheme: string, x: string, nfkc: string -> string)
    requires scheme == "http://" || scheme == "https://"
    ensures Netloc(scheme + x, nfkc) == CheckNetloc(HostPart(RemoveUnsafe(x)), nfkc)
  {
    var y := RemoveUnsafe(x);
    CleanSchemePrefix(scheme, x);
    SchemeRestOfWebScheme(scheme, y);
    var rest := "//" + y;
    assert SchemeRest(RemoveUnsafe(scheme + x)) == rest;
    assert StartsWith(rest, "//");
    assert rest[2..] == y;
  }

  lemma CleanSchemePrefix(scheme: string, x: string)
    requires scheme == "http://" || scheme == "https://"
    ensures RemoveUnsafe(scheme + x) == scheme + RemoveUnsafe(x)
  {
    RemoveUnsafeAppend(scheme, x);
    RemoveUnsafeKeeps(scheme);
  }

  /** `http` and `https` are recognised as schemes whatever follows them. */
  lemma SchemeRestOfWebScheme(scheme: string, y: string)
    requires scheme == "http://" || scheme == "https://"
    ensures SchemeRest(scheme + y) == "//" + y
  {
    var u := scheme + y;
    var n := |scheme| - 3;
    assert u[n] == ':';
    assert u[..n] == scheme[..n];
    var i := IndexOf(u, ':');
    assert i == n;
    assert u[i + 1..] == "//" + y;
    assert AllSchemeChars(u[..i]);
    if scheme == "https://" {
      assert u[..i] != "http";
      assert !AllDigits(u[i + 1..]) by {
        assert u[i + 1..][0] == '/';
      }
    }
  }
}
