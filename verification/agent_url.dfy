/** The Datadog Agent URL parser `HTTPClient::URL::parse`: a simplified
    form of the generic URI syntax of section 3 of RFC 3986 that splits
    `scheme://authority[/path]`, with the extra `+unix` schemes whose whole
    remainder is an absolute path to a unix domain socket. */
module AgentUrl {
  import opened Wrappers

  const SEPARATOR := "://"
  const SUPPORTED_SCHEMES := ["http", "https", "unix", "http+unix", "https+unix"]

  /** The supported schemes that name a unix domain socket. */
  const UNIX_SCHEMES := ["unix", "http+unix", "https+unix"]

  datatype Url = Url(scheme: string, authority: string, path: string)

  /** The error codes `parse` reports; the accompanying message text is not modelled. */
  datatype ErrorCode =
    | UrlMissingSeparator
    | UrlUnsupportedScheme
    | UrlUnixDomainSocketPathNotAbsolute

  predicate MatchesAt(s: string, pattern: string, i: nat)
  {
    i + |pattern| <= |s| && s[i..i + |pattern|] == pattern
  }

  /** `k` is where the first `"://"` of `input` begins. */
  predicate FirstSeparatorAt(input: string, k: nat)
  {
    MatchesAt(input, SEPARATOR, k) && forall j :: 0 <= j < k ==> !MatchesAt(input, SEPARATOR, j)
  }

  /** `std::search` from `from`: the first position where `pattern` occurs,
      or the end of `s` when it occurs nowhere. */
  function Search(s: string, pattern: string, from: nat): (k: nat)
    requires from <= |s| && |pattern| > 0
    ensures from <= k <= |s|
    ensures k < |s| ==> MatchesAt(s, pattern, k)
    ensures forall j :: from <= j < k ==> !MatchesAt(s, pattern, j)
    ensures k == |s| ==> forall j :: from <= j ==> !MatchesAt(s, pattern, j)
    decreases |s| - from
  {
    if from == |s| then from
    else if MatchesAt(s, pattern, from) then from
    else Search(s, pattern, from + 1)
  }

  /** `std::find`: the first position holding `c`, or the end of `s`. */
  function Find(s: string, c: char): (k: nat)
    ensures k <= |s| && c !in s[..k]
    ensures k < |s| ==> s[k] == c
  {
    if |s| == 0 then 0
    else if s[0] == c then 0
    else
      var k := 1 + Find(s[1..], c);
      assert s[..k] == [s[0]] + s[1..][..k - 1];
      k
  }

  /** What `parse` does once the scheme and the remainder after `"://"` are
      known. */
  function ParseAfterScheme(scheme: string, rest: string): (r: Result<Url, ErrorCode>)
    ensures r == Err(UrlUnsupportedScheme) <==> scheme !in SUPPORTED_SCHEMES
    ensures r == Err(UrlUnixDomainSocketPathNotAbsolute) <==>
              scheme in SUPPORTED_SCHEMES && scheme in UNIX_SCHEMES && (|rest| == 0 || rest[0] != '/')
    ensures r.Err? ==> r.error != UrlMissingSeparator
    ensures r.Ok? ==> r.value.scheme == scheme && r.value.authority + r.value.path == rest
    ensures r.Ok? ==> scheme in SUPPORTED_SCHEMES
    ensures r.Ok? && scheme in UNIX_SCHEMES ==>
              r.value.path == "" && |r.value.authority| > 0 && r.value.authority[0] == '/'
    ensures r.Ok? && scheme !in UNIX_SCHEMES ==>
              '/' !in r.value.authority && (r.value.path == "" || r.value.path[0] == '/')
  {
    if scheme !in SUPPORTED_SCHEMES then Err(UrlUnsupportedScheme)
    else if scheme in UNIX_SCHEMES then
      if |rest| == 0 || rest[0] != '/' then Err(UrlUnixDomainSocketPathNotAbsolute)
      else Ok(Url(scheme, rest, ""))
    else
      var slash := Find(rest, '/');
      assert rest == rest[..slash] + rest[slash..];
      Ok(Url(scheme, rest[..slash], rest[slash..]))
  }

  lemma SeparatorAtMostOnceFirst(input: string, k: nat, m: nat)
    requires FirstSeparatorAt(input, k) && FirstSeparatorAt(input, m)
    ensures k == m
  {
  }

  /** Cutting the input around a separator at `at` loses nothing. */
  lemma SplitAtSeparator(input: string, at: nat)
    requires MatchesAt(input, SEPARATOR, at)
    ensures input == input[..at] + SEPARATOR + input[at + 3..]
    ensures |input| == at + 3 || input[at + 3..][0] == input[at + 3]
  {
    assert input == input[..at] + input[at..at + 3] + input[at + 3..];
  }

  function Parse(input: string): (r: Result<Url, ErrorCode>)
    ensures r == Err(UrlMissingSeparator) <==> forall j :: 0 <= j ==> !MatchesAt(input, SEPARATOR, j)
    ensures r.Err? && r.error != UrlMissingSeparator ==>
              exists k: nat :: FirstSeparatorAt(input, k)
    ensures r.Ok? ==> r.value.scheme + SEPARATOR + r.value.authority + r.value.path == input
    ensures r.Ok? ==> FirstSeparatorAt(input, |r.value.scheme|) && r.value.scheme in SUPPORTED_SCHEMES
    ensures r.Ok? && r.value.scheme in UNIX_SCHEMES ==>
              r.value.path == "" && |r.value.authority| > 0 && r.value.authority[0] == '/'
    ensures r.Ok? && r.value.scheme !in UNIX_SCHEMES ==>
              '/' !in r.value.authority && (r.value.path == "" || r.value.path[0] == '/')
  {
    var at := Search(input, SEPARATOR, 0);
    if at == |input| then
      assert forall k: nat :: !FirstSeparatorAt(input, k);
      Err(UrlMissingSeparator)
    else
      assert FirstSeparatorAt(input, at);
      SplitAtSeparator(input, at);
      ParseAfterScheme(input[..at], input[at + 3..])
  }

  /** The text a URL is written as. */
  function Format(u: Url): string
  {
    u.scheme + SEPARATOR + u.authority + u.path
  }

  /** The URLs `Parse` can produce. */
  predicate Valid(u: Url)
  {
    u.scheme in SUPPORTED_SCHEMES
    && (if u.scheme in UNIX_SCHEMES
        then u.path == "" && |u.authority| > 0 && u.authority[0] == '/'
        else '/' !in u.authority && (u.path == "" || u.path[0] == '/'))
  }

  /** A separator occurrence begins with a colon. */
  lemma SeparatorStartsWithColon(s: string, j: nat)
    requires MatchesAt(s, SEPARATOR, j)
    ensures s[j] == ':'
  {
    assert s[j..j + 3][0] == ':';
  }

  /** With no colon before `k`, no separator begins before `k`. */
  lemma NoSeparatorBefore(s: string, k: nat)
    requires k <= |s| && forall j :: 0 <= j < k ==> s[j] != ':'
    ensures forall j :: 0 <= j < k ==> !MatchesAt(s, SEPARATOR, j)
  {
    forall j | 0 <= j < k && MatchesAt(s, SEPARATOR, j)
      ensures false
    {
      SeparatorStartsWithColon(s, j);
    }
  }

  /** The text of a URL with a supported scheme has its first separator
      right after the scheme. */
  lemma FormatSeparator(u: Url)
    requires u.scheme in SUPPORTED_SCHEMES
    ensures FirstSeparatorAt(Format(u), |u.scheme|)
  {
    var input := Format(u);
    var n := |u.scheme|;
    assert ':' !in u.scheme;
    assert input[..n] == u.scheme;
    assert input[n..n + 3] == SEPARATOR;
    NoSeparatorBefore(input, n);
  }

  /** Once the first separator is known, parsing continues with the
      scheme before it and the remainder after it. */
  lemma ParseAt(input: string, n: nat)
    requires FirstSeparatorAt(input, n)
    ensures Parse(input) == ParseAfterScheme(input[..n], input[n + 3..])
  {
    var at := Search(input, SEPARATOR, 0);
    assert at < |input|;
    assert FirstSeparatorAt(input, at);
    SeparatorAtMostOnceFirst(input, n, at);
  }

  /** The two errors raised after the separator is found, each exactly
      when its condition on the scheme and the remainder holds. */
  lemma ParseErrors(input: string, k: nat)
    requires FirstSeparatorAt(input, k)
    ensures Parse(input) == Err(UrlUnsupportedScheme) <==> input[..k] !in SUPPORTED_SCHEMES
    ensures Parse(input) == Err(UrlUnixDomainSocketPathNotAbsolute) <==>
              input[..k] in UNIX_SCHEMES && (|input| == k + 3 || input[k + 3] != '/')
  {
    ParseAt(input, k);
    if |input| > k + 3 {
      assert input[k + 3..][0] == input[k + 3];
    }
  }

  /** Splitting at the first slash is the only way to cut a string into a
      slash-free part and a part that is empty or starts with a slash. */
  lemma SlashSplitUnique(a: string, p: string, b: string, q: string)
    requires a + p == b + q && '/' !in a && '/' !in b
    requires (p == "" || p[0] == '/') && (q == "" || q[0] == '/')
    ensures a == b && p == q
  {
    assert a == (a + p)[..|a|] && b == (b + q)[..|b|];
  }

  /** A valid URL's remainder is split back into its authority and path. */
  lemma ParseAfterSchemeValid(u: Url)
    requires Valid(u)
    ensures ParseAfterScheme(u.scheme, u.authority + u.path) == Ok(u)
  {
    var r := ParseAfterScheme(u.scheme, u.authority + u.path);
    if u.scheme in UNIX_SCHEMES {
      assert u.authority + u.path == u.authority;
    } else {
      SlashSplitUnique(r.value.authority, r.value.path, u.authority, u.path);
    }
  }

  /** Every valid URL is parsed back from its text. */
  lemma ParseFormat(u: Url)
    requires Valid(u)
    ensures Parse(Format(u)) == Ok(u)
  {
    var input := Format(u);
    var n := |u.scheme|;
    FormatSeparator(u);
    assert input[..n] == u.scheme;
    assert input[n + 3..] == u.authority + u.path;
    ParseAt(input, n);
    ParseAfterSchemeValid(u);
  }

  /** Small worked examples, one per error. */
  lemma ParseUnsupportedExample(input: string)
    requires input == "ftp://x"
    ensures Parse(input) == Err(UrlUnsupportedScheme)
  {
    NoSeparatorBefore(input, 3);
    assert MatchesAt(input, SEPARATOR, 3);
    ParseErrors(input, 3);
  }

  lemma ParseMissingSeparatorExample(input: string)
    requires input == "http//x"
    ensures Parse(input) == Err(UrlMissingSeparator)
  {
    NoSeparatorBefore(input, |input|);
  }

  lemma ParseRelativeSocketExample(input: string)
    requires input == "unix://"
    ensures Parse(input) == Err(UrlUnixDomainSocketPathNotAbsolute)
  {
    NoSeparatorBefore(input, 4);
    assert MatchesAt(input, SEPARATOR, 4);
    assert input[..4] == "unix";
    ParseErrors(input, 4);
  }
}
