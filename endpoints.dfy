/**
 * The endpoint URLs a `Client` is built with: one prefix, made of the
 * server's origin and its path as a directory, followed by the name of each
 * endpoint.
 */
module Endpoints {

  /** The parts of a `java.net.URL` the client reads; `port` is -1 when the
      URL names none. */
  datatype Url = Url(protocol: string, host: string, port: int, path: string)

  predicate IsDigit(c: char) { '0' <= c <= '9' }

  function DigitChar(d: nat): (c: char)
    requires d < 10
    ensures IsDigit(c)
  {
    ['0', '1', '2', '3', '4', '5', '6', '7', '8', '9'][d]
  }

  function DigitValue(c: char): (d: nat)
    requires IsDigit(c)
    ensures d < 10
  {
    (c as int - '0' as int) as nat
  }

  /** The decimal digits of `n`, without leading zeros. */
  function Digits(n: nat): (s: string)
    ensures |s| >= 1 && forall i :: 0 <= i < |s| ==> IsDigit(s[i])
    ensures |s| > 1 ==> s[0] != '0'
  {
    if n < 10 then [DigitChar(n)] else Digits(n / 10) + [DigitChar(n % 10)]
  }

  /** The value of a string of decimal digits. */
  function DigitsValue(s: string): (n: nat)
    requires forall i :: 0 <= i < |s| ==> IsDigit(s[i])
  {
    if s == [] then 0 else DigitsValue(s[..|s| - 1]) * 10 + DigitValue(s[|s| - 1])
  }

  /** Java's string form of an `int`, as `":" + url.getPort()` writes it. */
  function IntString(v: int): (s: string)
    ensures |s| >= 1
  {
    if v < 0 then "-" + Digits(-v) else Digits(v)
  }

  /** Reading back Java's string form of an integer. */
  function ParseInt(s: string): (v: int)
    requires |s| >= 1
    requires forall i :: (if s[0] == '-' then 1 else 0) <= i < |s| ==> IsDigit(s[i])
  {
    if s[0] == '-' then -(DigitsValue(s[1..]) as int) else DigitsValue(s)
  }

  lemma {:induction false} DigitsRoundTrip(n: nat)
    ensures DigitsValue(Digits(n)) == n
  {
    if n >= 10 {
      DigitsRoundTrip(n / 10);
      var s := Digits(n);
      assert s[..|s| - 1] == Digits(n / 10);
    }
  }

  /** The port is written without loss: its string reads back as the same
      number, so two different ports never give the same origin text. */
  lemma IntStringRoundTrip(v: int)
    ensures ParseInt(IntString(v)) == v
  {
    if v < 0 {
      NegativeRoundTrip(-v);
    } else {
      DigitsRoundTrip(v);
    }
  }

  lemma NegativeRoundTrip(n: nat)
    requires n > 0
    ensures ParseInt("-" + Digits(n)) == -(n as int)
  {
    var d := Digits(n);
    var s := "-" + d;
    assert s[1..] == d;
    DigitsRoundTrip(n);
  }

  predicate EndsWithSlash(s: string)
  {
    |s| > 0 && s[|s| - 1] == '/'
  }

  /** `protocol://host`, then `:port` when the URL names one. */
  function Origin(u: Url): (s: string)
    ensures u.protocol + "://" + u.host <= s
    ensures u.port == -1 <==> |s| == |u.protocol| + 3 + |u.host|
  {
    var base := u.protocol + "://" + u.host;
    if u.port != -1 then base + ":" + IntString(u.port) else base
  }

  /** The path as a directory: a `/` is added unless it already ends in one. */
  function Directory(path: string): (d: string)
    ensures EndsWithSlash(d) && path <= d
    ensures |d| == if EndsWithSlash(path) then |path| else |path| + 1
  {
    if EndsWithSlash(path) then path else path + "/"
  }

  /** The common part of the four endpoint URLs. */
  function Prefix(u: Url): (p: string)
    ensures EndsWithSlash(p)
    ensures Origin(u) + u.path <= p
    ensures |p| == |Origin(u)| + |Directory(u.path)|
  {
    Origin(u) + Directory(u.path)
  }

  /** Making the path a directory a second time changes nothing: a client
      built from its own prefix has the same endpoints. */
  lemma DirectoryIdempotent(path: string)
    ensures Directory(Directory(path)) == Directory(path)
  {
  }

  lemma PrefixOfNormalizedPath(u: Url)
    ensures Prefix(u.(path := Directory(u.path))) == Prefix(u)
  {
    DirectoryIdempotent(u.path);
  }

  /** A path ending in `/` is kept as it is; any other path gets exactly one
      `/` appended, never two. */
  lemma PrefixSlash(u: Url)
    ensures EndsWithSlash(u.path) ==> Prefix(u) == Origin(u) + u.path
    ensures !EndsWithSlash(u.path) ==> Prefix(u) == Origin(u) + u.path + "/"
  {
  }

  /** The four endpoints and their URL names. */
  const GET: string := "get"
  const GET_MULTI: string := "getMulti"
  const APPEND: string := "append"
  const SCAN: string := "scan"

  /** `new Client(url)`: the four endpoint URLs, each the prefix followed by
      the endpoint's name. */
  class Client {
    const urlGet: string
    const urlGetMulti: string
    const urlAppend: string
    const urlScan: string

    constructor (url: Url)
      ensures urlGet == Prefix(url) + GET
      ensures urlGetMulti == Prefix(url) + GET_MULTI
      ensures urlAppend == Prefix(url) + APPEND
      ensures urlScan == Prefix(url) + SCAN
    {
      var prefix: string;
      if url.port != -1 {
        prefix := url.protocol + "://" + url.host + ":" + IntString(url.port);
      } else {
        prefix := url.protocol + "://" + url.host;
      }
      prefix := prefix + url.path;
      if !EndsWithSlash(url.path) {
        prefix := prefix + "/";
      }
      urlGet := prefix + GET;
      urlGetMulti := prefix + GET_MULTI;
      urlAppend := prefix + APPEND;
      urlScan := prefix + SCAN;
    }
  }

  /** Each endpoint URL is the prefix followed by its own name: stripping the
      prefix gives back the name, so no two endpoints share a URL. */
  lemma EndpointsDistinct(u: Url)
    ensures var p := Prefix(u);
      && (p + GET)[|p|..] == GET && (p + GET_MULTI)[|p|..] == GET_MULTI
      && (p + APPEND)[|p|..] == APPEND && (p + SCAN)[|p|..] == SCAN
    ensures var p := Prefix(u);
      var urls := [p + GET, p + GET_MULTI, p + APPEND, p + SCAN];
      forall i, j :: 0 <= i < j < 4 ==> urls[i] != urls[j]
  {
    var p := Prefix(u);
    var a, b, c, d := p + GET, p + GET_MULTI, p + APPEND, p + SCAN;
    assert a[|p|..] == GET && b[|p|..] == GET_MULTI && c[|p|..] == APPEND && d[|p|..] == SCAN;
    assert |a| != |b| && |c| != |d|;
    assert a[|p|] != c[|p|] && a[|p|] != d[|p|] && b[|p|] != c[|p|] && b[|p|] != d[|p|];
  }
}
