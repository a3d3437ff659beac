/** The HTTP wire types and the request parser of `src/http.rs`: method and
    version tokens, the status catalogue, request parsing, the header and
    cookie helpers, and the rendering of a response's status line and
    headers. */
module Http {
  import opened Wrappers
  import opened Strings
  import opened Encoding

  /** The failures of the parser and the cookie helpers, one variant per
      distinct error the source raises. */
  datatype HttpError =
    | InvalidRequest      // no request line at all
    | MissingMethod
    | NoMatchingMethod
    | MissingPath
    | MissingVersion
    | NoMatchingVersion
    | MalformedHeader
    | NoCookieHeader
    | CookieNotFound

  // =====================================================================
  // Method

  datatype Method = GET | HEAD | POST | PUT | DELETE | CONNECT | OPTIONS | TRACE | PATCH

  /** `Method::to_string`: the canonical upper-case token. */
  function MethodName(m: Method): string
  {
    match m
    case GET => "GET"
    case HEAD => "HEAD"
    case POST => "POST"
    case PUT => "PUT"
    case DELETE => "DELETE"
    case CONNECT => "CONNECT"
    case OPTIONS => "OPTIONS"
    case TRACE => "TRACE"
    case PATCH => "PATCH"
  }

  /** `Method::from_str`: the token is upper-cased (ASCII only) and compared
      with the nine canonical names; anything else is an error. */
  function ParseMethod(s: string): (r: Result<Method, HttpError>)
    ensures r.Ok? ==> MethodName(r.value) == ToAsciiUppercase(s)
    ensures r.Err? ==> r.error == NoMatchingMethod && forall m :: MethodName(m) != ToAsciiUppercase(s)
  {
    var u := ToAsciiUppercase(s);
    if u == "GET" then Ok(GET)
    else if u == "HEAD" then Ok(HEAD)
    else if u == "POST" then Ok(POST)
    else if u == "PUT" then Ok(PUT)
    else if u == "DELETE" then Ok(DELETE)
    else if u == "CONNECT" then Ok(CONNECT)
    else if u == "OPTIONS" then Ok(OPTIONS)
    else if u == "TRACE" then Ok(TRACE)
    else if u == "PATCH" then Ok(PATCH)
    else Err(NoMatchingMethod)
  }

  lemma MethodNameIsUppercase(m: Method)
    ensures ToAsciiUppercase(MethodName(m)) == MethodName(m)
  {
    var n := MethodName(m);
    assert forall i :: 0 <= i < |n| ==> !('a' <= n[i] <= 'z');
    UppercaseOfUpper(n);
  }

  /** Parsing the canonical name gives the method back. */
  lemma MethodRoundTrip(m: Method)
    ensures ParseMethod(MethodName(m)) == Ok(m)
  {
    MethodNameIsUppercase(m);
  }

  /** A token parses to `m` exactly when its upper-cased form is `m`'s name. */
  lemma ParseMethodIff(s: string, m: Method)
    ensures ParseMethod(s) == Ok(m) <==> ToAsciiUppercase(s) == MethodName(m)
  {
  }

  /** Method parsing ignores ASCII case. */
  lemma ParseMethodCaseInsensitive(s: string)
    ensures ParseMethod(s) == ParseMethod(ToAsciiUppercase(s))
  {
    UppercaseIdempotent(s);
  }

  // =====================================================================
  // Version

  datatype Version = V10 | V11 | V20 | V30

  /** `Version::to_string`. */
  function VersionName(v: Version): string
  {
    match v
    case V10 => "HTTP/1.0"
    case V11 => "HTTP/1.1"
    case V20 => "HTTP/2.0"
    case V30 => "HTTP/3.0"
  }

  /** `Version::from_str`: exact match after ASCII upper-casing. */
  function ParseVersion(s: string): (r: Result<Version, HttpError>)
    ensures r.Ok? ==> VersionName(r.value) == ToAsciiUppercase(s)
    ensures r.Err? ==> r.error == NoMatchingVersion && forall v :: VersionName(v) != ToAsciiUppercase(s)
  {
    var u := ToAsciiUppercase(s);
    if u == "HTTP/1.0" then Ok(V10)
    else if u == "HTTP/1.1" then Ok(V11)
    else if u == "HTTP/2.0" then Ok(V20)
    else if u == "HTTP/3.0" then Ok(V30)
    else Err(NoMatchingVersion)
  }

  lemma VersionNameIsUppercase(v: Version)
    ensures ToAsciiUppercase(VersionName(v)) == VersionName(v)
  {
    var n := VersionName(v);
    assert forall i :: 0 <= i < |n| ==> !('a' <= n[i] <= 'z');
    UppercaseOfUpper(n);
  }

  lemma VersionRoundTrip(v: Version)
    ensures ParseVersion(VersionName(v)) == Ok(v)
  {
    VersionNameIsUppercase(v);
  }

  lemma ParseVersionIff(s: string, v: Version)
    ensures ParseVersion(s) == Ok(v) <==> ToAsciiUppercase(s) == VersionName(v)
  {
  }

  lemma ParseVersionCaseInsensitive(s: string)
    ensures ParseVersion(s) == ParseVersion(ToAsciiUppercase(s))
  {
    UppercaseIdempotent(s);
  }

  // =====================================================================
  // Status codes

  /** The fixed catalogue of status codes: exactly the 30 variants of the
      source; see `CatalogueGaps` for the numbers it leaves out. */
  datatype StatusCode =
    | CODE100 | CODE102 | CODE103
    | CODE200 | CODE202 | CODE204 | CODE205 | CODE206
    | CODE300 | CODE301 | CODE302 | CODE303 | CODE304 | CODE307 | CODE308
    | CODE400 | CODE401 | CODE403 | CODE404 | CODE405 | CODE406 | CODE408 | CODE409
    | CODE500 | CODE501 | CODE502 | CODE503 | CODE504 | CODE505 | CODE511

  /** `StatusCode::to_string`, text exactly as the catalogue has it. Each
      text is written as its code prefix plus its reason, which equals the
      source's single literal; the split lets the shape and single-line
      proofs reason about the prefix and the reason separately, cheaply. */
  function StatusText(c: StatusCode): string
  {
    match c
    case CODE100 => "100 " + "Continue"
    case CODE102 => "102 " + "Processing"
    case CODE103 => "103 " + "Early Hints"
    case CODE200 => "200 " + "OK"
    case CODE202 => "202 " + "Accepted"
    case CODE204 => "204 " + "No Content"
    case CODE205 => "205 " + "Reset Content"
    case CODE206 => "206 " + "Partial Content"
    case CODE300 => "300 " + "Multiple Choices"
    case CODE301 => "301 " + "Moved Permanently"
    case CODE302 => "302 " + "Found"
    case CODE303 => "303 " + "See Other"
    case CODE304 => "304 " + "Not Modified"
    case CODE307 => "307 " + "Temporary Redirect"
    case CODE308 => "308 " + "Permanent Redirect"
    case CODE400 => "400 " + "Bad Request"
    case CODE401 => "401 " + "Unauthorized"
    case CODE403 => "403 " + "Forbidden"
    case CODE404 => "404 " + "Not Found"
    case CODE405 => "405 " + "Method Not Allowed"
    case CODE406 => "406 " + "Not Acceptable"
    case CODE408 => "408 " + "Request Timeout"
    case CODE409 => "409 " + "Conflict"
    case CODE500 => "500 " + "Internal Server Error"
    case CODE501 => "501 " + "Not Implemented"
    case CODE502 => "502 " + "Bad Gateway"
    case CODE503 => "503 " + "Service Unabailable"
    case CODE504 => "504 " + "Gateway Timeout"
    case CODE505 => "505 " + "HTTP Version Not Supported"
    case CODE511 => "511 " + "Network Authentication Required"
  }

  /** The number each variant's name carries. */
  function CodeNumber(c: StatusCode): (n: nat)
    ensures 100 <= n < 600
  {
    match c
    case CODE100 => 100 case CODE102 => 102 case CODE103 => 103
    case CODE200 => 200 case CODE202 => 202 case CODE204 => 204 case CODE205 => 205
    case CODE206 => 206
    case CODE300 => 300 case CODE301 => 301 case CODE302 => 302 case CODE303 => 303
    case CODE304 => 304 case CODE307 => 307 case CODE308 => 308
    case CODE400 => 400 case CODE401 => 401 case CODE403 => 403 case CODE404 => 404
    case CODE405 => 405 case CODE406 => 406 case CODE408 => 408 case CODE409 => 409
    case CODE500 => 500 case CODE501 => 501 case CODE502 => 502 case CODE503 => 503
    case CODE504 => 504 case CODE505 => 505 case CODE511 => 511
  }

  /** The catalogue read backwards: which variant, if any, carries a number. */
  function CodeOf(n: nat): Option<StatusCode>
  {
    if n == 100 then Some(CODE100) else if n == 102 then Some(CODE102)
    else if n == 103 then Some(CODE103) else if n == 200 then Some(CODE200)
    else if n == 202 then Some(CODE202) else if n == 204 then Some(CODE204)
    else if n == 205 then Some(CODE205) else if n == 206 then Some(CODE206)
    else if n == 300 then Some(CODE300) else if n == 301 then Some(CODE301)
    else if n == 302 then Some(CODE302) else if n == 303 then Some(CODE303)
    else if n == 304 then Some(CODE304) else if n == 307 then Some(CODE307)
    else if n == 308 then Some(CODE308) else if n == 400 then Some(CODE400)
    else if n == 401 then Some(CODE401) else if n == 403 then Some(CODE403)
    else if n == 404 then Some(CODE404) else if n == 405 then Some(CODE405)
    else if n == 406 then Some(CODE406) else if n == 408 then Some(CODE408)
    else if n == 409 then Some(CODE409) else if n == 500 then Some(CODE500)
    else if n == 501 then Some(CODE501) else if n == 502 then Some(CODE502)
    else if n == 503 then Some(CODE503) else if n == 504 then Some(CODE504)
    else if n == 505 then Some(CODE505) else if n == 511 then Some(CODE511)
    else None
  }

  lemma CodeOfNumber(c: StatusCode)
    ensures CodeOf(CodeNumber(c)) == Some(c)
  {
  }

  /** The decimal digit character of a value below ten. */
  function DigitChar(d: nat): char
    requires d < 10
  {
    ('0' as int + d) as char
  }

  /** `t` starts with the three decimal digits of `n` and a space, and a
      non-empty reason phrase follows. */
  predicate HasCodePrefix(t: string, n: nat)
    requires n < 1000
  {
    && |t| > 4
    && t[0] == DigitChar(n / 100) && t[1] == DigitChar((n / 10) % 10) && t[2] == DigitChar(n % 10)
    && t[3] == ' '
  }

  lemma InformationalTextShape(c: StatusCode)
    requires c.CODE100? || c.CODE102? || c.CODE103?
    ensures HasCodePrefix(StatusText(c), CodeNumber(c))
  {
  }

  lemma SuccessTextShape(c: StatusCode)
    requires c.CODE200? || c.CODE202? || c.CODE204? || c.CODE205? || c.CODE206?
    ensures HasCodePrefix(StatusText(c), CodeNumber(c))
  {
  }

  lemma RedirectionTextShape(c: StatusCode)
    requires c.CODE300? || c.CODE301? || c.CODE302? || c.CODE303? || c.CODE304? || c.CODE307? || c.CODE308?
    ensures HasCodePrefix(StatusText(c), CodeNumber(c))
  {
  }

  lemma ClientErrorTextShape(c: StatusCode)
    requires c.CODE400? || c.CODE401? || c.CODE403? || c.CODE404? || c.CODE405? || c.CODE406? || c.CODE408? || c.CODE409?
    ensures HasCodePrefix(StatusText(c), CodeNumber(c))
  {
  }

  lemma ServerErrorTextShape(c: StatusCode)
    requires c.CODE500? || c.CODE501? || c.CODE502? || c.CODE503?
    ensures HasCodePrefix(StatusText(c), CodeNumber(c))
  {
  }

  lemma GatewayErrorTextShape(c: StatusCode)
    requires c.CODE504? || c.CODE505? || c.CODE511?
    ensures HasCodePrefix(StatusText(c), CodeNumber(c))
  {
  }

  /** Every status text starts with its own three-digit code and a space. */
  lemma StatusTextShape(c: StatusCode)
    ensures HasCodePrefix(StatusText(c), CodeNumber(c))
  {
    if c.CODE100? || c.CODE102? || c.CODE103? {
      InformationalTextShape(c);
    } else if c.CODE200? || c.CODE202? || c.CODE204? || c.CODE205? || c.CODE206? {
      SuccessTextShape(c);
    } else if c.CODE300? || c.CODE301? || c.CODE302? || c.CODE303? || c.CODE304? || c.CODE307? || c.CODE308? {
      RedirectionTextShape(c);
    } else if c.CODE400? || c.CODE401? || c.CODE403? || c.CODE404? || c.CODE405? || c.CODE406? || c.CODE408? || c.CODE409? {
      ClientErrorTextShape(c);
    } else if c.CODE500? || c.CODE501? || c.CODE502? || c.CODE503? {
      ServerErrorTextShape(c);
    } else {
      GatewayErrorTextShape(c);
    }
  }

  /** The catalogue's exact wording, misspelling included, for the entries
      whose text is easy to get wrong. */
  lemma StatusTextExact()
    ensures StatusText(CODE503) == "503 Service Unabailable"
    ensures StatusText(CODE409) == "409 Conflict"
    ensures StatusText(CODE200) == "200 OK"
  {
  }

  lemma DigitCharInjective(d: nat, e: nat)
    requires d < 10 && e < 10 && DigitChar(d) == DigitChar(e)
    ensures d == e
  {
  }

  /** Three decimal digits determine a number below 1000. */
  lemma DecimalDigitsDetermine(n: nat, m: nat)
    requires n < 1000 && m < 1000
    requires DigitChar(n / 100) == DigitChar(m / 100)
    requires DigitChar((n / 10) % 10) == DigitChar((m / 10) % 10)
    requires DigitChar(n % 10) == DigitChar(m % 10)
    ensures n == m
  {
    DigitCharInjective(n / 100, m / 100);
    DigitCharInjective((n / 10) % 10, (m / 10) % 10);
    DigitCharInjective(n % 10, m % 10);
    ThreeDigits(n);
    ThreeDigits(m);
  }

  /** A number is the sum of its decimal digits' place values. */
  lemma ThreeDigits(n: nat)
    ensures n == (n / 100) * 100 + ((n / 10) % 10) * 10 + n % 10
  {
    assert n == (n / 10) * 10 + n % 10;
    assert n / 10 == (n / 100) * 10 + (n / 10) % 10;
  }

  /** Different variants have different texts. */
  lemma StatusTextInjective(a: StatusCode, b: StatusCode)
    requires StatusText(a) == StatusText(b)
    ensures a == b
  {
    StatusTextShape(a);
    StatusTextShape(b);
    DecimalDigitsDetermine(CodeNumber(a), CodeNumber(b));
    CodeOfNumber(a);
    CodeOfNumber(b);
  }

  /** The catalogue omits 201, 305, 306, 402, 407 and 418: no variant carries
      those numbers, although they lie inside the ranges it covers. */
  lemma CatalogueGaps(c: StatusCode)
    ensures CodeNumber(c) != 201 && CodeNumber(c) != 305 && CodeNumber(c) != 306
    ensures CodeNumber(c) != 402 && CodeNumber(c) != 407 && CodeNumber(c) != 418
  {
  }

  // =====================================================================
  // Requests and responses

  datatype Request = Request(
    httpMethod: Method,
    path: string,
    version: Version,
    headers: map<string, string>,
    body: Option<string>)

  datatype Response = Response(
    version: Version,
    status: StatusCode,
    headers: map<string, string>,
    body: Option<seq<byte>>)

  /** A map built by inserting the pairs in order (`HashMap::insert` in a loop). */
  function InsertAll<K, V>(ps: seq<(K, V)>): map<K, V>
  {
    if ps == [] then map[]
    else
      var last := ps[|ps| - 1];
      InsertAll(ps[..|ps| - 1])[last.0 := last.1]
  }

  /** The keys of the map are exactly the keys of the pairs. */
  lemma {:induction false} InsertAllKeys<K, V>(ps: seq<(K, V)>)
    ensures InsertAll(ps).Keys == set i | 0 <= i < |ps| :: ps[i].0
  {
    if ps != [] {
      var pre := ps[..|ps| - 1];
      InsertAllKeys(pre);
      var want := set i | 0 <= i < |ps| :: ps[i].0;
      forall k | k in want
        ensures k in InsertAll(ps)
      {
        var i :| 0 <= i < |ps| && ps[i].0 == k;
        if i < |ps| - 1 {
          assert pre[i].0 == k;
        }
      }
      forall k | k in InsertAll(ps)
        ensures k in want
      {
        if k != ps[|ps| - 1].0 {
          var i :| 0 <= i < |pre| && pre[i].0 == k;
          assert ps[i].0 == k;
        }
      }
    }
  }

  /** One more pair is one more insertion. */
  lemma InsertAllSnoc<K, V>(ps: seq<(K, V)>, p: (K, V))
    ensures InsertAll(ps + [p]) == InsertAll(ps)[p.0 := p.1]
  {
    assert (ps + [p])[..|ps|] == ps;
  }

  /** A key is in the map exactly when some pair has it. */
  lemma InsertAllHas<K, V>(ps: seq<(K, V)>, key: K)
    ensures key in InsertAll(ps) <==> exists i :: 0 <= i < |ps| && ps[i].0 == key
  {
    InsertAllKeys(ps);
    if key in InsertAll(ps) {
      var i :| 0 <= i < |ps| && ps[i].0 == key;
    }
  }

  /** Last write wins: a key maps to the value of the last pair that has it. */
  lemma {:induction false} InsertAllLast<K, V>(ps: seq<(K, V)>, i: nat)
    requires i < |ps|
    requires forall j :: i < j < |ps| ==> ps[j].0 != ps[i].0
    ensures ps[i].0 in InsertAll(ps) && InsertAll(ps)[ps[i].0] == ps[i].1
  {
    if i < |ps| - 1 {
      var pre := ps[..|ps| - 1];
      assert forall j :: i < j < |pre| ==> pre[j].0 != pre[i].0;
      InsertAllLast(pre, i);
    }
  }

  // =====================================================================
  // Request parsing

  /** The request line: the first three whitespace-separated tokens are the
      method, the path and the version; further tokens are ignored.  The
      method is parsed before the path is looked for. */
  function ParseRequestLine(line: string): (r: Result<(Method, string, Version), HttpError>)
    ensures var ts := SplitWhitespace(line);
      && (ts == [] ==> r == Err(MissingMethod))
      && (|ts| >= 1 && ParseMethod(ts[0]).Err? ==> r == Err(NoMatchingMethod))
      && (|ts| == 1 && ParseMethod(ts[0]).Ok? ==> r == Err(MissingPath))
      && (|ts| == 2 && ParseMethod(ts[0]).Ok? ==> r == Err(MissingVersion))
      && (|ts| >= 3 && ParseMethod(ts[0]).Ok? && ParseVersion(ts[2]).Err? ==> r == Err(NoMatchingVersion))
      && (|ts| >= 3 && ParseMethod(ts[0]).Ok? && ParseVersion(ts[2]).Ok? ==>
            r == Ok((ParseMethod(ts[0]).value, ts[1], ParseVersion(ts[2]).value)))
      && (r.Ok? ==> |ts| >= 3 && MethodName(r.value.0) == ToAsciiUppercase(ts[0])
                    && r.value.1 == ts[1] && VersionName(r.value.2) == ToAsciiUppercase(ts[2]))
  {
    var ts := SplitWhitespace(line);
    if ts == [] then Err(MissingMethod)
    else match ParseMethod(ts[0])
      case Err(e) => Err(e)
      case Ok(m) =>
        if |ts| == 1 then Err(MissingPath)
        else if |ts| == 2 then Err(MissingVersion)
        else match ParseVersion(ts[2])
          case Err(e) => Err(e)
          case Ok(v) => Ok((m, ts[1], v))
  }

  /** One header line: split at the first ':' only, both sides trimmed
      (the sides are trimmed in place, see `HeaderFieldSplit`). */
  function HeaderField(line: string): (r: Option<(string, string)>)
    ensures r.None? <==> ':' !in line
  {
    var i := IndexOf(line, ':');
    if i == |line| then None
    else Some((TrimSlice(line, 0, i), TrimSlice(line, i + 1, |line|)))
  }

  /** `HeaderField` is `splitn(2, ':')` followed by `trim` of each part. */
  lemma HeaderFieldSplit(line: string)
    ensures HeaderField(line) == match SplitOnce(line, ':')
      case None => None
      case Some((name, value)) => Some((Trim(name), Trim(value)))
  {
    var i := IndexOf(line, ':');
    if i < |line| {
      HeaderFieldAt(line, i);
    }
  }

  /** The field of a line whose first ':' is at `i`. */
  lemma HeaderFieldAt(line: string, i: nat)
    requires i == IndexOf(line, ':') < |line|
    ensures HeaderField(line) == Some((Trim(line[..i]), Trim(line[i + 1..])))
  {
    TrimSliceIsTrim(line, 0, i);
    TrimSliceIsTrim(line, i + 1, |line|);
    SliceBounds(line, i);
    SliceBounds(line, i + 1);
  }

  /** Position of the first empty line, or the number of lines. */
  function BlankIndex(ls: seq<string>): (n: nat)
    ensures n <= |ls|
    ensures n < |ls| ==> ls[n] == ""
    ensures forall k :: 0 <= k < n ==> ls[k] != ""
  {
    if ls == [] || ls[0] == "" then 0 else 1 + BlankIndex(ls[1..])
  }

  /** The fields of a header block, or `None` when some line has no ':'. */
  function HeaderPairs(ls: seq<string>): Option<seq<(string, string)>>
  {
    if ls == [] then Some([])
    else
      match HeaderPairs(ls[..|ls| - 1])
      case None => None
      case Some(ps) =>
        match HeaderField(ls[|ls| - 1])
        case None => None
        case Some(p) => Some(ps + [p])
  }

  /** The block fails exactly when one of its lines has no ':'; otherwise
      there is one field per line, each that line's split. */
  lemma {:induction false} HeaderPairsSpec(ls: seq<string>)
    ensures HeaderPairs(ls).None? <==> exists k :: 0 <= k < |ls| && ':' !in ls[k]
    ensures HeaderPairs(ls).Some? ==>
      && |HeaderPairs(ls).value| == |ls|
      && forall k :: 0 <= k < |ls| ==> HeaderField(ls[k]) == Some(HeaderPairs(ls).value[k])
  {
    if ls != [] {
      var pre := ls[..|ls| - 1];
      var last := ls[|ls| - 1];
      assert forall k :: 0 <= k < |pre| ==> pre[k] == ls[k];
      HeaderPairsSpec(pre);
      match HeaderPairs(pre)
      case None =>
        var k :| 0 <= k < |pre| && ':' !in pre[k];
        assert ':' !in ls[k];
      case Some(ps) =>
        match HeaderField(last)
        case None =>
          assert ':' !in ls[|ls| - 1];
        case Some(p) =>
          assert HeaderPairs(ls) == Some(ps + [p]);
          forall k | 0 <= k < |ls|
            ensures ':' in ls[k] && HeaderField(ls[k]) == Some((ps + [p])[k])
          {
            if k < |pre| {
              assert HeaderField(pre[k]) == Some(ps[k]);
            }
          }
    }
  }

  /** The header block of a request text: the lines after the request line
      up to (not including) the first empty line. */
  function FieldLines(s: string): seq<string>
  {
    var ls := Lines(s);
    if ls == [] then [] else ls[1..][..BlankIndex(ls[1..])]
  }

  /** The lines after the blank line that ends the header block. */
  function BodyLines(s: string): seq<string>
  {
    var ls := Lines(s);
    if ls == [] then []
    else
      var n := BlankIndex(ls[1..]);
      if n < |ls| - 1 then ls[n + 2..] else []
  }

  /** `HTTPRequest::from_str`, stated over the whole text. */
  function RequestFromStr(s: string): Result<Request, HttpError>
  {
    var ls := Lines(s);
    if ls == [] then Err(InvalidRequest)
    else match ParseRequestLine(ls[0])
      case Err(e) => Err(e)
      case Ok((m, p, v)) =>
        match HeaderPairs(FieldLines(s))
        case None => Err(MalformedHeader)
        case Some(ps) =>
          var rest := BodyLines(s);
          Ok(Request(m, p, v, InsertAll(ps), if |rest| > 0 then Some(Join(rest, "\n")) else None))
  }

  /** One more field line extends the block's fields by that line's split. */
  lemma HeaderPairsSnoc(ls: seq<string>, i: nat)
    requires i < |ls|
    requires HeaderPairs(ls[..i]).Some? && HeaderField(ls[i]).Some?
    ensures HeaderPairs(ls[..i + 1]) == Some(HeaderPairs(ls[..i]).value + [HeaderField(ls[i]).value])
  {
    assert ls[..i + 1][..i] == ls[..i];
  }

  /** A line without ':' spoils every block that contains it. */
  lemma {:induction false} HeaderPairsNoneAt(ls: seq<string>, i: nat, n: nat)
    requires i < n <= |ls|
    requires HeaderField(ls[i]).None?
    ensures HeaderPairs(ls[..n]).None?
  {
    if i < n - 1 {
      assert ls[..n][..n - 1] == ls[..n - 1];
      HeaderPairsNoneAt(ls, i, n - 1);
    } else {
      assert ls[..n][n - 1] == ls[i];
    }
  }

  /** The first empty line is at `i` when every earlier line is non-empty
      and line `i` is empty or past the end. */
  lemma BlankIndexAt(ls: seq<string>, i: nat)
    requires i <= |ls|
    requires forall k :: 0 <= k < i ==> ls[k] != ""
    requires i == |ls| || ls[i] == ""
    ensures BlankIndex(ls) == i
  {
  }

  /** The first empty line comes after `i` when no line up to `i` is empty. */
  lemma {:induction false} BlankIndexPast(ls: seq<string>, i: nat)
    requires i < |ls|
    requires forall k :: 0 <= k <= i ==> ls[k] != ""
    ensures BlankIndex(ls) > i
  {
    if i > 0 {
      BlankIndexPast(ls[1..], i - 1);
    }
  }

  /** The header loop of `HTTPRequest::from_str`: reads field lines until the
      first empty line, failing on a line without ':'.  Returns the fields
      (or `None`) and the position of the line that stopped the loop. */
  method ReadFields(ls: seq<string>) returns (r: Option<map<string, string>>, n: nat)
    ensures n == BlankIndex(ls)
    ensures r.None? <==> HeaderPairs(ls[..n]).None?
    ensures r.Some? ==> r.value == InsertAll(HeaderPairs(ls[..n]).value)
  {
    var headers: map<string, string> := map[];
    ghost var fs: seq<(string, string)> := [];
    var i := 0;
    while i < |ls| && ls[i] != ""
      invariant i <= |ls| && |fs| == i
      invariant forall k :: 0 <= k < i ==> ls[k] != ""
      invariant forall k :: 0 <= k < i ==> HeaderField(ls[k]) == Some(fs[k])
      invariant headers == InsertAll(fs)
    {
      var field := HeaderField(ls[i]);
      if field.None? {
        n := BlankIndex(ls);
        BlankIndexPast(ls, i);
        HeaderPairsNoneAt(ls, i, n);
        return None, n;
      }
      InsertAllSnoc(fs, field.value);
      FieldsExtend(ls, i, fs, field.value);
      headers := headers[field.value.0 := field.value.1];
      fs := fs + [field.value];
      i := i + 1;
    }
    BlankIndexAt(ls, i);
    HeaderPairsPrefix(ls, i, fs);
    return Some(headers), i;
  }

  /** The lines read so far, one more field line included. */
  lemma FieldsExtend(ls: seq<string>, i: nat, fs: seq<(string, string)>, f: (string, string))
    requires i < |ls| && |fs| == i && ls[i] != "" && HeaderField(ls[i]) == Some(f)
    requires forall k :: 0 <= k < i ==> ls[k] != ""
    requires forall k :: 0 <= k < i ==> HeaderField(ls[k]) == Some(fs[k])
    ensures forall k :: 0 <= k < i + 1 ==> ls[k] != ""
    ensures forall k :: 0 <= k < i + 1 ==> HeaderField(ls[k]) == Some((fs + [f])[k])
  {
  }

  /** A prefix whose every line splits as given yields exactly those fields. */
  lemma HeaderPairsPrefix(ls: seq<string>, i: nat, fs: seq<(string, string)>)
    requires i <= |ls| && |fs| == i
    requires forall k :: 0 <= k < i ==> HeaderField(ls[k]) == Some(fs[k])
    ensures HeaderPairs(ls[..i]) == Some(fs)
  {
    var pre := ls[..i];
    assert forall k :: 0 <= k < |pre| ==> pre[k] == ls[k];
    HeaderPairsAll(pre, fs);
  }

  /** `HTTPRequest::from_str`: the request line, then the header loop that
      stops at the first empty line, then the remaining lines as the body. */
  method ParseRequest(s: string) returns (r: Result<Request, HttpError>)
    ensures r == RequestFromStr(s)
  {
    var lines := Lines(s);
    if |lines| == 0 {
      return Err(InvalidRequest);
    }
    var head := ParseRequestLine(lines[0]);
    if head.Err? {
      return Err(head.error);
    }
    var (m, p, v) := head.value;
    var fields, n := ReadFields(lines[1..]);
    if fields.None? {
      return Err(MalformedHeader);
    }
    var rest := if n < |lines| - 1 then lines[n + 2..] else [];
    var body := if |rest| > 0 then Some(Join(rest, "\n")) else None;
    return Ok(Request(m, p, v, fields.value, body));
  }

  // ---------------------------------------------------------------------
  // Properties of the request parser

  /** "Invalid request" is raised exactly for the text with no lines. */
  lemma RequestInvalidIff(s: string)
    ensures RequestFromStr(s) == Err(InvalidRequest) <==> s == []
  {
    LinesEmptyIff(s);
  }

  /** After a good request line, the request is malformed exactly when some
      line of its header block has no ':'. */
  lemma RequestMalformedIff(s: string)
    requires Lines(s) != [] && ParseRequestLine(Lines(s)[0]).Ok?
    ensures RequestFromStr(s) == Err(MalformedHeader)
        <==> exists k :: 0 <= k < |FieldLines(s)| && ':' !in FieldLines(s)[k]
  {
    HeaderPairsSpec(FieldLines(s));
  }

  /** The headers of a parsed request are the fields of its header block,
      inserted in order. */
  lemma RequestHeaders(s: string)
    requires RequestFromStr(s).Ok?
    ensures HeaderPairs(FieldLines(s)).Some?
    ensures RequestFromStr(s).value.headers == InsertAll(HeaderPairs(FieldLines(s)).value)
  {
  }

  /** The headers of a parsed request are named by the lines of its header
      block, and by nothing else. */
  lemma RequestHeaderNames(s: string, name: string)
    requires RequestFromStr(s).Ok?
    ensures name in RequestFromStr(s).value.headers
        <==> exists k :: 0 <= k < |FieldLines(s)| && ':' in FieldLines(s)[k]
                   && HeaderField(FieldLines(s)[k]).value.0 == name
  {
    var fl := FieldLines(s);
    RequestHeaders(s);
    FieldNames(fl, name);
  }

  /** A name is among the fields of a good block exactly when some line
      of the block carries it. */
  lemma FieldNames(fl: seq<string>, name: string)
    requires HeaderPairs(fl).Some?
    ensures name in InsertAll(HeaderPairs(fl).value)
        <==> exists k :: 0 <= k < |fl| && ':' in fl[k] && HeaderField(fl[k]).value.0 == name
  {
    HeaderPairsSpec(fl);
    var ps := HeaderPairs(fl).value;
    InsertAllHas(ps, name);
    if name in InsertAll(ps) {
      var k :| 0 <= k < |ps| && ps[k].0 == name;
      assert ':' in fl[k] && HeaderField(fl[k]).value.0 == name;
    }
    if exists k :: 0 <= k < |fl| && ':' in fl[k] && HeaderField(fl[k]).value.0 == name {
      var k :| 0 <= k < |fl| && ':' in fl[k] && HeaderField(fl[k]).value.0 == name;
      assert ps[k].0 == name;
    }
  }

  /** A repeated header keeps the value of its last line. */
  lemma RequestHeaderLastWins(s: string, k: nat)
    requires RequestFromStr(s).Ok?
    requires k < |FieldLines(s)| && ':' in FieldLines(s)[k]
    requires forall j :: k < j < |FieldLines(s)| && ':' in FieldLines(s)[j]
               ==> HeaderField(FieldLines(s)[j]).value.0 != HeaderField(FieldLines(s)[k]).value.0
    ensures GetHeader(RequestFromStr(s).value, HeaderField(FieldLines(s)[k]).value.0)
         == Some(HeaderField(FieldLines(s)[k]).value.1)
  {
    RequestHeaders(s);
    FieldLastWins(FieldLines(s), k);
  }

  /** In a good block, the last line carrying a name gives its value. */
  lemma FieldLastWins(fl: seq<string>, k: nat)
    requires HeaderPairs(fl).Some?
    requires k < |fl| && ':' in fl[k]
    requires forall j :: k < j < |fl| && ':' in fl[j]
               ==> HeaderField(fl[j]).value.0 != HeaderField(fl[k]).value.0
    ensures var h := InsertAll(HeaderPairs(fl).value);
      HeaderField(fl[k]).value.0 in h && h[HeaderField(fl[k]).value.0] == HeaderField(fl[k]).value.1
  {
    HeaderPairsSpec(fl);
    var ps := HeaderPairs(fl).value;
    assert forall j :: k < j < |ps| ==> ps[j].0 != ps[k].0 by {
      forall j | k < j < |ps|
        ensures ps[j].0 != ps[k].0
      {
        assert HeaderField(fl[j]) == Some(ps[j]);
      }
    }
    InsertAllLast(ps, k);
  }

  /** A header field as it is written on the wire. */
  function FieldLine(name: string, value: string): string
  {
    name + ": " + value
  }

  /** A field name that survives the parser unchanged. */
  predicate GoodFieldName(name: string)
  {
    name != [] && ':' !in name && '\n' !in name && IsTrimmed(name)
  }

  /** A field value that survives the parser unchanged. */
  predicate GoodFieldValue(value: string)
  {
    '\n' !in value && IsTrimmed(value)
  }

  /** A written field line is read back as the same name and value. */
  lemma HeaderFieldOfLine(name: string, value: string)
    requires ':' !in name && IsTrimmed(name) && IsTrimmed(value)
    ensures HeaderField(FieldLine(name, value)) == Some((name, value))
  {
    var line := FieldLine(name, value);
    var n := |name|;
    FieldLineParts(name, value);
    TrimSliceOfTrimmed(line, 0, n);
    TrimSliceAfterSpace(line, n + 1, |line|);
  }

  /** Where the parts of a field line sit. */
  lemma FieldLineParts(name: string, value: string)
    requires ':' !in name
    ensures var line, n := FieldLine(name, value), |name|;
      && |line| == n + 2 + |value|
      && IndexOf(line, ':') == n
      && line[0..n] == name
      && line[n + 1] == ' '
      && line[n + 2..|line|] == value
  {
    var line := FieldLine(name, value);
    var n := |name|;
    assert line[n] == ':';
    assert forall j :: 0 <= j < n ==> line[j] == name[j];
  }

  /** The field lines of a list of fields. */
  function FieldTexts(fs: seq<(string, string)>): (ls: seq<string>)
    ensures |ls| == |fs|
    ensures forall i :: 0 <= i < |fs| ==> ls[i] == FieldLine(fs[i].0, fs[i].1)
  {
    if fs == [] then [] else [FieldLine(fs[0].0, fs[0].1)] + FieldTexts(fs[1..])
  }

  /** A block whose every line splits as given yields exactly those fields. */
  lemma {:induction false} HeaderPairsAll(ls: seq<string>, ps: seq<(string, string)>)
    requires |ls| == |ps|
    requires forall k :: 0 <= k < |ls| ==> HeaderField(ls[k]) == Some(ps[k])
    ensures HeaderPairs(ls) == Some(ps)
  {
    if ls != [] {
      var n := |ls| - 1;
      HeaderPairsAll(ls[..n], ps[..n]);
      assert HeaderField(ls[n]) == Some(ps[n]);
      assert ps == ps[..n] + [ps[n]];
    }
  }

  /** The method token has no whitespace. */
  lemma MethodNameToken(m: Method)
    ensures MethodName(m) != [] && NoWhitespace(MethodName(m))
  {
    var n := MethodName(m);
    assert forall i :: 0 <= i < |n| ==> '!' <= n[i] <= '~';
    VisibleAsciiNoWhitespace(n);
  }

  /** The version token has no whitespace. */
  lemma VersionNameToken(v: Version)
    ensures VersionName(v) != [] && NoWhitespace(VersionName(v))
  {
    var n := VersionName(v);
    assert forall i :: 0 <= i < |n| ==> '!' <= n[i] <= '~';
    VisibleAsciiNoWhitespace(n);
  }

  /** The request line written from its parts, separated by single spaces. */
  function RequestLineText(m: Method, path: string, v: Version): string
  {
    Join([MethodName(m), path, VersionName(v)], " ")
  }

  /** The tokens of a written request line are its three parts. */
  lemma RequestLineTokens(m: Method, path: string, v: Version)
    requires path != [] && NoWhitespace(path)
    ensures SplitWhitespace(RequestLineText(m, path, v)) == [MethodName(m), path, VersionName(v)]
  {
    MethodNameToken(m);
    VersionNameToken(v);
    SplitWhitespaceOfJoin([MethodName(m), path, VersionName(v)]);
  }

  /** A request line written from its parts parses back to them. */
  lemma RequestLineRoundTrip(m: Method, path: string, v: Version)
    requires path != [] && NoWhitespace(path)
    ensures ParseRequestLine(RequestLineText(m, path, v)) == Ok((m, path, v))
  {
    RequestLineTokens(m, path, v);
    MethodRoundTrip(m);
    VersionRoundTrip(v);
  }

  /** Text after a request line with three tokens, past a whitespace
      character, does not change how the line parses. */
  lemma RequestLineExtraTokens(line: string, c: char, extra: string)
    requires IsWhitespace(c) && |SplitWhitespace(line)| >= 3
    ensures ParseRequestLine(line + [c] + extra) == ParseRequestLine(line)
  {
    SplitWhitespaceAt(line, c, extra);
    var ts, us := SplitWhitespace(line), SplitWhitespace(line + [c] + extra);
    assert us[0] == ts[0] && us[1] == ts[1] && us[2] == ts[2];
  }

  /** A request as a client writes it: the request line, one line per
      field, a blank line, each ended by "\r\n", then the body. */
  function RequestText(m: Method, path: string, v: Version, fs: seq<(string, string)>, body: string): string
  {
    CrlfText([RequestLineText(m, path, v)] + FieldTexts(fs) + [""]) + body
  }

  /** The lines of a written request: its request line, its field lines, the
      blank line, then the lines of the body. */
  lemma RequestTextLines(m: Method, path: string, v: Version, fs: seq<(string, string)>, body: string)
    requires NoWhitespace(path)
    requires forall i :: 0 <= i < |fs| ==> GoodFieldName(fs[i].0) && GoodFieldValue(fs[i].1)
    ensures Lines(RequestText(m, path, v, fs, body))
         == [RequestLineText(m, path, v)] + FieldTexts(fs) + [""] + Lines(body)
  {
    var line0 := RequestLineText(m, path, v);
    var fl := FieldTexts(fs);
    var ls := [line0] + fl + [""];
    MethodNameToken(m);
    VersionNameToken(v);
    assert IsWhitespace('\n');
    JoinExcludes([MethodName(m), path, VersionName(v)], " ", '\n');
    forall k | 0 <= k < |ls|
      ensures '\n' !in ls[k]
    {
      if 1 <= k <= |fl| {
        assert ls[k] == FieldLine(fs[k - 1].0, fs[k - 1].1);
      }
    }
    LinesOfCrlf(ls, body);
  }

  /** The header block of a written request is its field lines and its body
      lines are the lines of the body. */
  lemma RequestTextBlocks(m: Method, path: string, v: Version, fs: seq<(string, string)>, body: string)
    requires NoWhitespace(path)
    requires forall i :: 0 <= i < |fs| ==> GoodFieldName(fs[i].0) && GoodFieldValue(fs[i].1)
    ensures Lines(RequestText(m, path, v, fs, body)) != []
    ensures Lines(RequestText(m, path, v, fs, body))[0] == RequestLineText(m, path, v)
    ensures FieldLines(RequestText(m, path, v, fs, body)) == FieldTexts(fs)
    ensures BodyLines(RequestText(m, path, v, fs, body)) == Lines(body)
  {
    var fl := FieldTexts(fs);
    RequestTextLines(m, path, v, fs, body);
    var all := Lines(RequestText(m, path, v, fs, body));
    assert all[1..] == fl + [""] + Lines(body);
    forall k | 0 <= k < |fl|
      ensures fl[k] != ""
    {
      assert fl[k] == FieldLine(fs[k].0, fs[k].1);
    }
    BlankSplit(all[1..], fl, Lines(body));
  }

  /** Lines made of non-empty lines, an empty line and more lines split at
      that empty line. */
  lemma BlankSplit(ls: seq<string>, fl: seq<string>, rest: seq<string>)
    requires ls == fl + [""] + rest
    requires forall k :: 0 <= k < |fl| ==> fl[k] != ""
    ensures BlankIndex(ls) == |fl|
    ensures ls[..|fl|] == fl && ls[|fl| + 1..] == rest
  {
    assert forall k :: 0 <= k < |fl| ==> ls[k] == fl[k];
    BlankIndexAt(ls, |fl|);
  }

  /** Parsing a written request gives back its method, path, version, the
      fields inserted in order, and the body (absent when empty). */
  lemma RequestRoundTrip(m: Method, path: string, v: Version, fs: seq<(string, string)>, body: string)
    requires path != [] && NoWhitespace(path)
    requires forall i :: 0 <= i < |fs| ==> GoodFieldName(fs[i].0) && GoodFieldValue(fs[i].1)
    requires '\r' !in body && (body == [] || body[|body| - 1] != '\n')
    ensures RequestFromStr(RequestText(m, path, v, fs, body))
         == Ok(Request(m, path, v, InsertAll(fs), if body == [] then None else Some(body)))
  {
    var fl := FieldTexts(fs);
    RequestTextBlocks(m, path, v, fs, body);
    RequestLineRoundTrip(m, path, v);
    forall k | 0 <= k < |fl|
      ensures HeaderField(fl[k]) == Some(fs[k])
    {
      HeaderFieldOfLine(fs[k].0, fs[k].1);
    }
    HeaderPairsAll(fl, fs);
    LinesEmptyIff(body);
    JoinLines(body);
  }

  /** The text of the example request, built from its parts. */
  lemma ExampleRequestText()
    ensures RequestText(GET, "/foo", V11, [("Host", "x")], "") == "GET /foo HTTP/1.1\r\nHost: x\r\n\r\n"
  {
    var fs := [("Host", "x")];
    ExampleRequestLine();
    assert FieldTexts(fs) == ["Host: x"] by {
      assert FieldLine("Host", "x") == "Host: x";
    }
    var ls := [RequestLineText(GET, "/foo", V11)] + FieldTexts(fs) + [""];
    assert ls == ["GET /foo HTTP/1.1", "Host: x", ""];
    ExampleCrlfText();
    assert CrlfText(ls) + "" == CrlfText(ls);
  }

  lemma ExampleRequestLine()
    ensures RequestLineText(GET, "/foo", V11) == "GET /foo HTTP/1.1"
  {
    assert MethodName(GET) == "GET" && VersionName(V11) == "HTTP/1.1";
    assert Join(["/foo", "HTTP/1.1"], " ") == "/foo HTTP/1.1";
  }

  lemma ExampleCrlfText()
    ensures CrlfText(["GET /foo HTTP/1.1", "Host: x", ""]) == "GET /foo HTTP/1.1\r\nHost: x\r\n\r\n"
  {
    var ls := ["GET /foo HTTP/1.1", "Host: x", ""];
    assert CrlfText(ls[2..]) == "\r\n" by {
      assert ls[2..][1..] == [];
    }
    assert CrlfText(ls[1..]) == "Host: x\r\n\r\n" by {
      assert ls[1..][1..] == ls[2..];
    }
  }

  /** A request with one header and no body. */
  lemma ParseRequestExample()
    ensures RequestFromStr("GET /foo HTTP/1.1\r\nHost: x\r\n\r\n")
         == Ok(Request(GET, "/foo", V11, map["Host" := "x"], None))
  {
    var fs := [("Host", "x")];
    VisibleAsciiNoWhitespace("/foo");
    VisibleAsciiNotWhitespace('H');
    VisibleAsciiNotWhitespace('t');
    VisibleAsciiNotWhitespace('x');
    assert GoodFieldName("Host") && GoodFieldValue("x");
    assert InsertAll(fs) == map["Host" := "x"];
    ExampleRequestText();
    RequestRoundTrip(GET, "/foo", V11, fs, "");
  }

  function GetHeader(req: Request, name: string): (r: Option<string>)
    ensures r.Some? <==> name in req.headers
    ensures r.Some? ==> r.value == req.headers[name]
  {
    if name in req.headers then Some(req.headers[name]) else None
  }

  // =====================================================================
  // Cookies

  /** The two pieces `get_cookies` takes from one entry of the Cookie
      header: the first two pieces of `split('=')`.  The entry is not
      trimmed, so the space after a ';' stays in the name. */
  function CookieEntry(e: string): (string, string)
    requires '=' in e
  {
    var ps := Split(e, '=');
    (ps[0], ps[1])
  }

  /** The name is the text before the first '=', the value the text after
      it up to the next '=' or the end. */
  lemma CookieEntrySpec(e: string)
    requires '=' in e
    ensures var (name, value) := CookieEntry(e);
      var n := |name|;
      && '=' !in name && '=' !in value
      && n + 1 + |value| <= |e|
      && e[..n] == name && e[n] == '='
      && e[n + 1..n + 1 + |value|] == value
      && (n + 1 + |value| == |e| || e[n + 1 + |value|] == '=')
  {
    var i := IndexOf(e, '=');
    var rest := e[i + 1..];
    var j := IndexOf(rest, '=');
    assert CookieEntry(e) == (e[..i], rest[..j]) by {
      assert Split(e, '=') == [e[..i]] + Split(rest, '=');
      assert Split(rest, '=')[0] == rest[..j];
    }
    EntryPositions(e, i, j);
  }

  /** Where the pieces before the first and the second '=' lie. */
  lemma EntryPositions(e: string, i: nat, j: nat)
    requires i == IndexOf(e, '=') < |e| && j == IndexOf(e[i + 1..], '=')
    ensures var name, value := e[..i], e[i + 1..][..j];
      && '=' !in name && '=' !in value
      && i + 1 + j <= |e| && e[i] == '='
      && e[i + 1..i + 1 + j] == value
      && (i + 1 + j == |e| || e[i + 1 + j] == '=')
  {
    var rest := e[i + 1..];
    assert forall k :: 0 <= k < i ==> e[..i][k] == e[k];
    assert forall k :: 0 <= k < j ==> rest[..j][k] == rest[k];
  }

  /** Every entry of the Cookie header has an '=' (otherwise `get_cookies`
      panics on `unwrap`). */
  predicate CookiesWellFormed(req: Request)
  {
    "Cookie" in req.headers ==>
      forall k :: 0 <= k < |Split(req.headers["Cookie"], ';')| ==> '=' in Split(req.headers["Cookie"], ';')[k]
  }

  /** The cookie pairs of a list of entries, in order. */
  function CookiePairs(es: seq<string>): (ps: seq<(string, string)>)
    requires forall k :: 0 <= k < |es| ==> '=' in es[k]
    ensures |ps| == |es|
    ensures forall k :: 0 <= k < |es| ==> ps[k] == CookieEntry(es[k])
  {
    if es == [] then [] else CookiePairs(es[..|es| - 1]) + [CookieEntry(es[|es| - 1])]
  }

  /** `get_cookies`, stated over the request: no Cookie header is an error,
      otherwise the entries are inserted in order. */
  function CookieJar(req: Request): Result<map<string, string>, HttpError>
    requires CookiesWellFormed(req)
  {
    if "Cookie" in req.headers then Ok(InsertAll(CookiePairs(Split(req.headers["Cookie"], ';'))))
    else Err(NoCookieHeader)
  }

  /** `get_cookie`, stated over the request. */
  function CookieValue(req: Request, name: string): Result<string, HttpError>
    requires CookiesWellFormed(req)
  {
    match CookieJar(req)
    case Err(e) => Err(e)
    case Ok(jar) => if name in jar then Ok(jar[name]) else Err(CookieNotFound)
  }

  /** A split on a character that occurs has at least two pieces. */
  lemma SplitTwoPieces(s: string, c: char)
    requires c in s
    ensures |Split(s, c)| >= 2
  {
  }

  /** `HTTPRequest::get_cookies`: splits the Cookie header on ';', each entry
      on '=', and inserts the first two pieces as name and value. */
  method GetCookies(req: Request) returns (r: Result<map<string, string>, HttpError>)
    requires CookiesWellFormed(req)
    ensures r == CookieJar(req)
  {
    var data := GetHeader(req, "Cookie");
    if data.None? {
      return Err(NoCookieHeader);
    }
    var entries := Split(data.value, ';');
    var cookies: map<string, string> := map[];
    for i := 0 to |entries|
      invariant cookies == InsertAll(CookiePairs(entries[..i]))
    {
      var split := Split(entries[i], '=');
      SplitTwoPieces(entries[i], '=');
      var name := split[0];
      var value := split[1];
      assert entries[..i + 1][..i] == entries[..i];
      cookies := cookies[name := value];
    }
    assert entries[..|entries|] == entries;
    return Ok(cookies);
  }

  /** `HTTPRequest::get_cookie`: the named cookie, or the error of
      `get_cookies`, or "no cookie with this name". */
  method GetCookie(req: Request, name: string) returns (r: Result<string, HttpError>)
    requires CookiesWellFormed(req)
    ensures r == CookieValue(req, name)
  {
    var cookies := GetCookies(req);
    if cookies.Err? {
      return Err(cookies.error);
    }
    if name in cookies.value {
      return Ok(cookies.value[name]);
    }
    return Err(CookieNotFound);
  }

  /** The lookup fails for want of a header exactly when there is no Cookie
      header. */
  lemma CookieValueNoHeader(req: Request, name: string)
    requires CookiesWellFormed(req)
    ensures CookieValue(req, name) == Err(NoCookieHeader) <==> "Cookie" !in req.headers
  {
  }

  /** With a Cookie header, a name is missing exactly when no entry has it. */
  lemma CookieValueNotFoundIff(req: Request, name: string)
    requires CookiesWellFormed(req) && "Cookie" in req.headers
    ensures CookieValue(req, name) == Err(CookieNotFound)
        <==> forall j :: 0 <= j < |Split(req.headers["Cookie"], ';')|
               ==> CookieEntry(Split(req.headers["Cookie"], ';')[j]).0 != name
  {
    var es := Split(req.headers["Cookie"], ';');
    var ps := CookiePairs(es);
    assert CookieJar(req) == Ok(InsertAll(ps));
    InsertAllHas(ps, name);
    if exists j :: 0 <= j < |es| && CookieEntry(es[j]).0 == name {
      var j :| 0 <= j < |es| && CookieEntry(es[j]).0 == name;
      assert ps[j].0 == name;
      assert CookieValue(req, name) == Ok(InsertAll(ps)[name]);
      assert CookieEntry(Split(req.headers["Cookie"], ';')[j]).0 == name;
    } else {
      forall i | 0 <= i < |ps|
        ensures ps[i].0 != name
      {
        assert ps[i] == CookieEntry(es[i]);
      }
    }
  }

  /** A repeated cookie keeps the value of its last entry. */
  lemma CookieValueLastWins(req: Request, k: nat)
    requires CookiesWellFormed(req) && "Cookie" in req.headers
    requires k < |Split(req.headers["Cookie"], ';')|
    requires forall j :: k < j < |Split(req.headers["Cookie"], ';')|
               ==> CookieEntry(Split(req.headers["Cookie"], ';')[j]).0 != CookieEntry(Split(req.headers["Cookie"], ';')[k]).0
    ensures CookieValue(req, CookieEntry(Split(req.headers["Cookie"], ';')[k]).0)
         == Ok(CookieEntry(Split(req.headers["Cookie"], ';')[k]).1)
  {
    var es := Split(req.headers["Cookie"], ';');
    var ps := CookiePairs(es);
    assert forall j :: k < j < |ps| ==> ps[j].0 != ps[k].0;
    InsertAllLast(ps, k);
  }

  /** A Cookie header of two entries `a=x;b=y` gives the cookies `a` and `b`
      exactly as written (a space after the ';' would stay in the name `b`);
      when the names coincide the second value wins. */
  lemma CookieJarOfTwo(req: Request, a: string, x: string, b: string, y: string)
    requires "Cookie" in req.headers && req.headers["Cookie"] == a + "=" + x + ";" + b + "=" + y
    requires ';' !in a && ';' !in x && ';' !in b && ';' !in y
    requires '=' !in a && '=' !in x && '=' !in b && '=' !in y
    ensures CookiesWellFormed(req) && CookieJar(req) == Ok(map[a := x, b := y])
  {
    var e1, e2 := a + "=" + x, b + "=" + y;
    CookieEntryOf(a, x);
    CookieEntryOf(b, y);
    assert req.headers["Cookie"] == e1 + [';'] + e2;
    SplitPair(e1, e2, ';');
    assert CookiePairs([e1, e2]) == [(a, x), (b, y)];
    InsertAllTwo((a, x), (b, y));
  }

  /** The entry `a=x` is the cookie `a` with value `x`. */
  lemma CookieEntryOf(a: string, x: string)
    requires ';' !in a && ';' !in x && '=' !in a && '=' !in x
    ensures var e := a + "=" + x;
      ';' !in e && '=' in e && CookieEntry(e) == (a, x)
  {
    var e := a + "=" + x;
    assert e == a + ['='] + x;
    assert e[|a|] == '=';
    SplitPair(a, x, '=');
  }

  /** Inserting two pairs: the second wins on a shared key. */
  lemma InsertAllTwo<K, V>(p: (K, V), q: (K, V))
    ensures InsertAll([p, q]) == map[p.0 := p.1, q.0 := q.1]
  {
    var ps := [p, q];
    assert ps[..1] == [p];
    assert InsertAll(ps[..1]) == map[p.0 := p.1] by {
      assert ps[..1][..0] == [];
    }
  }

  // =====================================================================
  // Response head

  /** `order` lists every header name of `h` exactly once: the iteration
      order of the header map, which the model takes as a parameter. */
  predicate IsKeyOrder(order: seq<string>, h: map<string, string>)
  {
    && (forall i, j :: 0 <= i < j < |order| ==> order[i] != order[j])
    && h.Keys == set i | 0 <= i < |order| :: order[i]
  }

  /** The header lines of `h`, one `name: value` line per name of `order`. */
  function RenderFields(h: map<string, string>, order: seq<string>): (ls: seq<string>)
    requires forall i :: 0 <= i < |order| ==> order[i] in h
    ensures |ls| == |order|
    ensures forall i :: 0 <= i < |order| ==> ls[i] == FieldLine(order[i], h[order[i]])
  {
    if order == [] then [] else [FieldLine(order[0], h[order[0]])] + RenderFields(h, order[1..])
  }

  /** The first line of a response: the version and the status text. */
  function StatusLine(r: Response): string
  {
    VersionName(r.version) + " " + StatusText(r.status)
  }

  /** `HTTPResponse::to_string`: the status line, a '\n', then the header
      lines joined by '\n' (no '\n' after the last one). */
  function ResponseText(r: Response, order: seq<string>): string
    requires IsKeyOrder(order, r.headers)
  {
    StatusLine(r) + "\n" + Join(RenderFields(r.headers, order), "\n")
  }

  /** No line feed in `t`. */
  predicate SingleLine(t: string)
  {
    forall i :: 0 <= i < |t| ==> t[i] != '\n'
  }

  /* The single-line fact for the 30 texts is split over five groups, each
     a separate small proof, because one proof over all of them is costly
     for the solver. */

  lemma ReasonsSingleLine0()
    ensures SingleLine("100 " + "Continue")
    ensures SingleLine("102 " + "Processing")
    ensures SingleLine("103 " + "Early Hints")
    ensures SingleLine("200 " + "OK")
    ensures SingleLine("202 " + "Accepted")
    ensures SingleLine("204 " + "No Content")
    ensures SingleLine("205 " + "Reset Content")
  {
  }

  lemma ReasonsSingleLine1()
    ensures SingleLine("206 " + "Partial Content")
    ensures SingleLine("300 " + "Multiple Choices")
    ensures SingleLine("301 " + "Moved Permanently")
    ensures SingleLine("302 " + "Found")
    ensures SingleLine("303 " + "See Other")
    ensures SingleLine("304 " + "Not Modified")
    ensures SingleLine("307 " + "Temporary Redirect")
  {
  }

  lemma ReasonsSingleLine2()
    ensures SingleLine("308 " + "Permanent Redirect")
    ensures SingleLine("400 " + "Bad Request")
    ensures SingleLine("401 " + "Unauthorized")
    ensures SingleLine("403 " + "Forbidden")
    ensures SingleLine("404 " + "Not Found")
    ensures SingleLine("405 " + "Method Not Allowed")
    ensures SingleLine("406 " + "Not Acceptable")
  {
  }

  lemma ReasonsSingleLine3()
    ensures SingleLine("408 " + "Request Timeout")
    ensures SingleLine("409 " + "Conflict")
    ensures SingleLine("500 " + "Internal Server Error")
    ensures SingleLine("501 " + "Not Implemented")
    ensures SingleLine("502 " + "Bad Gateway")
  {
  }

  lemma ReasonsSingleLine4()
    ensures SingleLine("503 " + "Service Unabailable")
    ensures SingleLine("504 " + "Gateway Timeout")
    ensures SingleLine("505 " + "HTTP Version Not Supported")
    ensures SingleLine("511 " + "Network Authentication Required")
  {
  }

  /** No status text contains a line feed. */
  lemma StatusTextSingleLine(c: StatusCode)
    ensures SingleLine(StatusText(c))
  {
    ReasonsSingleLine0();
    ReasonsSingleLine1();
    ReasonsSingleLine2();
    ReasonsSingleLine3();
    ReasonsSingleLine4();
  }

  /** Names and values that keep the response text one field per line. */
  predicate SingleLineHeaders(h: map<string, string>)
  {
    forall k :: k in h ==> '\n' !in k && '\n' !in h[k]
  }

  /** Split at line feeds, a response text is its status line followed by
      its header lines (or by one empty line when there are no headers). */
  lemma ResponseTextLines(r: Response, order: seq<string>)
    requires IsKeyOrder(order, r.headers)
    requires SingleLineHeaders(r.headers)
    ensures Split(ResponseText(r, order), '\n')
         == [StatusLine(r)] + (if order == [] then [""] else RenderFields(r.headers, order))
  {
    var fl := RenderFields(r.headers, order);
    var ls := [StatusLine(r)] + (if order == [] then [""] else fl);
    VersionNameToken(r.version);
    assert IsWhitespace('\n');
    StatusTextSingleLine(r.status);
    assert '\n' !in StatusLine(r);
    forall k | 0 <= k < |ls|
      ensures '\n' !in ls[k]
    {
      if k > 0 && order != [] {
        assert ls[k] == FieldLine(order[k - 1], r.headers[order[k - 1]]);
      }
    }
    assert ls[1..] == (if order == [] then [""] else fl);
    assert Join(ls, "\n") == ResponseText(r, order);
    SplitJoin(ls, '\n');
  }

  /** Header names and values that the request parser reads back unchanged. */
  predicate ParsableHeaders(h: map<string, string>)
  {
    forall k :: k in h ==> GoodFieldName(k) && GoodFieldValue(h[k])
  }

  /** `order` paired with the values of `h`. */
  function Entries(h: map<string, string>, order: seq<string>): (ps: seq<(string, string)>)
    requires forall i :: 0 <= i < |order| ==> order[i] in h
    ensures |ps| == |order|
    ensures forall i :: 0 <= i < |order| ==> ps[i] == (order[i], h[order[i]])
  {
    if order == [] then [] else [(order[0], h[order[0]])] + Entries(h, order[1..])
  }

  /** Inserting each name of a key order with its value rebuilds the map. */
  lemma InsertAllEntries(h: map<string, string>, order: seq<string>)
    requires IsKeyOrder(order, h)
    ensures InsertAll(Entries(h, order)) == h
  {
    var m := InsertAll(Entries(h, order));
    forall k
      ensures k in m <==> k in h
    {
      EntriesHas(h, order, k);
    }
    forall k | k in h
      ensures m[k] == h[k]
    {
      EntriesValue(h, order, k);
    }
    SameMap(m, h);
  }

  /** Maps with the same keys and the same values are equal. */
  lemma SameMap(m: map<string, string>, h: map<string, string>)
    requires forall k :: k in m <==> k in h
    requires forall k :: k in h ==> m[k] == h[k]
    ensures m == h
  {
  }

  lemma EntriesHas(h: map<string, string>, order: seq<string>, k: string)
    requires IsKeyOrder(order, h)
    ensures k in InsertAll(Entries(h, order)) <==> k in h
  {
    var ps := Entries(h, order);
    InsertAllHas(ps, k);
    if k in h {
      var i :| 0 <= i < |order| && order[i] == k;
      assert ps[i].0 == k;
    }
    if k in InsertAll(ps) {
      var i :| 0 <= i < |ps| && ps[i].0 == k;
      assert order[i] in h;
    }
  }

  lemma EntriesValue(h: map<string, string>, order: seq<string>, k: string)
    requires IsKeyOrder(order, h)
    requires k in h
    ensures k in InsertAll(Entries(h, order)) && InsertAll(Entries(h, order))[k] == h[k]
  {
    var ps := Entries(h, order);
    var i :| 0 <= i < |order| && order[i] == k;
    assert forall j :: i < j < |ps| ==> ps[j].0 != ps[i].0;
    InsertAllLast(ps, i);
  }

  /** The header lines of a response, read by the request parser's header
      loop, give back exactly the response's headers. */
  lemma ResponseFieldsRoundTrip(h: map<string, string>, order: seq<string>)
    requires IsKeyOrder(order, h)
    requires ParsableHeaders(h)
    ensures HeaderPairs(RenderFields(h, order)).Some?
    ensures InsertAll(HeaderPairs(RenderFields(h, order)).value) == h
  {
    var fl := RenderFields(h, order);
    var ps := Entries(h, order);
    forall k | 0 <= k < |fl|
      ensures HeaderField(fl[k]) == Some(ps[k])
    {
      HeaderFieldOfLine(order[k], h[order[k]]);
    }
    HeaderPairsAll(fl, ps);
    InsertAllEntries(h, order);
  }

  /** Names in a different order give the same lines in a different order. */
  lemma RenderFieldsPermutation(h: map<string, string>, o1: seq<string>, o2: seq<string>)
    requires forall i :: 0 <= i < |o1| ==> o1[i] in h
    requires forall i :: 0 <= i < |o2| ==> o2[i] in h
    requires multiset(o1) == multiset(o2)
    ensures multiset(RenderFields(h, o1)) == multiset(RenderFields(h, o2))
  {
    var line := (k: string) => FieldLine(k, if k in h then h[k] else "");
    MappedPermutation(o1, o2, RenderFields(h, o1), RenderFields(h, o2), line);
  }

  /** Sequences that map two permutations of each other pointwise through the
      same function are permutations of each other. */
  lemma {:induction false} MappedPermutation(a1: seq<string>, a2: seq<string>, b1: seq<string>, b2: seq<string>, f: string -> string)
    requires |b1| == |a1| && forall i :: 0 <= i < |a1| ==> b1[i] == f(a1[i])
    requires |b2| == |a2| && forall i :: 0 <= i < |a2| ==> b2[i] == f(a2[i])
    requires multiset(a1) == multiset(a2)
    ensures multiset(b1) == multiset(b2)
  {
    if a1 == [] {
      assert |a2| == |multiset(a2)| == 0;
    } else {
      assert a1[0] in multiset(a2);
      var j :| 0 <= j < |a2| && a2[j] == a1[0];
      RemoveMatched(a1, a2, j);
      var a2', b2' := a2[..j] + a2[j + 1..], b2[..j] + b2[j + 1..];
      forall i | 0 <= i < |a2'|
        ensures b2'[i] == f(a2'[i])
      {
        if i >= j {
          assert a2'[i] == a2[i + 1] && b2'[i] == b2[i + 1];
        }
      }
      MappedPermutation(a1[1..], a2', b1[1..], b2', f);
      assert b1 == [b2[j]] + b1[1..];
      assert b2 == b2[..j] + ([b2[j]] + b2[j + 1..]);
      MultisetFront([b2[j]], b2[..j], b2[j + 1..], b1[1..]);
    }
  }

  /** Moving a block to the front of a sequence keeps its multiset. */
  lemma MultisetFront(x: seq<string>, pre: seq<string>, post: seq<string>, t: seq<string>)
    requires multiset(t) == multiset(pre + post)
    ensures multiset(x + t) == multiset(pre + (x + post))
  {
    calc {
      multiset(pre + (x + post));
      multiset(pre) + (multiset(x) + multiset(post));
      multiset(x) + (multiset(pre) + multiset(post));
      multiset(x) + multiset(pre + post);
      multiset(x + t);
    }
  }

  /** Taking a matched element out of two permutations of each other leaves
      two permutations of each other. */
  lemma RemoveMatched(o1: seq<string>, o2: seq<string>, j: nat)
    requires o1 != [] && j < |o2| && o2[j] == o1[0]
    requires multiset(o1) == multiset(o2)
    ensures multiset(o1[1..]) == multiset(o2[..j] + o2[j + 1..])
  {
    var pre, post := o2[..j], o2[j + 1..];
    assert o1 == [o1[0]] + o1[1..];
    assert o2 == pre + [o2[j]] + post;
    assert multiset(o2) == multiset(pre) + multiset{o2[j]} + multiset(post);
    assert multiset(o1) == multiset{o1[0]} + multiset(o1[1..]);
    assert multiset(pre + post) == multiset(pre) + multiset(post);
    forall y
      ensures multiset(o1[1..])[y] == multiset(pre + post)[y]
    {
      assert multiset(o1)[y] == multiset(o2)[y];
    }
  }

  /** In a sequence without repetitions every element occurs exactly once. */
  lemma {:induction false} DistinctOccurrences(o: seq<string>, x: string)
    requires forall i, j :: 0 <= i < j < |o| ==> o[i] != o[j]
    ensures multiset(o)[x] == if x in o then 1 else 0
  {
    if o != [] {
      assert o == [o[0]] + o[1..];
      DistinctOccurrences(o[1..], x);
      if x == o[0] {
        assert x !in o[1..];
      }
    }
  }

  /** Two key orders of the same map name the same keys, each once. */
  lemma KeyOrdersPermutation(h: map<string, string>, o1: seq<string>, o2: seq<string>)
    requires IsKeyOrder(o1, h) && IsKeyOrder(o2, h)
    ensures multiset(o1) == multiset(o2)
  {
    forall x
      ensures multiset(o1)[x] == multiset(o2)[x]
    {
      DistinctOccurrences(o1, x);
      DistinctOccurrences(o2, x);
      assert x in o1 <==> x in h;
      assert x in o2 <==> x in h;
    }
  }

  /** The header lines of a response are the same in every iteration order,
      up to their order. */
  lemma RenderFieldsOrderFree(h: map<string, string>, o1: seq<string>, o2: seq<string>)
    requires IsKeyOrder(o1, h) && IsKeyOrder(o2, h)
    ensures multiset(RenderFields(h, o1)) == multiset(RenderFields(h, o2))
  {
    KeyOrdersPermutation(h, o1, o2);
    RenderFieldsPermutation(h, o1, o2);
  }
}
