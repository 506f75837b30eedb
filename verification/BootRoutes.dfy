/**
 The boot routes, and the URLs that scripts and templates are given: every one of
 them leads back to the installation or the image it was made for.
 */
module BootRoutes {
  import opened Basics
  import opened BootScript

  datatype Endpoint =
    | AnswerFile(token: string)
    | CloudInit(token: string, file: string)
    | Report(token: string)
    | ISOFile(id: string)
    | ISOContent(id: string, path: string)
    | Asset(path: string)
    | NotServed

  predicate StartsWith(s: string, prefix: string) {
    |prefix| <= |s| && s[..|prefix|] == prefix
  }

  predicate IsSegment(s: string) { s != "" && '/' !in s }

  /** The position of the first slash, or the end. */
  function FirstSlash(s: string): (i: nat)
    ensures i <= |s| && (i < |s| ==> s[i] == '/')
    ensures forall k :: 0 <= k < i ==> s[k] != '/'
  {
    if s == "" || s[0] == '/' then 0 else 1 + FirstSlash(s[1..])
  }

  const ANSWER: string := "/boot/answer/"
  const CLOUD: string := "/boot/cloudinit/"
  const REPORT: string := "/boot/report/"
  const ISO_FILE: string := "/boot/isofile/"
  const ISO: string := "/boot/iso/"
  const ASSETS: string := "/boot/assets/"

  /** "{segment}": all of it, or nothing is served. */
  function Whole(rest: string, served: string -> Endpoint): Endpoint {
    if IsSegment(rest) then served(rest) else NotServed
  }

  /** "{segment}/{rest}". */
  function Split(rest: string, served: (string, string) -> Endpoint): Endpoint {
    var i := FirstSlash(rest);
    if 0 < i < |rest| then served(rest[..i], rest[i + 1..]) else NotServed
  }

  /** What the multiplexer does with the path of a request. */
  function Route(path: string): Endpoint {
    if StartsWith(path, ANSWER) then Whole(path[|ANSWER|..], token => AnswerFile(token))
    else if StartsWith(path, CLOUD) then Split(path[|CLOUD|..],
      (token, file) => if IsSegment(file) then CloudInit(token, file) else NotServed)
    else if StartsWith(path, REPORT) then Whole(path[|REPORT|..], token => Report(token))
    else if StartsWith(path, ISO_FILE) then Whole(path[|ISO_FILE|..], id => ISOFile(id))
    else if StartsWith(path, ISO) then Split(path[|ISO|..], (id, inner) => ISOContent(id, inner))
    else if StartsWith(path, ASSETS) then Asset(path[|ASSETS|..])
    else NotServed
  }

  lemma Prefixed(prefix: string, rest: string)
    ensures StartsWith(prefix + rest, prefix) && (prefix + rest)[|prefix|..] == rest
  {}

  /** Paths under different prefixes are told apart by one character. */
  lemma NotPrefixed(prefix: string, rest: string, other: string, k: nat)
    requires k < |prefix| && k < |other| && prefix[k] != other[k]
    ensures !StartsWith(prefix + rest, other)
  {
    assert (prefix + rest)[k] == prefix[k];
  }

  lemma SplitsAt(left: string, right: string)
    requires IsSegment(left)
    ensures FirstSlash(left + "/" + right) == |left|
    ensures (left + "/" + right)[..|left|] == left && (left + "/" + right)[|left| + 1..] == right
  {
    var all := left + "/" + right;
    assert all[|left|] == '/' && forall k :: 0 <= k < |left| ==> all[k] == left[k];
  }

  lemma RouteAnswer(token: string)
    requires IsSegment(token)
    ensures Route(ANSWER + token) == AnswerFile(token)
  {
    Prefixed(ANSWER, token);
  }

  lemma RouteCloud(token: string, file: string)
    requires IsSegment(token) && IsSegment(file)
    ensures Route(CLOUD + (token + "/" + file)) == CloudInit(token, file)
  {
    Prefixed(CLOUD, token + "/" + file);
    NotPrefixed(CLOUD, token + "/" + file, ANSWER, 6);
    SplitsAt(token, file);
  }

  lemma RouteReport(token: string)
    requires IsSegment(token)
    ensures Route(REPORT + token) == Report(token)
  {
    Prefixed(REPORT, token);
    NotPrefixed(REPORT, token, ANSWER, 6);
    NotPrefixed(REPORT, token, CLOUD, 6);
  }

  lemma RouteISOFile(id: string)
    requires IsSegment(id)
    ensures Route(ISO_FILE + id) == ISOFile(id)
  {
    Prefixed(ISO_FILE, id);
    NotPrefixed(ISO_FILE, id, ANSWER, 6);
    NotPrefixed(ISO_FILE, id, CLOUD, 6);
    NotPrefixed(ISO_FILE, id, REPORT, 6);
  }

  lemma RouteISO(id: string, inner: string)
    requires IsSegment(id)
    ensures Route(ISO + (id + "/" + inner)) == ISOContent(id, inner)
  {
    var rest := id + "/" + inner;
    Prefixed(ISO, rest);
    NotPrefixed(ISO, rest, ANSWER, 6);
    NotPrefixed(ISO, rest, CLOUD, 6);
    NotPrefixed(ISO, rest, REPORT, 6);
    NotPrefixed(ISO, rest, ISO_FILE, 9);
    SplitsAt(id, inner);
  }

  lemma RouteAsset(name: string)
    ensures Route(ASSETS + name) == Asset(name)
  {
    Prefixed(ASSETS, name);
    NotPrefixed(ASSETS, name, ANSWER, 7);
    NotPrefixed(ASSETS, name, CLOUD, 6);
    NotPrefixed(ASSETS, name, REPORT, 6);
    NotPrefixed(ASSETS, name, ISO_FILE, 6);
    NotPrefixed(ASSETS, name, ISO, 6);
  }

  // ---------------------------------------------------------------- numbers

  /** The number a string of digits stands for. */
  function Value(digits: string): int {
    if digits == "" then 0 else 10 * Value(digits[..|digits| - 1]) + (digits[|digits| - 1] as int - '0' as int)
  }

  lemma Digit(k: nat)
    requires k < 10
    ensures "0123456789"[k] as int == '0' as int + k && "0123456789"[k] != '/'
  {}

  lemma {:induction false} DecimalIsValue(n: nat)
    ensures IsSegment(Decimal(n)) && Value(Decimal(n)) == n
  {
    var front, k := if n < 10 then "" else Decimal(n / 10), n % 10;
    Digit(k);
    hide Value;
    if n >= 10 { DecimalIsValue(n / 10); }
    assert Decimal(n) == front + ["0123456789"[k]];
    LastDigit(front, "0123456789"[k]);
    assert Value("") == 0 by { NoDigits(); }
  }

  lemma LastDigit(front: string, c: char)
    ensures Value(front + [c]) == 10 * Value(front) + (c as int - '0' as int)
  {
    assert (front + [c])[..|front|] == front;
  }

  lemma NoDigits()
    ensures Value("") == 0
  {}

  // ------------------------------------------------------------------- URLs

  /** The URL is the base followed by a path that is served so. */
  ghost predicate LeadsTo(url: string, baseURL: string, target: Endpoint) {
    StartsWith(url, baseURL) && Route(url[|baseURL|..]) == target
  }

  lemma Leads(baseURL: string, prefix: string, rest: string)
    ensures LeadsTo(baseURL + prefix + rest, baseURL, Route(prefix + rest))
  {
    hide Route;
    var url := baseURL + prefix + rest;
    assert url == baseURL + (prefix + rest);
    assert url[|baseURL|..] == prefix + rest;
  }

  lemma LeadsDeep(baseURL: string, prefix: string, left: string, right: string)
    ensures LeadsTo(baseURL + prefix + left + "/" + right, baseURL, Route(prefix + (left + "/" + right)))
  {
    hide Route;
    Leads(baseURL, prefix, left + "/" + right);
    assert baseURL + prefix + left + "/" + right == baseURL + prefix + (left + "/" + right);
  }

  /** The row id in a path: digits that stand for the image. */
  ghost predicate Names(id: string, iso: nat) { IsSegment(id) && Value(id) == iso }

  /**
   What a template is given: the answer file and the report go back to the token's
   installation, cloud-init finds its files below the seed URL, and the image URLs
   name the installation's image.
   */
  lemma ParamsLeadBack(baseURL: string, token: string, iso: nat, hostname: string, mac: string,
                       file: string, inner: string)
    requires IsSegment(token) && IsSegment(file)
    ensures var p := AnswerParams(baseURL, token, iso, hostname, mac); var id := Decimal(iso);
      && LeadsTo(p.answerFileURL, baseURL, AnswerFile(token))
      && LeadsTo(p.reportURL, baseURL, Report(token))
      && LeadsTo(p.cloudInitURL + file, baseURL, CloudInit(token, file))
      && LeadsTo(p.isoURL, baseURL, ISOFile(id))
      && LeadsTo(p.isoContentURL + "/" + inner, baseURL, ISOContent(id, inner))
      && Names(id, iso) && p.hostname == hostname && p.mac == mac
  {
    hide Route, LeadsTo, Value;
    var id := Decimal(iso);
    DecimalIsValue(iso);
    RouteAnswer(token);
    Leads(baseURL, ANSWER, token);
    RouteReport(token);
    Leads(baseURL, REPORT, token);
    RouteCloud(token, file);
    LeadsDeep(baseURL, CLOUD, token, file);
    RouteISOFile(id);
    Leads(baseURL, ISO_FILE, id);
    RouteISO(id, inner);
    LeadsDeep(baseURL, ISO, id, inner);
  }

  /** Kernels and initrds: a path goes into the installation's image, a bare name to the boot assets. */
  lemma FilesLeadBack(p: string, baseURL: string, iso: nat)
    ensures '/' !in p ==> LeadsTo(Resolve(p, baseURL, iso), baseURL, Asset(p))
    ensures '/' in p ==> Names(Decimal(iso), iso)
    ensures '/' in p && p[0] != '/' ==> LeadsTo(Resolve(p, baseURL, iso), baseURL, ISOContent(Decimal(iso), p))
    ensures '/' in p && p[0] == '/' ==> LeadsTo(Resolve(p, baseURL, iso), baseURL, ISOContent(Decimal(iso), p[1..]))
  {
    hide Route, LeadsTo, Value;
    DecimalIsValue(iso);
    if '/' !in p {
      RouteAsset(p);
      Leads(baseURL, ASSETS, p);
    } else {
      var inner := if p[0] == '/' then p[1..] else p;
      RouteISO(Decimal(iso), inner);
      LeadsDeep(baseURL, ISO, Decimal(iso), inner);
    }
  }
}
