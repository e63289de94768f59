/** Digital Asset Links checking of src/android/assetlinks.rs: the statement list
    (Google's `assetlinks.json` format, already decoded), the problems a fetched
    document can show, and their human-readable rendering. */
module Assetlinks {
  import opened Wrappers
  import opened Text
  import Uris

  datatype AppTarget = AppTarget(namespace: string, packageName: string, sha256CertFingerprints: seq<string>)

  /** One statement of the list. */
  datatype Assetlink = Assetlink(relation: seq<string>, target: AppTarget)

  datatype Problem =
    | ForbiddenByRobotsTxt
    | WrongStatusCode(code: u16)
    | NoContentTypeHeader
    | WrongContentTypeHeader(value: string)
    | InvalidFileFormat
    | AppIdNotInAssetlinks
    | MissingHandleAllUrlsRelation

  /** What one fetch of the document established; `None` where nothing was learnt. */
  datatype CheckResult = CheckResult(
    uri: Uris.Uri,
    appId: string,
    statusCode: Option<u16>,
    contentType: Option<string>,
    content: Option<seq<u8>>,
    contentParsed: Option<seq<Assetlink>>)

  /** The relation that lets the app handle all URLs of the site. */
  const HandleAllUrls: string := "delegate_permission/common.handle_all_urls"

  const AssetlinksPath: string := "/.well-known/assetlinks.json"

  /** `CheckResult::new` */
  function NewCheckResult(uri: Uris.Uri, appId: string): CheckResult
  {
    CheckResult(uri, appId, None, None, None, None)
  }

  /** `assetlinks_json_from_url`: the document lives at a fixed path of the host,
      over https, whatever the port, path and query of the link. */
  function AssetlinksJsonFromUrl(uri: Uris.Uri): (r: Uris.Uri)
    requires Uris.HasHost(uri)
    ensures Uris.ToString(r) == "https://" + Uris.Host(uri) + AssetlinksPath
    ensures r.authority.Some? && r.authority.value.port.None? && r.query.None?
  {
    Uris.DocumentUriRendering(uri, AssetlinksPath);
    Uris.DocumentUri(uri, AssetlinksPath)
  }

  /** The statements whose target is the app. */
  function StatementsFor(links: seq<Assetlink>, appId: string): (r: seq<Assetlink>)
    ensures forall l :: l in r <==> l in links && l.target.packageName == appId
  {
    if |links| == 0 then []
    else
      var head := if links[0].target.packageName == appId then [links[0]] else [];
      head + StatementsFor(links[1..], appId)
  }

  /** The statements that carry the handle-all-URLs relation. */
  function WithHandleAllUrls(links: seq<Assetlink>): (r: seq<Assetlink>)
    ensures forall l :: l in r <==> l in links && HandleAllUrls in l.relation
  {
    if |links| == 0 then []
    else
      var head := if HandleAllUrls in links[0].relation then [links[0]] else [];
      head + WithHandleAllUrls(links[1..])
  }

  /** Some statement targets the app. */
  ghost predicate Declares(links: seq<Assetlink>, appId: string)
  {
    exists l :: l in links && l.target.packageName == appId
  }

  /** Some statement targets the app and carries the handle-all-URLs relation. */
  ghost predicate Delegates(links: seq<Assetlink>, appId: string)
  {
    exists l :: l in links && l.target.packageName == appId && HandleAllUrls in l.relation
  }

  /** The filters decide the two predicates. */
  lemma DeclaresAndDelegates(links: seq<Assetlink>, appId: string)
    ensures Declares(links, appId) <==> |StatementsFor(links, appId)| > 0
    ensures Delegates(links, appId) <==> |WithHandleAllUrls(StatementsFor(links, appId))| > 0
  {
    var matches := StatementsFor(links, appId);
    if |matches| > 0 {
      assert matches[0] in matches;
    }
    if |WithHandleAllUrls(matches)| > 0 {
      var l := WithHandleAllUrls(matches)[0];
      assert l in WithHandleAllUrls(matches);
      assert l in links && l.target.packageName == appId && HandleAllUrls in l.relation;
    }
    if Delegates(links, appId) {
      var l :| l in links && l.target.packageName == appId && HandleAllUrls in l.relation;
      assert l in WithHandleAllUrls(matches);
    }
  }

  /** Problems are listed in this order: status, Content-Type, then file content. */
  function Rank(p: Problem): nat
  {
    match p
    case WrongStatusCode(_) => 0
    case NoContentTypeHeader => 1
    case WrongContentTypeHeader(_) => 1
    case InvalidFileFormat => 2
    case AppIdNotInAssetlinks => 2
    case MissingHandleAllUrlsRelation => 2
    case ForbiddenByRobotsTxt => 3
  }

  /** Ranks strictly increase along the list, so no two problems share a rank. */
  predicate StrictlyRanked(r: seq<Problem>)
  {
    forall i, j :: 0 <= i < j < |r| ==> Rank(r[i]) < Rank(r[j])
  }

  lemma RankedConcat(a: seq<Problem>, b: seq<Problem>)
    requires StrictlyRanked(a) && StrictlyRanked(b)
    requires forall i, j :: 0 <= i < |a| && 0 <= j < |b| ==> Rank(a[i]) < Rank(b[j])
    ensures StrictlyRanked(a + b)
  {
    var r := a + b;
    forall i, j | 0 <= i < j < |r|
      ensures Rank(r[i]) < Rank(r[j])
    {
      if j < |a| {
        assert r[i] == a[i] && r[j] == a[j];
      } else if i >= |a| {
        assert r[i] == b[i - |a|] && r[j] == b[j - |a|];
      } else {
        assert r[i] == a[i] && r[j] == b[j - |a|];
      }
    }
  }

  function StatusProblems(c: CheckResult): (r: seq<Problem>)
    ensures |r| <= 1 && forall k :: 0 <= k < |r| ==> Rank(r[k]) == 0
    ensures forall sc: u16 :: WrongStatusCode(sc) in r <==> c.statusCode == Some(sc) && sc != 200
  {
    if c.statusCode.Some? && c.statusCode.value != 200 then [WrongStatusCode(c.statusCode.value)] else []
  }

  function ContentTypeProblems(c: CheckResult): (r: seq<Problem>)
    ensures |r| <= 1 && forall k :: 0 <= k < |r| ==> Rank(r[k]) == 1
    ensures NoContentTypeHeader in r <==> c.contentType.None?
    ensures forall ct :: WrongContentTypeHeader(ct) in r <==> c.contentType == Some(ct) && ct != ApplicationJson
  {
    match c.contentType
    case Some(ct) => if ct != ApplicationJson then [WrongContentTypeHeader(ct)] else []
    case None => [NoContentTypeHeader]
  }

  function ContentProblems(c: CheckResult): (r: seq<Problem>)
    ensures |r| <= 1 && forall k :: 0 <= k < |r| ==> Rank(r[k]) == 2
    ensures InvalidFileFormat in r <==> c.content.Some? && c.contentParsed.None?
    ensures AppIdNotInAssetlinks in r <==> c.contentParsed.Some? && !Declares(c.contentParsed.value, c.appId)
    ensures MissingHandleAllUrlsRelation in r <==>
      c.contentParsed.Some? && Declares(c.contentParsed.value, c.appId) && !Delegates(c.contentParsed.value, c.appId)
  {
    if c.content.Some? && c.contentParsed.None? then [InvalidFileFormat]
    else
      match c.contentParsed
      case Some(links) =>
        var matches := StatementsFor(links, c.appId);
        DeclaresAndDelegates(links, c.appId);
        if |matches| == 0 then [AppIdNotInAssetlinks]
        else if |WithHandleAllUrls(matches)| == 0 then [MissingHandleAllUrlsRelation]
        else []
      case None => []
  }

  /** `CheckResult::get_problems`: every applicable problem, not only the first. */
  function GetProblems(c: CheckResult): (r: seq<Problem>)
    ensures forall sc: u16 :: WrongStatusCode(sc) in r <==> c.statusCode == Some(sc) && sc != 200
    ensures NoContentTypeHeader in r <==> c.contentType.None?
    ensures forall ct :: WrongContentTypeHeader(ct) in r <==> c.contentType == Some(ct) && ct != ApplicationJson
    ensures InvalidFileFormat in r <==> c.content.Some? && c.contentParsed.None?
    ensures AppIdNotInAssetlinks in r <==> c.contentParsed.Some? && !Declares(c.contentParsed.value, c.appId)
    ensures MissingHandleAllUrlsRelation in r <==>
      c.contentParsed.Some? && Declares(c.contentParsed.value, c.appId) && !Delegates(c.contentParsed.value, c.appId)
    ensures ForbiddenByRobotsTxt !in r
  {
    StatusProblems(c) + ContentTypeProblems(c) + ContentProblems(c)
  }

  /** Problems come in the fixed order status, Content-Type, content, with at most
      one of each kind: never more than three. */
  lemma GetProblemsOrdered(c: CheckResult)
    ensures StrictlyRanked(GetProblems(c))
    ensures |GetProblems(c)| <= 3
  {
    var a, b, d := StatusProblems(c), ContentTypeProblems(c), ContentProblems(c);
    RankedConcat(a, b);
    assert forall i :: 0 <= i < |a + b| ==> Rank((a + b)[i]) <= 1;
    RankedConcat(a + b, d);
  }

  /** `Problem::to_string_human` */
  function ToHuman(p: Problem): string
  {
    match p
    case ForbiddenByRobotsTxt => "Access to assetlinks.json forbidden by robots.txt"
    case WrongStatusCode(sc) =>
      if sc == 301 || sc == 302 then StatusMessage(sc) + " Redirects are not allowed."
      else StatusMessage(sc)
    case NoContentTypeHeader => "No 'Content-Type' HTTP header sent. Must be 'application/json'."
    case WrongContentTypeHeader(ct) => "Wrong 'Content-Type' header sent: '" + ct + "'. Must be 'application/json'"
    case InvalidFileFormat => "Failed to parse file."
    case AppIdNotInAssetlinks => "The app id you specified was not found in assetlinks.json."
    case MissingHandleAllUrlsRelation =>
      "The entry for the specified app id is missing the relation '" + HandleAllUrls + "'."
  }

  function StatusMessage(sc: u16): string
  {
    "Invalid status code '" + Decimal(sc) + "'."
  }

  const RedirectNote: string := "Redirects are not allowed"

  /** No character of a status message without the redirect note is an `R`. */
  lemma StatusMessageHasNoR(sc: u16)
    ensures 'R' !in StatusMessage(sc)
  {
    var prefix := "Invalid status code '";
    assert forall k :: 0 <= k < |prefix| ==> prefix[k] != 'R';
    assert StatusMessage(sc) == prefix + Decimal(sc) + "'.";
  }

  /** A status message mentions redirects exactly for 301 and 302. */
  lemma StatusMessageMentionsRedirects(sc: u16)
    ensures Contains(ToHuman(WrongStatusCode(sc)), RedirectNote) <==> sc == 301 || sc == 302
  {
    var message := ToHuman(WrongStatusCode(sc));
    if sc == 301 || sc == 302 {
      assert message == StatusMessage(sc) + " " + RedirectNote + ".";
      ContainsPart(message, StatusMessage(sc) + " ", RedirectNote, ".");
    } else {
      assert message == StatusMessage(sc);
      StatusMessageHasNoR(sc);
      assert RedirectNote[0] == 'R';
      NotContainedWithoutFirstChar(message, RedirectNote);
    }
  }

  /** Messages quote what they complain about: the status code in decimal, the
      Content-Type header as received. */
  lemma ToHumanQuotes(p: Problem)
    ensures p.WrongStatusCode? ==> Contains(ToHuman(p), Decimal(p.code))
    ensures p.WrongContentTypeHeader? ==> Contains(ToHuman(p), p.value)
  {
    match p {
      case WrongStatusCode(sc) =>
        var prefix := "Invalid status code '";
        var message := ToHuman(p);
        ContainsPart(message, prefix, Decimal(sc), message[|prefix| + |Decimal(sc)|..]);
      case WrongContentTypeHeader(ct) =>
        ContainsPart(ToHuman(p), "Wrong 'Content-Type' header sent: '", ct, "'. Must be 'application/json'");
      case _ =>
    }
  }

  /** What the GET request delivered. A header value is a byte string, one `char` per byte. */
  datatype Fetched = RequestFailed | Fetched(status: u16, contentType: Option<string>, body: FetchedBody)

  /** The body as read: reading failed, or the bytes and their JSON decoding. */
  datatype FetchedBody = ReadFailed | Read(bytes: seq<u8>, parsed: Option<seq<Assetlink>>)

  datatype FetchError = FetchFailed | ParseFailed

  /** The Content-Type is copied through `to_str().unwrap()`, which panics on bytes
      that are not visible ASCII. */
  predicate HeaderReadable(f: Fetched)
  {
    f.Fetched? && f.contentType.Some? ==> IsVisibleAscii(f.contentType.value)
  }

  /** `fetch_and_check` as written: a body that does not parse is returned as an
      error by the `?` operator, so the check result is lost. */
  function FetchAndCheckAsWritten(uri: Uris.Uri, appId: string, f: Fetched): (r: Result<CheckResult, FetchError>)
    requires HeaderReadable(f)
    ensures r.Success? ==> r.value.content.Some? ==> r.value.contentParsed.Some?
    ensures f.Fetched? && f.status == 200 && f.body.Read? && f.body.parsed.None? ==> r == Failure(ParseFailed)
  {
    if f.RequestFailed? then Failure(FetchFailed)
    else
      var check := NewCheckResult(uri, appId).(statusCode := Some(f.status), contentType := f.contentType);
      if f.status != 200 then Success(check)
      else if f.body.ReadFailed? then Failure(FetchFailed)
      else if f.body.parsed.None? then Failure(ParseFailed)
      else Success(check.(content := Some(f.body.bytes), contentParsed := f.body.parsed))
  }

  /** Consequently a fetched document never yields `InvalidFileFormat`, although
      `get_problems` has a branch for exactly that case. */
  lemma AsWrittenNeverReportsInvalidFileFormat(uri: Uris.Uri, appId: string, f: Fetched)
    requires HeaderReadable(f)
    requires FetchAndCheckAsWritten(uri, appId, f).Success?
    ensures InvalidFileFormat !in GetProblems(FetchAndCheckAsWritten(uri, appId, f).value)
  {
  }

  /** `fetch_and_check` with the parse failure recorded in the result instead of
      returned as an error, so that `get_problems` can report it. */
  function FetchAndCheck(uri: Uris.Uri, appId: string, f: Fetched): (r: Result<CheckResult, FetchError>)
    requires HeaderReadable(f)
    ensures r.Failure? <==> f.RequestFailed? || (f.status == 200 && f.body.ReadFailed?)
    ensures r.Success? ==> r.value.uri == uri && r.value.appId == appId
    ensures r.Success? ==> r.value.statusCode == Some(f.status) && r.value.contentType == f.contentType
    ensures r.Success? && f.status == 200 ==>
      r.value.content == Some(f.body.bytes) && r.value.contentParsed == f.body.parsed
    ensures r.Success? && f.status != 200 ==> r.value.content.None? && r.value.contentParsed.None?
  {
    if f.RequestFailed? then Failure(FetchFailed)
    else
      var check := NewCheckResult(uri, appId).(statusCode := Some(f.status), contentType := f.contentType);
      if f.status != 200 then Success(check)
      else if f.body.ReadFailed? then Failure(FetchFailed)
      else Success(check.(content := Some(f.body.bytes), contentParsed := f.body.parsed))
  }

  /** With the correction, an unparsable document is reported as `InvalidFileFormat`,
      and a parsable one is handled exactly as before. */
  lemma FetchAndCheckReportsInvalidFileFormat(uri: Uris.Uri, appId: string, f: Fetched)
    requires HeaderReadable(f)
    ensures f.Fetched? && f.status == 200 && f.body.Read? ==>
      (InvalidFileFormat in GetProblems(FetchAndCheck(uri, appId, f).value) <==> f.body.parsed.None?)
    ensures FetchAndCheckAsWritten(uri, appId, f).Success? ==>
      FetchAndCheck(uri, appId, f) == FetchAndCheckAsWritten(uri, appId, f)
  {
  }
}
