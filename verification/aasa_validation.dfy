/** The first-failure chain of `fetch_and_check` in src/aasa.rs, lifted out as a pure
    function of what the HTTP exchange delivered. */
module AasaValidation {
  import opened Wrappers
  import opened Text
  import opened AasaMatcher

  /** `AppError`: the single reason the check stopped. */
  datatype AppError =
    | AasaNotFound
    | ContentTypeNotSet
    | ContentTypeWrong(value: string)
    | FileTooLarge(size: nat)
    | InvalidFileFormat
    | NoMatchingPattern

  /** The body as read: either reading failed, or its length and the JSON decoding. */
  datatype Body = BodyReadFailed | Body(length: nat, parsed: Option<AppleAppSiteAssociation>)

  /** The outcome of the GET request. A header value is a byte string, one `char` per byte. */
  datatype Response = TransportFailed | Response(status: u16, contentType: Option<string>, body: Body)

  /** Largest accepted body, in bytes. */
  const MaxFileSize: nat := 128_000

  /** A wrong Content-Type is reported through `to_str().unwrap()`, which panics on
      any other byte. */
  predicate HeaderRenderable(resp: Response)
  {
    (resp.Response? && resp.status == 200 && resp.contentType.Some? && resp.contentType.value != ApplicationJson)
    ==> IsVisibleAscii(resp.contentType.value)
  }

  // The stages, each reached only when all earlier ones pass.
  predicate StatusOk(resp: Response)
  {
    resp.Response? && resp.status == 200
  }

  predicate ContentTypeOk(resp: Response)
  {
    StatusOk(resp) && resp.contentType == Some(ApplicationJson)
  }

  predicate BodyRead(resp: Response)
  {
    ContentTypeOk(resp) && resp.body.Body?
  }

  predicate SizeOk(resp: Response)
  {
    BodyRead(resp) && resp.body.length <= MaxFileSize
  }

  /** The `appID`s of the entries that accept `path`, in document order. */
  function MatchingAppIds(details: seq<AppLinkDetail>, path: string): seq<string>
    decreases |details|
  {
    if |details| == 0 then []
    else (if AasaMatch(details[0], path) then [details[0].appID] else []) + MatchingAppIds(details[1..], path)
  }

  /** An id is listed exactly when some entry with that id accepts the path, and the
      list is empty exactly when no entry accepts it. */
  lemma {:induction false} MatchingAppIdsMembers(details: seq<AppLinkDetail>, path: string)
    ensures forall id :: id in MatchingAppIds(details, path) <==>
      exists i :: 0 <= i < |details| && details[i].appID == id && AasaMatch(details[i], path)
    ensures |MatchingAppIds(details, path)| <= |details|
    ensures |MatchingAppIds(details, path)| == 0 <==>
      forall i :: 0 <= i < |details| ==> !AasaMatch(details[i], path)
    decreases |details|
  {
    if |details| > 0 {
      MatchingAppIdsMembers(details[1..], path);
      assert forall i :: 1 <= i < |details| ==> details[i] == details[1..][i - 1];
      forall id | id in MatchingAppIds(details, path)
        ensures exists i :: 0 <= i < |details| && details[i].appID == id && AasaMatch(details[i], path)
      {
        if id !in MatchingAppIds(details[1..], path) {
          assert details[0].appID == id && AasaMatch(details[0], path);
        } else {
          var i :| 0 <= i < |details[1..]| && details[1..][i].appID == id && AasaMatch(details[1..][i], path);
          assert details[i + 1].appID == id && AasaMatch(details[i + 1], path);
        }
      }
      forall id | exists i :: 0 <= i < |details| && details[i].appID == id && AasaMatch(details[i], path)
        ensures id in MatchingAppIds(details, path)
      {
        var i :| 0 <= i < |details| && details[i].appID == id && AasaMatch(details[i], path);
        if i > 0 {
          assert details[1..][i - 1] == details[i];
        }
      }
    }
  }

  /** Matching app ids of consecutive runs of entries are concatenated, so the
      result keeps the document order. */
  lemma {:induction false} MatchingAppIdsConcat(a: seq<AppLinkDetail>, b: seq<AppLinkDetail>, path: string)
    ensures MatchingAppIds(a + b, path) == MatchingAppIds(a, path) + MatchingAppIds(b, path)
    decreases |a|
  {
    if |a| == 0 {
      assert a + b == b;
    } else {
      MatchingAppIdsConcat(a[1..], b, path);
      assert (a + b)[0] == a[0];
      assert (a + b)[1..] == a[1..] + b;
      var head := if AasaMatch(a[0], path) then [a[0].appID] else [];
      AppendAssociative(head, MatchingAppIds(a[1..], path), MatchingAppIds(b, path));
    }
  }

  /** The chain: status, Content-Type, body read, size, parse, match; the first
      failing stage decides the error, and later stages are not consulted. */
  function FetchAndCheck(resp: Response, path: string): (r: Result<seq<string>, AppError>)
    requires HeaderRenderable(resp)
    ensures r == Failure(AasaNotFound) <==>
      !StatusOk(resp) || (ContentTypeOk(resp) && resp.body.BodyReadFailed?)
    ensures r == Failure(ContentTypeNotSet) <==> StatusOk(resp) && resp.contentType.None?
    ensures forall v :: r == Failure(ContentTypeWrong(v)) <==>
      StatusOk(resp) && resp.contentType == Some(v) && v != ApplicationJson
    ensures forall n: nat :: r == Failure(FileTooLarge(n)) <==>
      BodyRead(resp) && resp.body.length == n && n > MaxFileSize
    ensures r == Failure(InvalidFileFormat) <==> SizeOk(resp) && resp.body.parsed.None?
    ensures r == Failure(NoMatchingPattern) <==>
      SizeOk(resp) && resp.body.parsed.Some? &&
      forall i :: 0 <= i < |resp.body.parsed.value.applinks.details| ==>
        !AasaMatch(resp.body.parsed.value.applinks.details[i], path)
    ensures r.Success? ==>
      SizeOk(resp) && resp.body.parsed.Some? && |r.value| > 0 &&
      r.value == MatchingAppIds(resp.body.parsed.value.applinks.details, path)
  {
    if resp.TransportFailed? then Failure(AasaNotFound)
    else if resp.status != 200 then Failure(AasaNotFound)
    else if resp.contentType.None? then Failure(ContentTypeNotSet)
    else if resp.contentType.value != ApplicationJson then Failure(ContentTypeWrong(resp.contentType.value))
    else if resp.body.BodyReadFailed? then Failure(AasaNotFound)
    else if resp.body.length > MaxFileSize then Failure(FileTooLarge(resp.body.length))
    else if resp.body.parsed.None? then Failure(InvalidFileFormat)
    else
      var ids := MatchingAppIds(resp.body.parsed.value.applinks.details, path);
      MatchingAppIdsMembers(resp.body.parsed.value.applinks.details, path);
      if |ids| == 0 then Failure(NoMatchingPattern) else Success(ids)
  }

  /** The limit is inclusive: a body of exactly 128,000 bytes is not too large. */
  lemma SizeLimitIsInclusive(resp: Response, path: string)
    requires BodyRead(resp) && resp.body.length == MaxFileSize
    ensures !FetchAndCheck(resp, path).Failure? || !FetchAndCheck(resp, path).error.FileTooLarge?
  {
  }
}
