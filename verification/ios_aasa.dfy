/** The iOS check of src/ios/aasa.rs: the record a fetch fills in, its
    Content-Type test, and the step that collects matching app entries. */
module IosAasa {
  import opened Wrappers
  import opened Text
  import opened AasaMatcher
  import AasaValidation
  import Uris

  /** One accepted (entry, path) pair; `pattern` is always left empty. */
  datatype Match = Match(bundleId: string, pattern: string)

  /** `AASACheck`: the inputs of one check and what the fetch found out. */
  datatype AasaCheck = AasaCheck(
    url: Uris.Uri,
    pathsToCheck: seq<string>,
    okResponse: Option<bool>,
    contentType: Option<string>,
    fileSize: Option<nat>,
    parsed: Option<AppleAppSiteAssociation>,
    parseError: Option<bool>,
    matches: Option<seq<Match>>)

  /** `AASACheck::new`: nothing is known yet. */
  function NewAasaCheck(url: Uris.Uri, pathsToCheck: seq<string>): AasaCheck
  {
    AasaCheck(url, pathsToCheck, None, None, None, None, None, None)
  }

  /** `AASACheck::content_type_json` */
  function ContentTypeJson(check: AasaCheck): (r: bool)
    ensures r <==> check.contentType == Some(ApplicationJson)
  {
    match check.contentType
    case Some(ct) => ct == ApplicationJson
    case None => false
  }

  /** The comparison is exact: a media type with parameters is rejected. */
  lemma ContentTypeWithParametersRejected(check: AasaCheck, parameters: string)
    requires |parameters| > 0
    requires check.contentType == Some(ApplicationJson + parameters)
    ensures !ContentTypeJson(check)
  {
    assert |ApplicationJson + parameters| != |ApplicationJson|;
  }

  /** The matches one entry contributes, in the order of the paths checked. */
  function EntryMatches(app: AppLinkDetail, paths: seq<string>): seq<Match>
    decreases |paths|
  {
    if |paths| == 0 then []
    else
      var last := paths[|paths| - 1];
      EntryMatches(app, paths[..|paths| - 1]) + (if AasaMatch(app, last) then [Match(app.appID, "")] else [])
  }

  /** Every match an entry contributes names the entry and comes from an accepted path. */
  lemma {:induction false} EntryMatchesSound(app: AppLinkDetail, paths: seq<string>, m: Match)
    requires m in EntryMatches(app, paths)
    ensures m == Match(app.appID, "") && exists k :: 0 <= k < |paths| && AasaMatch(app, paths[k])
    decreases |paths|
  {
    var n := |paths| - 1;
    var init := paths[..n];
    if m in EntryMatches(app, init) {
      EntryMatchesSound(app, init, m);
      var k :| 0 <= k < |init| && AasaMatch(app, init[k]);
      assert init[k] == paths[k];
    } else {
      assert AasaMatch(app, paths[n]);
    }
  }

  /** An entry that accepts one of the paths contributes its match. */
  lemma {:induction false} EntryMatchesComplete(app: AppLinkDetail, paths: seq<string>, k: int)
    requires 0 <= k < |paths| && AasaMatch(app, paths[k])
    ensures Match(app.appID, "") in EntryMatches(app, paths)
    decreases |paths|
  {
    var n := |paths| - 1;
    if k == n {
      LastPathMatches(app, paths);
    } else {
      var init := paths[..n];
      var m := Match(app.appID, "");
      var before := EntryMatches(app, init);
      var tail := if AasaMatch(app, paths[n]) then [m] else [];
      assert EntryMatches(app, paths) == before + tail;
      assert init[k] == paths[k];
      EntryMatchesComplete(app, init, k);
      var i :| 0 <= i < |before| && before[i] == m;
      assert (before + tail)[i] == m;
    }
  }

  /** An entry whose last path is accepted ends its list with that path's match. */
  lemma LastPathMatches(app: AppLinkDetail, paths: seq<string>)
    requires |paths| > 0 && AasaMatch(app, paths[|paths| - 1])
    ensures Match(app.appID, "") in EntryMatches(app, paths)
  {
    var before := EntryMatches(app, paths[..|paths| - 1]);
    var m := Match(app.appID, "");
    assert EntryMatches(app, paths) == before + [m];
    assert (before + [m])[|before|] == m;
  }

  /** An entry contributes its match exactly when it accepts one of the paths. */
  lemma EntryMatchesMembers(app: AppLinkDetail, paths: seq<string>, m: Match)
    ensures m in EntryMatches(app, paths) <==>
      m == Match(app.appID, "") && exists k :: 0 <= k < |paths| && AasaMatch(app, paths[k])
  {
    if m in EntryMatches(app, paths) {
      EntryMatchesSound(app, paths, m);
    }
    if m == Match(app.appID, "") && exists k :: 0 <= k < |paths| && AasaMatch(app, paths[k]) {
      var k :| 0 <= k < |paths| && AasaMatch(app, paths[k]);
      EntryMatchesComplete(app, paths, k);
    }
  }

  /** All matches, entry by entry (entry-major order). */
  function AllMatches(details: seq<AppLinkDetail>, paths: seq<string>): seq<Match>
    decreases |details|
  {
    if |details| == 0 then []
    else AllMatches(details[..|details| - 1], paths) + EntryMatches(details[|details| - 1], paths)
  }

  /** Some entry named `bundleId` accepts one of the paths. */
  ghost predicate Accepts(details: seq<AppLinkDetail>, paths: seq<string>, bundleId: string)
  {
    exists i, k :: 0 <= i < |details| && 0 <= k < |paths| &&
      details[i].appID == bundleId && AasaMatch(details[i], paths[k])
  }

  /** A match is reported exactly for an entry that accepts one of the paths; it
      names the entry's full `appID` and leaves the pattern empty. */
  lemma {:induction false} AllMatchesMembers(details: seq<AppLinkDetail>, paths: seq<string>, m: Match)
    ensures m in AllMatches(details, paths) <==> m.pattern == "" && Accepts(details, paths, m.bundleId)
    decreases |details|
  {
    if |details| > 0 {
      var n := |details| - 1;
      var init := details[..n];
      AllMatchesMembers(init, paths, m);
      EntryMatchesMembers(details[n], paths, m);
      assert AllMatches(details, paths) == AllMatches(init, paths) + EntryMatches(details[n], paths);
      if m in AllMatches(details, paths) {
        if m in AllMatches(init, paths) {
          var i, k :| 0 <= i < |init| && 0 <= k < |paths| && init[i].appID == m.bundleId && AasaMatch(init[i], paths[k]);
          assert details[i] == init[i];
        } else {
          var k :| 0 <= k < |paths| && AasaMatch(details[n], paths[k]);
          assert details[n].appID == m.bundleId;
        }
      }
      if m.pattern == "" && Accepts(details, paths, m.bundleId) {
        var i, k :| 0 <= i < |details| && 0 <= k < |paths| && details[i].appID == m.bundleId && AasaMatch(details[i], paths[k]);
        if i < n {
          assert init[i] == details[i];
          assert init[i].appID == m.bundleId && AasaMatch(init[i], paths[k]);
          assert Accepts(init, paths, m.bundleId);
        } else {
          assert i == n && AasaMatch(details[n], paths[k]);
          assert m == Match(details[n].appID, "");
          assert m in EntryMatches(details[n], paths);
        }
      }
    }
  }

  /** Matches of consecutive runs of entries are concatenated: the result lists the
      matches of earlier entries before those of later entries. */
  lemma {:induction false} AllMatchesConcat(a: seq<AppLinkDetail>, b: seq<AppLinkDetail>, paths: seq<string>)
    ensures AllMatches(a + b, paths) == AllMatches(a, paths) + AllMatches(b, paths)
    decreases |b|
  {
    if |b| == 0 {
      assert a + b == a;
    } else {
      var b' := b[..|b| - 1];
      var last := b[|b| - 1];
      AllMatchesConcat(a, b', paths);
      assert (a + b)[..|a + b| - 1] == a + b';
      assert (a + b)[|a + b| - 1] == last;
      calc {
        AllMatches(a + b, paths);
        AllMatches(a + b', paths) + EntryMatches(last, paths);
        AllMatches(a, paths) + AllMatches(b', paths) + EntryMatches(last, paths);
        AllMatches(a, paths) + (AllMatches(b', paths) + EntryMatches(last, paths));
        AllMatches(a, paths) + AllMatches(b, paths);
      }
    }
  }

  /** The match-collection step after the fetch: one `Match` per (entry, path) pair
      that `aasa_match` accepts, carrying the full `appID`; nothing when the file
      did not parse. Only `matches` is written. */
  method CollectMatches(check: AasaCheck) returns (updated: AasaCheck)
    ensures updated == check.(matches := updated.matches)
    ensures check.parsed.None? ==> updated.matches == Some([])
    ensures check.parsed.Some? ==>
      updated.matches == Some(AllMatches(check.parsed.value.applinks.details, check.pathsToCheck))
  {
    var res: seq<Match> := [];
    if check.parsed.Some? {
      var details := check.parsed.value.applinks.details;
      var paths := check.pathsToCheck;
      var i := 0;
      while i < |details|
        invariant 0 <= i <= |details|
        invariant res == AllMatches(details[..i], paths)
      {
        var app := details[i];
        var k := 0;
        while k < |paths|
          invariant 0 <= k <= |paths|
          invariant res == AllMatches(details[..i], paths) + EntryMatches(app, paths[..k])
        {
          assert paths[..k + 1][..k] == paths[..k];
          ghost var before := AllMatches(details[..i], paths);
          if AasaMatch(app, paths[k]) {
            AppendAssociative(before, EntryMatches(app, paths[..k]), [Match(app.appID, "")]);
            res := res + [Match(app.appID, "")];
          } else {
            assert EntryMatches(app, paths[..k + 1]) == EntryMatches(app, paths[..k]) + [];
          }
          k := k + 1;
        }
        assert paths[..k] == paths;
        assert details[..i + 1][..i] == details[..i];
        i := i + 1;
      }
      assert details[..i] == details;
    }
    updated := check.(matches := Some(res));
  }

  /** One `Match` per id, in order, each with an empty pattern. */
  function MatchesOf(ids: seq<string>): (r: seq<Match>)
    ensures |r| == |ids| && forall k :: 0 <= k < |ids| ==> r[k] == Match(ids[k], "")
  {
    seq(|ids|, k requires 0 <= k < |ids| => Match(ids[k], ""))
  }

  /** For a single path the collected matches are one `Match` per accepting entry, in
      entry order: exactly the ids the check of src/aasa.rs reports, each with an
      empty pattern. */
  lemma {:induction false} AllMatchesOnePath(details: seq<AppLinkDetail>, path: string)
    ensures AllMatches(details, [path]) == MatchesOf(AasaValidation.MatchingAppIds(details, path))
    decreases |details|
  {
    if |details| > 0 {
      var d, rest := details[0], details[1..];
      var head := if AasaMatch(d, path) then [d.appID] else [];
      var tail := AasaValidation.MatchingAppIds(rest, path);
      assert details == [d] + rest;
      AllMatchesConcat([d], rest, [path]);
      OneEntryOnePath(d, path);
      AllMatchesOnePath(rest, path);
      assert AasaValidation.MatchingAppIds(details, path) == head + tail;
      MatchesOfConcat(head, tail);
    }
  }

  /** A single entry asked about a single path yields its id exactly when it accepts it. */
  lemma OneEntryOnePath(d: AppLinkDetail, path: string)
    ensures AllMatches([d], [path]) == MatchesOf(if AasaMatch(d, path) then [d.appID] else [])
  {
    assert [d][..0] == [] && [path][..0] == [];
    assert AllMatches([d], [path]) == EntryMatches(d, [path]);
    assert EntryMatches(d, [path]) == if AasaMatch(d, path) then [Match(d.appID, "")] else [];
  }

  lemma MatchesOfConcat(a: seq<string>, b: seq<string>)
    ensures MatchesOf(a + b) == MatchesOf(a) + MatchesOf(b)
  {
  }

  /** The body of a response: its length in bytes and what JSON decoding made of it. */
  datatype Payload = Payload(length: nat, parsed: Option<AppleAppSiteAssociation>)

  /** What the HTTP exchange delivered; `body` is `None` when reading the body failed. */
  datatype Exchange =
    | TransportFailed
    | Exchange(status: u16, contentType: Option<string>, body: Option<Payload>)

  /** The fetch stage: it records what it learns in the check and hands the check on,
      as `Success` when the body was read and as `Failure` otherwise. A Content-Type
      header is recorded only when it is text; success never sets `okResponse`. */
  function RecordFetch(check: AasaCheck, ex: Exchange): (r: Result<AasaCheck, AasaCheck>)
    ensures ex.TransportFailed? || ex.status != 200 ==> r == Failure(check.(okResponse := Some(false)))
    ensures r.Success? <==> ex.Exchange? && ex.status == 200 && ex.body.Some?
    ensures ex.Exchange? && ex.status == 200 ==>
      var recorded := if ex.contentType.Some? && IsVisibleAscii(ex.contentType.value) then ex.contentType else check.contentType;
      match ex.body
      case None => r == Failure(check.(contentType := recorded))
      case Some(p) =>
        && r.Success?
        && r.value.url == check.url && r.value.pathsToCheck == check.pathsToCheck
        && r.value.okResponse == check.okResponse && r.value.matches == check.matches
        && r.value.contentType == recorded
        && r.value.fileSize == Some(p.length)
        && (p.parsed.Some? ==> r.value.parsed == p.parsed && r.value.parseError == check.parseError)
        && (p.parsed.None? ==> r.value.parsed == check.parsed && r.value.parseError == Some(true))
  {
    match ex
    case TransportFailed => Failure(check.(okResponse := Some(false)))
    case Exchange(status, contentType, body) =>
      if status != 200 then Failure(check.(okResponse := Some(false)))
      else
        var check := match contentType
          case Some(s) => if IsVisibleAscii(s) then check.(contentType := Some(s)) else check
          case None => check;
        match body
        case None => Failure(check)
        case Some(p) =>
          var check := check.(fileSize := Some(p.length));
          match p.parsed
          case Some(aasa) => Success(check.(parsed := Some(aasa)))
          case None => Success(check.(parseError := Some(true)))
  }

  /** `fetch_and_check` of the iOS report: a fresh check for one path, the fetch
      stage, then match collection. A failed fetch ends in `None` (it is printed and
      dropped); otherwise the check lists exactly the entries that accept the path. */
  method IosFetchAndCheck(url: Uris.Uri, path: string, ex: Exchange) returns (r: Option<AasaCheck>)
    ensures r.None? <==> ex.TransportFailed? || ex.status != 200 || ex.body.None?
    ensures r.Some? ==> r.value.url == url && r.value.pathsToCheck == [path] && r.value.matches.Some?
    ensures r.Some? ==> r.value.fileSize == Some(ex.body.value.length)
    ensures r.Some? ==> ex.body.value.parsed.None? ==> r.value.parseError == Some(true) && r.value.matches == Some([])
    ensures r.Some? ==> ex.body.value.parsed.Some? ==>
      r.value.matches == Some(MatchesOf(AasaValidation.MatchingAppIds(ex.body.value.parsed.value.applinks.details, path)))
    ensures r.Some? ==> ex.body.value.parsed.Some? ==>
      var details := ex.body.value.parsed.value.applinks.details;
      forall m :: m in r.value.matches.value <==>
        m.pattern == "" && exists i :: 0 <= i < |details| && details[i].appID == m.bundleId && AasaMatch(details[i], path)
  {
    var check := NewAasaCheck(url, [path]);
    match RecordFetch(check, ex)
    case Failure(_) =>
      r := None;
    case Success(fetched) =>
      var updated := CollectMatches(fetched);
      r := Some(updated);
      if ex.body.value.parsed.Some? {
        var details := ex.body.value.parsed.value.applinks.details;
        AllMatchesOnePath(details, path);
        forall m
          ensures m in updated.matches.value <==>
            m.pattern == "" && exists i :: 0 <= i < |details| && details[i].appID == m.bundleId && AasaMatch(details[i], path)
        {
          AllMatchesMembers(details, [path], m);
          if m.pattern == "" && Accepts(details, [path], m.bundleId) {
            var i, k :| 0 <= i < |details| && 0 <= k < 1 && details[i].appID == m.bundleId && AasaMatch(details[i], [path][k]);
            assert AasaMatch(details[i], path);
          }
          if exists i :: 0 <= i < |details| && details[i].appID == m.bundleId && AasaMatch(details[i], path) {
            var i :| 0 <= i < |details| && details[i].appID == m.bundleId && AasaMatch(details[i], path);
            assert AasaMatch(details[i], [path][0]);
          }
        }
      }
  }
}
