# ulverify core, modelled in Dafny

ulverify checks that a web domain and a mobile app declare each other for deep
linking: Apple Universal Links through an `apple-app-site-association` (AASA)
document, Android App Links through `assetlinks.json` and the app's manifest.
This project models the deciding logic of that tool as pure Dafny functions
and proves properties of it:

- **AASA path matching** (`AasaMatcher`): `regex_from_pattern`, `aasa_match_path`
  and `aasa_match`, which exist as two identical copies in `src/aasa.rs` and
  `src/ios/aasa.rs` and are modelled once. Also here: the AASA document
  locations `well_known_aasa_from_url` and `root_aasa_from_url`. The regex
  engine is replaced by a small token matcher (`CompileRegex`, `IsMatch`).
  That matcher is only used on the regexes the translation can produce, and it
  is proved to be exactly unanchored search.
- **The AASA fetch chain of `src/aasa.rs`** (`AasaValidation`): the
  first-failure classification into `AppError`, as a function of the HTTP
  exchange.
- **The iOS check record of `src/ios/aasa.rs`** (`IosAasa`): `AASACheck`, its
  Content-Type test, the fetch stage that fills the record in, and the nested
  loop that collects matches.
- **assetlinks** (`Assetlinks`): `CheckResult::get_problems`,
  `Problem::to_string_human`, `assetlinks_json_from_url` and
  `fetch_and_check`.
- **Entitlements blob location** (`Entitlements`):
  `find_codesign_magic_offset`, `find_codesign_plist` and the payload slice of
  `extract_entitlements_plist`. The blob is located by its 4-byte magic and a
  big-endian 32-bit length.
- **APK manifest walk** (`Apk`): the fold of `parse_manifest` over the decoded
  element stream, plus `get_string_attribute`, `get_intent_filter_auto_verify`,
  `IntentFilter::new` and `IntentFilterData::new`.

Supporting modules:

- `Wrappers`: `Option`, `Result`, and the subset types `u8`, `u16`, `u32`.
- `Text`: prefix and substring tests, and decimal rendering.
- `Uris`: a URI record, with the "https, same host, fixed path" builder shared
  by the three document-location functions.

A panic in the source (`unwrap` on an absent value, an out-of-range index) is
a precondition in the model. A recoverable failure is a `Result` or `Option`.

Behaviours of the code worth knowing, which the model keeps as they are:

- **Matching is unanchored.** `aasa_match_path` calls `Regex::is_match` on an
  expression with no `^` or `$`, so a pattern only has to match some slice of
  the path: `/foo/` also accepts `/a/foo/b` (`UnanchoredExample`,
  `LiteralPatternMatchesAnywhere`).
- **`aasa_match` returns a boolean**, not the matching pattern. A `NOT`
  pattern only makes its own call false. It never vetoes another pattern
  (`AasaMatchIgnoresNotPatterns`).
- **The `src/aasa.rs` check stops at the first failure** and reports a single
  `AppError`. The assetlinks `get_problems`, by contrast, lists every
  applicable problem.
- **App ids are never compared.** The code never compares an `appID` with a
  requested bundle id. It reports the full `appID` of each entry that accepts
  the path, and so does the model.

## Model

| member | source | states |
|---|---|---|
| AasaMatcher.RegexFromPatternConcat | src/aasa.rs:104-118 | the pattern is translated character by character: the regex of a concatenation is the concatenation of the regexes |
| AasaMatcher.RegexFromPlainPattern | src/ios/aasa.rs:138-152 | a pattern with no `*`, no `?` and no regex metacharacter translates to itself |
| AasaMatcher.RegexFromPatternExamples | src/ios/aasa.rs:154-159 | the three translations of the unit test: `/foo/`, `/foo/*` to `/foo/.*`, `/fo?/*` to `/fo./.*` |
| AasaMatcher.CompileRegexFromPattern | src/aasa.rs:103-118 | escaping is faithful: reading the generated regex back gives one token per pattern character (`*` any run, `?` any one character, anything else itself), so no pattern character becomes regex syntax |
| AasaMatcher.IsMatchSound | src/aasa.rs:42-43 | the matcher used for `Regex::is_match` accepts a path exactly when some slice of it matches the tokens in full |
| AasaMatcher.AasaMatchPathSpec | src/aasa.rs:39-51 | a `NOT ` pattern never accepts; any other pattern accepts exactly the paths with a slice that its token reading matches |
| AasaMatcher.LiteralPatternMatchesAnywhere | src/ios/aasa.rs:73-85 | a wildcard-free pattern without the `NOT ` prefix accepts a path if and only if the path contains the pattern somewhere |
| AasaMatcher.UnanchoredExample | src/aasa.rs:39-51 | `/foo/` accepts `/a/foo/b` |
| AasaMatcher.StarMatchesEveryPath | src/aasa.rs:53-57 | `*` accepts every path and `NOT *` accepts none, which generalises the unit test to all paths |
| AasaMatcher.AasaMatch | src/aasa.rs:127-134 | an entry accepts a path if and only if one of its patterns does |
| AasaMatcher.AasaMatchPermutationInvariant | src/ios/aasa.rs:161-168 | reordering an entry's patterns does not change whether it accepts a path |
| AasaMatcher.AasaMatchIgnoresNotPatterns | src/ios/aasa.rs:161-168 | deleting an entry's `NOT ` patterns does not change whether it accepts a path |
| AasaMatcher.WellKnownAasaFromUrl | src/ios/aasa.rs:93-101 | the result renders as `https://` + host + `/.well-known/apple-app-site-association`, with no port and no query |
| AasaMatcher.RootAasaFromUrl | src/ios/aasa.rs:103-111 | the result renders as `https://` + host + `/apple-app-site-association`, with no port and no query |
| AasaMatcher.AasaLocationsDifferOnlyInPath | src/aasa.rs:59-77 | the two AASA locations of one link differ in their path only |
| Uris.DocumentUriDependsOnlyOnHost | src/android/assetlinks.rs:54-62 | two links with the same host give the same document location, whatever their scheme, port, path or query |
| Uris.DocumentUriRendering | src/android/assetlinks.rs:54-62 | the document location renders as `https://` + host + path |
| Assetlinks.AssetlinksJsonFromUrl | src/android/assetlinks.rs:54-62 | the result renders as `https://` + host + `/.well-known/assetlinks.json`, with no port and no query |
| IosAasa.ContentTypeJson | src/ios/aasa.rs:47-53 | true if and only if a Content-Type was recorded and it is exactly `application/json` |
| IosAasa.ContentTypeWithParametersRejected | src/ios/aasa.rs:47-53 | a media type with parameters appended, such as a charset, is rejected |
| IosAasa.EntryMatchesMembers | src/ios/aasa.rs:234-241 | one entry contributes a match, carrying its full `appID` and an empty pattern, exactly when it accepts one of the paths |
| IosAasa.AllMatchesMembers | src/ios/aasa.rs:232-244 | a match is listed exactly when its pattern is empty and some entry with that `appID` accepts one of the paths |
| IosAasa.AllMatchesConcat | src/ios/aasa.rs:233-243 | matches come out in entry order: those of earlier entries precede those of later ones |
| IosAasa.CollectMatches | src/ios/aasa.rs:230-247 | only `matches` changes; it becomes the entry-by-entry list of matches, or empty when nothing was parsed |
| IosAasa.RecordFetch | src/ios/aasa.rs:182-227 | a transport failure or non-200 status is a failure with `ok_response` set to false; a failed body read is a failure carrying the recorded Content-Type; otherwise success records the Content-Type (when it is text), the size, and either the parsed document or `parse_error`; success never sets `ok_response` |
| IosAasa.IosFetchAndCheck | src/ios/aasa.rs:171-251 | the check fails if and only if the fetch failed; otherwise it records the size, and its matches are one `Match(appID, "")` per entry that accepts the path, in entry order (none when the document did not parse) |
| IosAasa.AllMatchesOnePath | src/ios/aasa.rs:233-241 | for a single path, the collected matches are exactly the ids that the `src/aasa.rs` chain collects (src/aasa.rs:188-192), in the same order, each as one `Match` with an empty pattern |
| AasaValidation.MatchingAppIdsMembers | src/aasa.rs:186-197 | an `appID` is listed if and only if some entry with that id accepts the path; the list is no longer than the entries and is empty exactly when no entry accepts |
| AasaValidation.MatchingAppIdsConcat | src/aasa.rs:187-192 | the ids are collected in document order |
| AasaValidation.FetchAndCheck | src/aasa.rs:145-197 | each `AppError` occurs exactly when its stage is the first to fail: not found (transport or status, or an unreadable body), Content-Type missing or wrong (carrying the header), too large (above 128,000 bytes, carrying the size), unparsable, no matching entry; success is the nonempty list of matching ids in document order |
| AasaValidation.SizeLimitIsInclusive | src/aasa.rs:174-179 | a body of exactly 128,000 bytes is not reported too large |
| Assetlinks.StatementsFor | src/android/assetlinks.rs:121-123 | exactly the statements whose target package is the app id |
| Assetlinks.WithHandleAllUrls | src/android/assetlinks.rs:127-130 | exactly the statements that carry the handle-all-URLs relation |
| Assetlinks.DeclaresAndDelegates | src/android/assetlinks.rs:120-135 | the filters are nonempty exactly when some statement targets the app, and when some statement both targets it and carries the relation |
| Assetlinks.StatusProblems | src/android/assetlinks.rs:102-106 | a wrong-status problem, carrying the code, if and only if a status other than 200 was recorded |
| Assetlinks.ContentTypeProblems | src/android/assetlinks.rs:108-114 | no-header if and only if no Content-Type was recorded; wrong-header, carrying the value, if and only if it is not exactly `application/json` |
| Assetlinks.ContentProblems | src/android/assetlinks.rs:116-135 | invalid format if and only if content was read but not parsed; app id missing if and only if no parsed statement targets the app; relation missing if and only if statements target it but none delegates |
| Assetlinks.GetProblems | src/android/assetlinks.rs:100-138 | every applicable problem is listed, each exactly under its condition; the robots.txt problem never is |
| Assetlinks.GetProblemsOrdered | src/android/assetlinks.rs:100-138 | problems come in the order status, Content-Type, content, with at most one of each, so at most three |
| Assetlinks.StatusMessageMentionsRedirects | src/android/assetlinks.rs:35-38 | the status message mentions that redirects are not allowed if and only if the code is 301 or 302 |
| Assetlinks.ToHumanQuotes | src/android/assetlinks.rs:32-50 | the status message quotes the code in decimal; the Content-Type message quotes the header as received |
| Text.DecimalRoundTrip | src/android/assetlinks.rs:36-38 | the decimal rendering of a status code reads back as that code |
| Assetlinks.FetchAndCheckAsWritten | src/android/assetlinks.rs:166-189 | as written: a successful result that holds content always holds a parsed document; a 200 response whose body does not parse ends in the parse error |
| Assetlinks.AsWrittenNeverReportsInvalidFileFormat | src/android/assetlinks.rs:183-184 | as written, no fetched result ever yields the invalid-format problem |
| Assetlinks.FetchAndCheck | src/android/assetlinks.rs:166-189 | corrected: it fails only when the request or the body read fails; otherwise it records status, Content-Type, and for a 200 the content and its parse outcome |
| Assetlinks.FetchAndCheckReportsInvalidFileFormat | src/android/assetlinks.rs:116-118 | with the correction, a read 200 body yields invalid-format if and only if it did not parse; wherever the as-written version succeeds, both agree |
| Entitlements.FirstMagic | src/ios/entitlements.rs:64-71 | the offset of the first occurrence of `fa de 71 71`, or none exactly when the magic does not occur |
| Entitlements.FindCodesignMagicOffset | src/ios/entitlements.rs:64-71 | the window scan finds the first occurrence of the magic, and none when there is none |
| Entitlements.DecodeEncode | src/ios/entitlements.rs:49-55 | decoding the big-endian encoding of a 32-bit length gives that length |
| Entitlements.EncodeDecode | src/ios/entitlements.rs:49-55 | encoding the decoded value of four bytes gives those bytes back |
| Entitlements.FindCodesignPlist | src/ios/entitlements.rs:46-60 | none exactly when there is no magic; otherwise the offset is 8 past the first magic, and the length is the big-endian value of the 4 bytes after it |
| Entitlements.EntitlementsPayload | src/ios/entitlements.rs:25-32 | none exactly when there is no magic; otherwise the payload is the bytes from 8 past the first magic up to `length` bytes past it |
| Entitlements.PayloadOfBlob | src/ios/entitlements.rs:28-32 | a blob (magic, total length, payload) placed after bytes holding no magic gives back exactly its payload, whatever follows |
| Apk.NewIntentFilterData | src/android/apk.rs:20-31 | a fresh data record has every field absent |
| Apk.GetStringAttribute | src/android/apk.rs:126-145 | none if and only if no attribute has the name; otherwise the text of the first such attribute: a package reference resolved to its human name, another plain reference rendered, other reference kinds empty, any other value rendered |
| Apk.GetIntentFilterAutoVerify | src/android/apk.rs:147-159 | true if and only if the first `autoVerify` attribute holding a boolean holds true; `autoVerify` attributes of other types are skipped |
| Apk.Step | src/android/apk.rs:89-120 | an `<activity>` start sets the activity to that element and changes nothing else; only an `<activity>` start changes the activity; only an `<intent-filter>` start, or an `<action>` or `<category>` start while a filter is open, changes the filter; element ends and other events change nothing |
| Apk.FoldTracksLastActivity | src/android/apk.rs:89-99 | after any stretch of the stream, the walk's activity is the element of the last `<activity>` start in it, or the one before the stretch when there is none |
| Apk.FoldConcat | src/android/apk.rs:89-121 | walking two stretches of the stream in turn is walking their concatenation, and one can run without a panic exactly when both can |
| Apk.OpeningAFilter | src/android/apk.rs:94-99 | an `<intent-filter>` start replaces the filter with a fresh one (activity name, its auto-verify flag, no action, no category, no data) when the activity has a name, and otherwise changes nothing |
| Apk.NamesAppendToOpenFilter | src/android/apk.rs:100-112 | while a filter is open and no new one opens, exactly the names of `<action>` and `<category>` starts are appended to it, in stream order |
| Apk.NothingOpenWithoutFilterStart | src/android/apk.rs:100-112 | with no filter open and none opening, `<action>` and `<category>` elements are dropped and no filter exists afterwards |
| Apk.ParseManifest | src/android/apk.rs:73-124 | a missing manifest is a not-found error and an unreadable one a read error; otherwise the result is the empty list, since `<data>` is never collected |

## Left out

- HTTP, futures and the clients (hyper, reqwest): what a request delivers is
  an input. It is `Response` for `src/aasa.rs`, `Exchange` for
  `src/ios/aasa.rs` and `Fetched` for assetlinks: status, Content-Type, body
  length or bytes, and the parse outcome.
- JSON decoding (serde): the decoded document, or its absence, is an input.
- The regex crate: only the fragment of regex syntax `regex_from_pattern`
  emits is modelled, with `.` excluding newline as in the crate's default mode.
  The `Regex::new` error branch of `aasa_match_path` is not modelled. With
  every metacharacter escaped, the only way to reach it is the crate's size
  limit on very long patterns.
- `HeaderValue::to_str` is modelled as "visible ASCII or tab". A header is a
  string with one character per byte.
- Printing: the `map_err` messages of `src/aasa.rs`, the element-end echo in
  `parse_manifest`, and the plist dump in `extract_entitlements_plist`.
- Mach-O parsing and plist decoding in `extract_entitlements_plist`: the
  code-signature bytes are the input of `EntitlementsPayload`.
- APK access (`Apk::open`, `check_apk`, `file_by_name`, reading the entry, and
  `get_resources().unwrap()`): the manifest is a `ManifestSource`, and the
  resource table is assumed present. The decoder's `is_reference_type`,
  `to_string`, `is_package_reference` and `get_human_reference` are function
  fields of `ApkLibrary`.
- The APK `Problem` and `CheckResult` types: nothing in the source uses them.
- The `TypedValue` variants beyond references, strings, integers and booleans
  (floats, dimensions, colours): they reach the code only through
  `to_string` and `is_reference_type`, which are function fields of
  `ApkLibrary`. Which variants count as references is left to that field.
- `Uri` parsing and validation: a URI is a record, and rendering covers
  scheme, authority and path.
- The command line (src/main.rs) and the iOS report text (src/ios/report.rs).
  Android intent-filter and path matching are not part of this model. None
  of the modelled source files contains code for them, and `parse_manifest`
  never collects `<data>` (src/android/apk.rs:106).
- Apk.ParseManifest: the fold's final state is computed but, as in the source,
  never returned. The intent filters it builds are stated by `Step`,
  `OpeningAFilter` and `NamesAppendToOpenFilter`.
- AasaValidation.FetchAndCheck and IosAasa.RecordFetch: the body size is
  `usize` in the source and an unbounded `nat` here. Bodies large enough to
  differ cannot be held in memory.

## Findings

| source | as written | input that shows it | evidently intended | confidence | as-written member | corrected member |
|---|---|---|---|---|---|---|
| src/android/assetlinks.rs:183-184 | the `?` after `serde_json::from_slice` returns the parse error, and the check result built so far is dropped | a 200 response whose body is readable but is not a JSON array of statements | record the content with `content_parsed` left empty, so that the invalid-format branch of `get_problems` (lines 116-118) reports it; as written that branch is unreachable from `fetch_and_check` | medium, not executed | Assetlinks.FetchAndCheckAsWritten, Assetlinks.AsWrittenNeverReportsInvalidFileFormat | Assetlinks.FetchAndCheck, Assetlinks.FetchAndCheckReportsInvalidFileFormat |
