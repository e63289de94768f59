/** Apple app-site-association path patterns: the matcher that exists as two identical
    copies, in src/aasa.rs and in src/ios/aasa.rs.

    A pattern is turned into a regular expression by `regex_from_pattern`
    (`*` becomes `.*`, `?` becomes `.`, every regex metacharacter is escaped),
    and the expression is run UNANCHORED against the path: `/foo/` also accepts
    `/a/foo/b`. A pattern starting with `NOT ` is matched without that prefix and can
    only ever yield false. */
module AasaMatcher {
  import opened Wrappers
  import opened Text
  import Uris

  datatype AppLinkDetail = AppLinkDetail(appID: string, paths: seq<string>)
  datatype AppLinks = AppLinks(apps: seq<string>, details: seq<AppLinkDetail>)
  datatype AppleAppSiteAssociation = AppleAppSiteAssociation(applinks: AppLinks)

  const NotPrefix: string := "NOT "

  /** The metacharacters of the regex-syntax crate (`is_meta_character`). */
  predicate IsMetaCharacter(c: char)
  {
    c in {'\\', '.', '+', '*', '?', '(', ')', '|', '[', ']', '{', '}', '^', '$', '#', '&', '-', '~'}
  }

  /** The regex text emitted for one pattern character. */
  function Escape(c: char): string
  {
    if c == '*' then ".*"
    else if c == '?' then "."
    else if IsMetaCharacter(c) then ['\\', c]
    else [c]
  }

  /** `regex_from_pattern`: the pattern translated character by character. */
  function RegexFromPattern(pattern: string): string
    decreases |pattern|
  {
    if |pattern| == 0 then "" else Escape(pattern[0]) + RegexFromPattern(pattern[1..])
  }

  /** The translation distributes over concatenation of patterns. */
  lemma {:induction false} RegexFromPatternConcat(a: string, b: string)
    ensures RegexFromPattern(a + b) == RegexFromPattern(a) + RegexFromPattern(b)
    decreases |a|
  {
    if |a| == 0 {
      assert a + b == b;
    } else {
      assert (a + b)[0] == a[0];
      assert (a + b)[1..] == a[1..] + b;
      RegexFromPatternConcat(a[1..], b);
    }
  }

  predicate IsPlain(c: char)
  {
    c != '*' && c != '?' && !IsMetaCharacter(c)
  }

  /** A pattern with no wildcard and no metacharacter is its own regex. */
  lemma {:induction false} RegexFromPlainPattern(pattern: string)
    requires forall k :: 0 <= k < |pattern| ==> IsPlain(pattern[k])
    ensures RegexFromPattern(pattern) == pattern
    decreases |pattern|
  {
    if |pattern| > 0 {
      RegexFromPlainPattern(pattern[1..]);
      assert pattern == [pattern[0]] + pattern[1..];
    }
  }

  lemma PlainPatternsOfRegexTests()
    ensures RegexFromPattern("/foo/") == "/foo/"
    ensures RegexFromPattern("/fo") == "/fo"
  {
    assert IsPlain('/') && IsPlain('f') && IsPlain('o');
    RegexFromPlainPattern("/foo/");
    RegexFromPlainPattern("/fo");
  }

  lemma RegexFromSingleCharacter(c: char)
    ensures RegexFromPattern([c]) == Escape(c)
  {
    assert [c][1..] == "";
  }

  /** The translations pinned down by the unit tests of `regex_from_pattern`. */
  lemma RegexFromPatternExamples()
    ensures RegexFromPattern("/foo/") == "/foo/"
    ensures RegexFromPattern("/foo/*") == "/foo/.*"
    ensures RegexFromPattern("/fo?/*") == "/fo./.*"
  {
    PlainPatternsOfRegexTests();
    RegexFromSingleCharacter('*');
    RegexFromSingleCharacter('?');
    RegexFromSingleCharacter('/');
    assert IsPlain('/');
    assert "/foo/*" == "/foo/" + "*";
    RegexFromPatternConcat("/foo/", "*");
    assert "/fo?/*" == "/fo" + "?" + "/" + "*";
    RegexFromPatternConcat("/fo", "?");
    RegexFromPatternConcat("/fo" + "?", "/");
    RegexFromPatternConcat("/fo" + "?" + "/", "*");
  }

  /** What a compiled pattern is made of. */
  datatype Token = Lit(c: char) | AnyOne | AnyRun

  function TokenOf(c: char): Token
  {
    if c == '*' then AnyRun else if c == '?' then AnyOne else Lit(c)
  }

  /** The reference reading of a pattern: one token per character. */
  function Tokens(pattern: string): (r: seq<Token>)
    ensures |r| == |pattern|
  {
    seq(|pattern|, k requires 0 <= k < |pattern| => TokenOf(pattern[k]))
  }

  /** `Regex::new` restricted to the expressions `RegexFromPattern` emits: `\c` is the
      literal `c`, `.*` is a run, `.` is one character, anything else is itself. */
  function CompileRegex(re: string): seq<Token>
    decreases |re|
  {
    if |re| == 0 then []
    else if re[0] == '\\' && |re| >= 2 then [Lit(re[1])] + CompileRegex(re[2..])
    else if re[0] == '.' && |re| >= 2 && re[1] == '*' then [AnyRun] + CompileRegex(re[2..])
    else if re[0] == '.' then [AnyOne] + CompileRegex(re[1..])
    else [Lit(re[0])] + CompileRegex(re[1..])
  }

  lemma RegexDoesNotStartWithStar(pattern: string)
    requires |RegexFromPattern(pattern)| > 0
    ensures RegexFromPattern(pattern)[0] != '*'
  {
    assert RegexFromPattern(pattern)[0] == Escape(pattern[0])[0];
  }

  /** The escaping is faithful: compiling the generated regex gives back exactly
      the per-character reading of the pattern, so no pattern character is ever
      taken for regex syntax. */
  lemma {:induction false} CompileRegexFromPattern(pattern: string)
    ensures CompileRegex(RegexFromPattern(pattern)) == Tokens(pattern)
    decreases |pattern|
  {
    if |pattern| > 0 {
      var c := pattern[0];
      var rest := RegexFromPattern(pattern[1..]);
      CompileRegexFromPattern(pattern[1..]);
      if |rest| > 0 {
        RegexDoesNotStartWithStar(pattern[1..]);
      }
      var re := Escape(c) + rest;
      assert RegexFromPattern(pattern) == re;
      if c == '*' {
        assert re[2..] == rest;
      } else if c == '?' {
        assert re[1..] == rest;
      } else if IsMetaCharacter(c) {
        assert re[2..] == rest;
      } else {
        assert re[1..] == rest;
      }
      assert CompileRegex(re) == [TokenOf(c)] + Tokens(pattern[1..]);
      assert Tokens(pattern) == [TokenOf(c)] + Tokens(pattern[1..]);
    }
  }

  /** `.` in the regex crate's default mode: any character but a newline. */
  predicate AnyCharMatches(c: char)
  {
    c != '\n'
  }

  /** The tokens match the whole of `s`. */
  predicate FullMatch(ts: seq<Token>, s: string)
    decreases |ts| + |s|
  {
    if |ts| == 0 then |s| == 0
    else match ts[0]
      case Lit(c) => |s| > 0 && s[0] == c && FullMatch(ts[1..], s[1..])
      case AnyOne => |s| > 0 && AnyCharMatches(s[0]) && FullMatch(ts[1..], s[1..])
      case AnyRun => FullMatch(ts[1..], s) || (|s| > 0 && AnyCharMatches(s[0]) && FullMatch(ts, s[1..]))
  }

  /** Unanchored matching, as `Regex::is_match` does it: some slice of the path matches. */
  ghost predicate Unanchored(ts: seq<Token>, path: string)
  {
    exists i, j :: 0 <= i <= j <= |path| && FullMatch(ts, path[i..j])
  }

  /** The tokens match some prefix of `s`. */
  predicate PrefixMatch(ts: seq<Token>, s: string)
    decreases |ts| + |s|
  {
    if |ts| == 0 then true
    else match ts[0]
      case Lit(c) => |s| > 0 && s[0] == c && PrefixMatch(ts[1..], s[1..])
      case AnyOne => |s| > 0 && AnyCharMatches(s[0]) && PrefixMatch(ts[1..], s[1..])
      case AnyRun => PrefixMatch(ts[1..], s) || (|s| > 0 && AnyCharMatches(s[0]) && PrefixMatch(ts, s[1..]))
  }

  /** The tokens match a slice of `path` starting at `i` or later. */
  predicate MatchesFrom(ts: seq<Token>, path: string, i: nat)
    requires i <= |path|
    decreases |path| - i
  {
    PrefixMatch(ts, path[i..]) || (i < |path| && MatchesFrom(ts, path, i + 1))
  }

  /** `Regex::is_match` over the compiled tokens. */
  predicate IsMatch(ts: seq<Token>, path: string)
  {
    MatchesFrom(ts, path, 0)
  }

  lemma {:induction false} PrefixMatchSound(ts: seq<Token>, s: string)
    ensures PrefixMatch(ts, s) <==> exists j :: 0 <= j <= |s| && FullMatch(ts, s[..j])
    decreases |ts| + |s|
  {
    if |ts| == 0 {
      assert FullMatch(ts, s[..0]);
    } else {
      if |s| > 0 {
        forall j | 1 <= j <= |s|
          ensures s[..j][0] == s[0] && s[..j][1..] == s[1..][..j - 1]
        {
        }
      }
      match ts[0] {
        case AnyRun =>
          PrefixMatchSound(ts[1..], s);
          if |s| > 0 {
            PrefixMatchSound(ts, s[1..]);
          }
          if PrefixMatch(ts, s) {
            if !PrefixMatch(ts[1..], s) {
              var j' :| 0 <= j' <= |s[1..]| && FullMatch(ts, s[1..][..j']);
              assert FullMatch(ts, s[..j' + 1]);
            }
          }
          if exists j :: 0 <= j <= |s| && FullMatch(ts, s[..j]) {
            var j :| 0 <= j <= |s| && FullMatch(ts, s[..j]);
            if !FullMatch(ts[1..], s[..j]) {
              assert FullMatch(ts, s[1..][..j - 1]);
            }
          }
        case _ =>
          if |s| > 0 {
            PrefixMatchSound(ts[1..], s[1..]);
            if PrefixMatch(ts, s) {
              var j' :| 0 <= j' <= |s[1..]| && FullMatch(ts[1..], s[1..][..j']);
              assert FullMatch(ts, s[..j' + 1]);
            }
            if exists j :: 0 <= j <= |s| && FullMatch(ts, s[..j]) {
              var j :| 0 <= j <= |s| && FullMatch(ts, s[..j]);
              assert FullMatch(ts[1..], s[1..][..j - 1]);
            }
          }
      }
    }
  }

  lemma {:induction false} MatchesFromSound(ts: seq<Token>, path: string, i: nat)
    requires i <= |path|
    ensures MatchesFrom(ts, path, i) <==> exists k, j :: i <= k <= j <= |path| && FullMatch(ts, path[k..j])
    decreases |path| - i
  {
    PrefixMatchSound(ts, path[i..]);
    forall j | 0 <= j <= |path| - i
      ensures path[i..][..j] == path[i..i + j]
    {
    }
    if i < |path| {
      MatchesFromSound(ts, path, i + 1);
    }
    if MatchesFrom(ts, path, i) && PrefixMatch(ts, path[i..]) {
      var j :| 0 <= j <= |path[i..]| && FullMatch(ts, path[i..][..j]);
      assert FullMatch(ts, path[i..i + j]);
    }
    if exists k, j :: i <= k <= j <= |path| && FullMatch(ts, path[k..j]) {
      var k, j :| i <= k <= j <= |path| && FullMatch(ts, path[k..j]);
      if k == i {
        assert FullMatch(ts, path[i..][..j - i]);
      }
    }
  }

  /** `is_match` is exactly unanchored matching. */
  lemma IsMatchSound(ts: seq<Token>, path: string)
    ensures IsMatch(ts, path) <==> Unanchored(ts, path)
  {
    MatchesFromSound(ts, path, 0);
  }

  /** `aasa_match_path`: strip a `NOT ` prefix, compile the rest, run it unanchored;
      a match of a NOT pattern still yields false. Since every metacharacter is
      escaped, compilation fails only on the regex crate's size limit, which is not
      modelled. */
  function AasaMatchPath(pattern: string, path: string): bool
  {
    var not := StartsWith(pattern, NotPrefix);
    var pat := if not then pattern[|NotPrefix|..] else pattern;
    if IsMatch(CompileRegex(RegexFromPattern(pat)), path) then
      if not then false else true
    else
      false
  }

  /** A NOT pattern never accepts a path; any other pattern accepts exactly the paths
      with a slice that its per-character reading matches. */
  lemma AasaMatchPathSpec(pattern: string, path: string)
    ensures StartsWith(pattern, NotPrefix) ==> !AasaMatchPath(pattern, path)
    ensures !StartsWith(pattern, NotPrefix) ==> (AasaMatchPath(pattern, path) <==> Unanchored(Tokens(pattern), path))
  {
    CompileRegexFromPattern(pattern);
    IsMatchSound(Tokens(pattern), path);
  }

  /** Tokens of a wildcard-free pattern match exactly the pattern text. */
  lemma {:induction false} LiteralTokensMatchExactly(pattern: string, s: string)
    requires forall k :: 0 <= k < |pattern| ==> pattern[k] != '*' && pattern[k] != '?'
    ensures FullMatch(Tokens(pattern), s) <==> s == pattern
    decreases |pattern|
  {
    var ts := Tokens(pattern);
    if |pattern| > 0 {
      assert ts[0] == Lit(pattern[0]);
      assert ts[1..] == Tokens(pattern[1..]);
      if |s| > 0 {
        LiteralTokensMatchExactly(pattern[1..], s[1..]);
        if s[0] == pattern[0] && s[1..] == pattern[1..] {
          assert s == [s[0]] + s[1..] && pattern == [pattern[0]] + pattern[1..];
        }
      }
    }
  }

  /** Because matching is unanchored, a wildcard-free pattern accepts every path
      that merely contains it. */
  lemma LiteralPatternMatchesAnywhere(pattern: string, path: string)
    requires !StartsWith(pattern, NotPrefix)
    requires forall k :: 0 <= k < |pattern| ==> pattern[k] != '*' && pattern[k] != '?'
    ensures AasaMatchPath(pattern, path) <==> Contains(path, pattern)
  {
    AasaMatchPathSpec(pattern, path);
    if AasaMatchPath(pattern, path) {
      var i, j :| 0 <= i <= j <= |path| && FullMatch(Tokens(pattern), path[i..j]);
      LiteralTokensMatchExactly(pattern, path[i..j]);
      assert OccursAt(path, pattern, i);
    }
    if Contains(path, pattern) {
      var i :| OccursAt(path, pattern, i);
      LiteralTokensMatchExactly(pattern, path[i..i + |pattern|]);
    }
  }

  /** `/foo/` accepts `/a/foo/b`. */
  lemma UnanchoredExample()
    ensures AasaMatchPath("/foo/", "/a/foo/b")
  {
    assert "/foo/"[..|NotPrefix|][0] == '/';
    ContainsPart("/a/foo/b", "/a", "/foo/", "b");
    LiteralPatternMatchesAnywhere("/foo/", "/a/foo/b");
  }

  /** `*` accepts every path, while `NOT *` accepts none. */
  lemma StarMatchesEveryPath(path: string)
    ensures AasaMatchPath("*", path)
    ensures !AasaMatchPath("NOT *", path)
  {
    AasaMatchPathSpec("*", path);
    AasaMatchPathSpec("NOT *", path);
    assert Tokens("*") == [AnyRun];
    assert FullMatch([AnyRun], path[0..0]);
  }

  /** `aasa_match`: some pattern of the entry accepts the path. */
  function AasaMatch(app: AppLinkDetail, path: string): (r: bool)
    ensures r <==> exists k :: 0 <= k < |app.paths| && AasaMatchPath(app.paths[k], path)
  {
    AnyPatternMatches(app.paths, path)
  }

  function AnyPatternMatches(patterns: seq<string>, path: string): (r: bool)
    ensures r <==> exists k :: 0 <= k < |patterns| && AasaMatchPath(patterns[k], path)
    decreases |patterns|
  {
    if |patterns| == 0 then false
    else if AasaMatchPath(patterns[0], path) then true
    else AnyPatternMatches(patterns[1..], path)
  }

  /** The order of an entry's patterns does not matter. */
  lemma AasaMatchPermutationInvariant(a: AppLinkDetail, b: AppLinkDetail, path: string)
    requires multiset(a.paths) == multiset(b.paths)
    ensures AasaMatch(a, path) == AasaMatch(b, path)
  {
    if AasaMatch(a, path) {
      var k :| 0 <= k < |a.paths| && AasaMatchPath(a.paths[k], path);
      assert a.paths[k] in multiset(b.paths);
    }
    if AasaMatch(b, path) {
      var k :| 0 <= k < |b.paths| && AasaMatchPath(b.paths[k], path);
      assert b.paths[k] in multiset(a.paths);
    }
  }

  function WithoutNotPatterns(patterns: seq<string>): (r: seq<string>)
    ensures forall p :: p in r <==> p in patterns && !StartsWith(p, NotPrefix)
  {
    if |patterns| == 0 then []
    else
      var head := if StartsWith(patterns[0], NotPrefix) then [] else [patterns[0]];
      head + WithoutNotPatterns(patterns[1..])
  }

  /** NOT patterns never exclude anything: removing them leaves the outcome unchanged. */
  lemma AasaMatchIgnoresNotPatterns(app: AppLinkDetail, path: string)
    ensures AasaMatch(app, path) == AasaMatch(app.(paths := WithoutNotPatterns(app.paths)), path)
  {
    var filtered := WithoutNotPatterns(app.paths);
    if AasaMatch(app, path) {
      var k :| 0 <= k < |app.paths| && AasaMatchPath(app.paths[k], path);
      AasaMatchPathSpec(app.paths[k], path);
      assert app.paths[k] in filtered;
    }
    if AasaMatch(app.(paths := filtered), path) {
      var k :| 0 <= k < |filtered| && AasaMatchPath(filtered[k], path);
      assert filtered[k] in app.paths;
    }
  }

  const WellKnownAasaPath: string := "/.well-known/apple-app-site-association"
  const RootAasaPath: string := "/apple-app-site-association"

  /** `well_known_aasa_from_url` */
  function WellKnownAasaFromUrl(uri: Uris.Uri): (r: Uris.Uri)
    requires Uris.HasHost(uri)
    ensures Uris.ToString(r) == "https://" + Uris.Host(uri) + WellKnownAasaPath
    ensures r.authority.Some? && r.authority.value.port.None? && r.query.None?
  {
    Uris.DocumentUriRendering(uri, WellKnownAasaPath);
    Uris.DocumentUri(uri, WellKnownAasaPath)
  }

  /** `root_aasa_from_url` */
  function RootAasaFromUrl(uri: Uris.Uri): (r: Uris.Uri)
    requires Uris.HasHost(uri)
    ensures Uris.ToString(r) == "https://" + Uris.Host(uri) + RootAasaPath
    ensures r.authority.Some? && r.authority.value.port.None? && r.query.None?
  {
    Uris.DocumentUriRendering(uri, RootAasaPath);
    Uris.DocumentUri(uri, RootAasaPath)
  }

  /** The two locations differ only in their path. */
  lemma AasaLocationsDifferOnlyInPath(uri: Uris.Uri)
    requires Uris.HasHost(uri)
    ensures WellKnownAasaFromUrl(uri).(path := RootAasaPath) == RootAasaFromUrl(uri)
  {
  }
}
