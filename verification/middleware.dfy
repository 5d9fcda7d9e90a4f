/**
 The page middleware: public paths pass, other paths need a non-empty
 `pb_auth` cookie or are redirected to the login page; and the matcher
 pattern that decides which paths reach the middleware at all.
 */
module Middleware {
  import opened Wrappers
  import Text

  const LoginPath := "/login"
  const PublicRoutes: seq<string> := [LoginPath, "/about"]

  datatype Decision = Next | Redirect(target: string)

  /** `middleware(request)`: an exact public path passes; otherwise the cookie must be non-empty. */
  function Decide(pathname: string, pbAuth: Option<string>): (d: Decision)
    ensures pathname in PublicRoutes ==> d == Next
    ensures pathname !in PublicRoutes && (pbAuth.None? || pbAuth == Some("")) ==> d == Redirect(LoginPath)
    ensures pathname !in PublicRoutes && pbAuth.Some? && pbAuth != Some("") ==> d == Next
  {
    if pathname in PublicRoutes then Next
    else if pbAuth.None? || pbAuth.value == "" then Redirect(LoginPath)
    else Next
  }

  /** Every redirect goes to the login page, which itself always passes: no redirect loop. */
  lemma RedirectTargetPasses(pathname: string, pbAuth: Option<string>, next: Option<string>)
    ensures Decide(pathname, pbAuth).Redirect? ==> Decide(Decide(pathname, pbAuth).target, next) == Next
  {
  }

  /** The match is exact: a path below a public one is not public. */
  lemma PublicIsExact(pbAuth: Option<string>)
    requires pbAuth.None? || pbAuth == Some("")
    ensures Decide("/login/settings", pbAuth) == Redirect(LoginPath)
    ensures Decide("/about/", pbAuth) == Redirect(LoginPath)
  {
    assert "/login/settings" != LoginPath && "/about/" != "/about" by {
      assert |"/login/settings"| != |LoginPath|;
      assert |"/about/"| != |"/about"|;
    }
  }

  /** The token's value is not inspected: any two non-empty cookies decide alike. */
  lemma TokenNotValidated(pathname: string, t1: string, t2: string)
    requires t1 != "" && t2 != ""
    ensures Decide(pathname, Some(t1)) == Decide(pathname, Some(t2)) == Next
  {
  }

  /** Characters that `.` in a JavaScript regular expression does not match. */
  predicate IsLineTerminator(c: char) {
    c == '\n' || c == '\r' || c == '\U{2028}' || c == '\U{2029}'
  }

  /** `s` starts with `pattern`, where `.` in the pattern stands for any character but a line terminator. */
  predicate StartsWithPattern(s: string, pattern: string) {
    && |pattern| <= |s|
    && forall i :: 0 <= i < |pattern| ==>
         if pattern[i] == '.' then !IsLineTerminator(s[i]) else s[i] == pattern[i]
  }

  /** The alternatives of the negative lookahead `(?!api|_next/static|_next/image|favicon.ico)`. */
  const ExcludedPatterns: seq<string> := ["api", "_next/static", "_next/image", "favicon.ico"]

  predicate Excluded(rest: string) {
    exists k :: 0 <= k < |ExcludedPatterns| && StartsWithPattern(rest, ExcludedPatterns[k])
  }

  /**
   `'/((?!api|_next/static|_next/image|favicon.ico).*)'` matching a whole
   path: a leading "/", then a rest that starts with none of the excluded
   alternatives and that `.*` can consume, i.e. holds no line terminator.
   */
  predicate MatcherApplies(path: string): (b: bool)
    ensures b ==> |path| > 0 && path[0] == '/'
    ensures b ==> forall k :: 0 <= k < |SkippedPrefixes| ==> !Text.StartsWith(path, SkippedPrefixes[k])
  {
    if && |path| > 0 && path[0] == '/'
       && !Excluded(path[1..])
       && forall i :: 1 <= i < |path| ==> !IsLineTerminator(path[i])
    then
      assert forall k :: 0 <= k < |SkippedPrefixes| ==> !Text.StartsWith(path, SkippedPrefixes[k]) by {
        forall k | 0 <= k < |SkippedPrefixes| && Text.StartsWith(path, SkippedPrefixes[k])
          ensures false
        {
          PrefixMatchesPattern(path, k);
        }
      }
      true
    else
      false
  }

  /** The path prefixes the matcher's comment lists: the excluded alternatives written literally. */
  const SkippedPrefixes: seq<string> := ["/api", "/_next/static", "/_next/image", "/favicon.ico"]

  /** A path with a literal skipped prefix has a rest that starts with the matching alternative. */
  lemma PrefixMatchesPattern(path: string, k: nat)
    requires k < |SkippedPrefixes| && Text.StartsWith(path, SkippedPrefixes[k])
    ensures Excluded(path[1..])
  {
    var pre := SkippedPrefixes[k];
    assert |pre| == |ExcludedPatterns[k]| + 1;
    forall i | 0 <= i < |ExcludedPatterns[k]|
      ensures path[1..][i] == pre[i + 1]
    {
      assert path[..|pre|][i + 1] == pre[i + 1];
    }
    assert forall i :: 0 <= i < |ExcludedPatterns[k]| ==> pre[i + 1] == ExcludedPatterns[k][i];
    assert StartsWithPattern(path[1..], ExcludedPatterns[k]);
  }

  /** Everything under "/api" (also "/apiary") is skipped, whatever follows. */
  lemma ApiPathsSkipped(rest: string)
    ensures !MatcherApplies("/api" + rest)
  {
    var p := "/api" + rest;
    assert p[1..] == "api" + rest;
    assert StartsWithPattern(p[1..], ExcludedPatterns[0]);
  }

  /** The dot of "favicon.ico" is a wildcard, so "/faviconXico" is skipped too. */
  lemma FaviconDotIsWildcard()
    ensures !MatcherApplies("/faviconXico")
  {
    var p := "/faviconXico";
    assert StartsWithPattern(p[1..], ExcludedPatterns[3]);
  }

  /** Pages such as the dashboard and the login page do reach the middleware. */
  lemma PagesMatched()
    ensures MatcherApplies("/dashboard")
    ensures MatcherApplies(LoginPath)
  {
    var d := "/dashboard";
    forall k | 0 <= k < |ExcludedPatterns|
      ensures !StartsWithPattern(d[1..], ExcludedPatterns[k])
    {
      assert d[1..][0] == 'd';
    }
    var l := LoginPath;
    forall k | 0 <= k < |ExcludedPatterns|
      ensures !StartsWithPattern(l[1..], ExcludedPatterns[k])
    {
      assert l[1..][0] == 'l';
    }
  }
}
