/** The command-line front end: which kind of input an argument names, and
    the Markdown file name derived from a problem URL. */
module Cli {
  import opened Strings

  /** Python's `s.rstrip('/')`. */
  function RStripSlash(s: string): (r: string)
    ensures r <= s
    ensures r == [] || r[|r| - 1] != '/'
    ensures forall i :: |r| <= i < |s| ==> s[i] == '/'
  {
    if s != [] && s[|s| - 1] == '/' then RStripSlash(s[..|s| - 1]) else s
  }

  /** Python's `s.rsplit('/', 1)[-1]`: everything after the last `/`, or all
      of `s` when it has none. */
  function LastSegment(s: string): (r: string)
    ensures '/' !in r
    ensures EndsWith(s, r)
    ensures |r| == |s| || s[|s| - |r| - 1] == '/'
  {
    if s == [] || s[|s| - 1] == '/' then []
    else LastSegment(s[..|s| - 1]) + [s[|s| - 1]]
  }

  /** `_default_output_from_url(url)`: the last path segment of the URL
      without trailing slashes, `problem` when that is empty, with `.md`
      appended unless it already ends in `.md`. */
  function DefaultOutputFromUrl(url: string): (r: string)
    ensures EndsWith(r, ".md")
    ensures '/' !in r
  {
    var tail := LastSegment(RStripSlash(url));
    var name := if tail == [] then "problem" else tail;
    if EndsWith(name, ".md") then name else name + ".md"
  }

  /** A URL made only of slashes (or empty) has no segment to name the file. */
  lemma DefaultOutputAllSlashes(url: string)
    requires forall i :: 0 <= i < |url| ==> url[i] == '/'
    ensures DefaultOutputFromUrl(url) == "problem.md"
  {
    AllSlashesStripToEmpty(url);
    assert LastSegment([]) == [];
    assert !EndsWith("problem", ".md");
  }

  lemma {:induction false} AllSlashesStripToEmpty(s: string)
    requires forall i :: 0 <= i < |s| ==> s[i] == '/'
    ensures RStripSlash(s) == []
  {
    if s != [] {
      AllSlashesStripToEmpty(s[..|s| - 1]);
    }
  }

  /** When the name comes from the URL, it is the URL's last segment (past
      trailing slashes), with `.md` added only if it was not already there. */
  lemma DefaultOutputFromSegment(url: string)
    requires exists i :: 0 <= i < |url| && url[i] != '/'
    ensures var t := LastSegment(RStripSlash(url));
      t != [] && (if EndsWith(t, ".md") then DefaultOutputFromUrl(url) == t
                  else DefaultOutputFromUrl(url) == t + ".md")
  {
    var i :| 0 <= i < |url| && url[i] != '/';
    var s := RStripSlash(url);
    assert i < |s|;
    assert s[|s| - 1] != '/';
  }

  /** A URL that already ends in `.md` yields its last segment unchanged. */
  lemma DefaultOutputKeepsMd(url: string)
    requires EndsWith(url, ".md")
    ensures DefaultOutputFromUrl(url) == LastSegment(url)
    ensures EndsWith(url, DefaultOutputFromUrl(url))
  {
    assert url[|url| - 1] == 'd';
    assert RStripSlash(url) == url;
    LastSegmentOfMd(url);
  }

  lemma {:induction false} LastSegmentOfMd(s: string)
    requires EndsWith(s, ".md")
    ensures EndsWith(LastSegment(s), ".md")
  {
    var init := s[..|s| - 1];
    var init2 := init[..|init| - 1];
    assert s[|s| - 1] == 'd' && init[|init| - 1] == 'm' && init2[|init2| - 1] == '.';
    assert LastSegment(s) == LastSegment(init2[..|init2| - 1]) + ['.'] + ['m'] + ['d'];
  }

  /** The file name for a task page: `.../tasks/abc419_e` gives `abc419_e.md`. */
  lemma DefaultOutputTaskPage()
    ensures DefaultOutputFromUrl("https://atcoder.jp/contests/abc419/tasks/abc419_e") == "abc419_e.md"
  {
    var url := "https://atcoder.jp/contests/abc419/tasks/abc419_e";
    assert RStripSlash(url) == url;
    assert url[..|url| - 8] == "https://atcoder.jp/contests/abc419/tasks/";
    assert LastSegment(url[..|url| - 8]) == [];
    assert LastSegment(url) == "abc419_e";
  }

  /** What the first positional argument names. */
  datatype InputKind = UrlInput(url: string) | FileInput(path: string)

  /** `re.match(r'^https?://', s)`: `http`, an optional `s`, then `://`. */
  predicate MatchesUrlScheme(s: string)
  {
    "http" <= s && var rest := s[4..]; ("://" <= rest || "s://" <= rest)
  }

  /** The scheme pattern matches exactly the two prefixes `http://` and
      `https://`. */
  lemma UrlSchemeIff(s: string)
    ensures MatchesUrlScheme(s) <==> StartsWith(s, "http://") || StartsWith(s, "https://")
  {
    if StartsWith(s, "http://") {
      assert s[..4] == "http" && s[4..][..3] == "://";
    }
    if StartsWith(s, "https://") {
      assert s[..4] == "http" && s[4..][..4] == "s://";
    }
    if MatchesUrlScheme(s) {
      var rest := s[4..];
      if "://" <= rest {
        assert s[..7] == "http" + rest[..3];
      } else {
        assert s[..8] == "http" + rest[..4];
      }
    }
  }

  /** The package's `main`: a URL is fetched, anything else is read as a file. */
  function Dispatch(arg: string): (r: InputKind)
    ensures r.UrlInput? <==> StartsWith(arg, "http://") || StartsWith(arg, "https://")
    ensures r.UrlInput? ==> r.url == arg
    ensures r.FileInput? ==> r.path == arg
  {
    UrlSchemeIff(arg);
    if MatchesUrlScheme(arg) then UrlInput(arg) else FileInput(arg)
  }

  /** The older stand-alone script's `main`: the argument is always a file. */
  function LegacyDispatch(arg: string): InputKind
  {
    FileInput(arg)
  }

  /** The two front ends agree exactly on the arguments that are not URLs. */
  lemma LegacyAgreesOnFiles(arg: string)
    ensures LegacyDispatch(arg) == Dispatch(arg) <==> !(StartsWith(arg, "http://") || StartsWith(arg, "https://"))
  {
  }
}
