/**
 * Navigation highlighting: on page load every navigation link whose `href`
 * names the page being shown gets an underline. The page is named by the last
 * segment of the location's path, `location.pathname.split('/').pop()`, and the
 * empty segment (a path ending in '/') counts as "index.html".
 */
module NavHighlight {

  /** The result of `getAttribute`: null when the attribute is missing. */
  datatype Attr = Absent | Present(value: string)

  /** `s.split('/')`: the pieces between the slashes, always at least one. */
  function Split(s: string): (parts: seq<string>)
    ensures |parts| >= 1
    ensures forall k :: 0 <= k < |parts| ==> '/' !in parts[k]
    decreases |s|
  {
    if s == [] then [""]
    else
      var rest := Split(s[1..]);
      if s[0] == '/' then [""] + rest
      else [[s[0]] + rest[0]] + rest[1..]
  }

  /** `parts.join('/')`, the inverse of Split. */
  function Join(parts: seq<string>): (s: string)
    requires |parts| >= 1
    ensures |parts| == 1 ==> s == parts[0]
    decreases |parts|
  {
    if |parts| == 1 then parts[0] else parts[0] + "/" + Join(parts[1..])
  }

  /** Splitting loses nothing: joining the pieces with '/' gives the string back. */
  lemma {:induction false} JoinSplit(s: string)
    ensures Join(Split(s)) == s
    decreases |s|
  {
    if s != [] {
      JoinSplit(s[1..]);
      var rest := Split(s[1..]);
      if s[0] == '/' {
        assert Split(s) == [""] + rest;
        assert Split(s)[1..] == rest;
      } else if |rest| == 1 {
        assert Split(s) == [[s[0]] + rest[0]];
      } else {
        assert Split(s)[1..] == rest[1..];
        assert Join(rest) == rest[0] + "/" + Join(rest[1..]);
      }
    }
  }

  /**
   * The last piece of a split is the text after the last '/': a suffix of `s`
   * that is either all of `s` or directly preceded by a '/'.
   */
  lemma {:induction false} SplitLast(s: string)
    ensures var last := Split(s)[|Split(s)| - 1];
      |last| <= |s| && last == s[|s| - |last|..] &&
      (|last| < |s| ==> s[|s| - |last| - 1] == '/') &&
      (|Split(s)| > 1 ==> |last| < |s|)
    decreases |s|
  {
    if s != [] {
      SplitLast(s[1..]);
      var rest := Split(s[1..]);
      if s[0] != '/' && |rest| == 1 {
        JoinSplit(s[1..]);
        assert Split(s) == [[s[0]] + s[1..]];
        assert [s[0]] + s[1..] == s;
      } else {
        var last := rest[|rest| - 1];
        assert Split(s)[|Split(s)| - 1] == last;
        assert s[1..][|s| - 1 - |last|..] == s[|s| - |last|..];
        if |last| < |s| - 1 {
          assert s[1..][|s| - 1 - |last| - 1] == s[|s| - |last| - 1];
        } else if |last| == |s| - 1 {
          assert s[|s| - |last| - 1] == s[0];
        }
      }
    }
  }

  /**
   * `location.pathname.split('/').pop()`: the text after the last '/' of the
   * path, or the whole path when it holds no '/'.
   */
  function LastSegment(path: string): (seg: string)
    ensures '/' !in seg
    ensures |seg| <= |path| && seg == path[|path| - |seg|..]
    ensures |seg| < |path| ==> path[|path| - |seg| - 1] == '/'
  {
    SplitLast(path);
    Split(path)[|Split(path)| - 1]
  }

  /** The condition under which a link is underlined, for the current page name. */
  predicate IsCurrentLink(href: Attr, current: string)
    ensures IsCurrentLink(href, current) ==> href.Present? && (href.value == current || href.value == "index.html")
    ensures href == Present(current) ==> IsCurrentLink(href, current)
  {
    href.Present? && (href.value == current || (current == "" && href.value == "index.html"))
  }

  /**
   * The page-load loop over the navigation links: `marked[k]` tells whether
   * the k-th link gets the underline style.
   */
  method HighlightNav(pathname: string, hrefs: seq<Attr>) returns (marked: seq<bool>)
    ensures |marked| == |hrefs|
    ensures forall k :: 0 <= k < |hrefs| ==> (marked[k] <==> IsCurrentLink(hrefs[k], LastSegment(pathname)))
  {
    var current := LastSegment(pathname);
    marked := [];
    var k := 0;
    while k < |hrefs|
      invariant 0 <= k <= |hrefs|
      invariant |marked| == k
      invariant forall j :: 0 <= j < k ==> (marked[j] <==> IsCurrentLink(hrefs[j], current))
    {
      var linkHref := hrefs[k];
      var hit := IsCurrentLink(linkHref, current);
      marked := marked + [hit];
      assert marked[k] == hit;
      k := k + 1;
    }
  }

  /** The page name of `dir + "/" + file` is `file`, whatever the directory. */
  lemma LastSegmentOfFile(dir: string, file: string)
    requires '/' !in file
    ensures LastSegment(dir + "/" + file) == file
  {
    var path := dir + "/" + file;
    var seg := LastSegment(path);
    assert path[|path| - |file| - 1] == '/';
    assert seg == path[|path| - |file|..] == file;
  }

  /**
   * On the page `dir + "/" + file`, a link is underlined exactly when its href
   * is `file`, or, when the path ends in '/', when its href is "index.html";
   * a link without an href never is.
   */
  lemma CurrentLinkOnPage(dir: string, file: string, href: Attr)
    requires '/' !in file
    ensures IsCurrentLink(href, LastSegment(dir + "/" + file)) <==>
      href.Present? && (href.value == file || (file == "" && href.value == "index.html"))
  {
    LastSegmentOfFile(dir, file);
  }

  /** A path without any '/' is its own page name. */
  lemma LastSegmentOfBareName(path: string)
    requires '/' !in path
    ensures LastSegment(path) == path
  {
  }
}
