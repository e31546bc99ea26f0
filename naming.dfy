/**
 * The name under which `save_html` stores a page (crawler.py:44-52): the
 * network location, the path with its separators replaced, the query with
 * its delimiters replaced, and an `.html` suffix.
 */
module Naming {

  /** Python's `s.replace(target, filler)` for one character by one character. */
  function Replace(s: string, target: char, filler: char): (r: string)
    ensures |r| == |s|
    ensures forall i :: 0 <= i < |s| ==> r[i] == (if s[i] == target then filler else s[i])
  {
    if s == [] then []
    else [if s[0] == target then filler else s[0]] + Replace(s[1..], target, filler)
  }

  /** After replacing every `target` with another character, no `target` is left. */
  lemma ReplaceRemoves(s: string, target: char, filler: char)
    requires target != filler
    ensures target !in Replace(s, target, filler)
  {
  }

  /**
   * `safe_path`: the path with every `/` replaced by `_`, or `_root` when the
   * path is empty (the empty string is falsy for Python's `or`).
   */
  function SafePath(path: string): (r: string)
    ensures path == [] ==> r == "_root"
    ensures path != [] ==> |r| == |path|
    ensures path != [] ==> forall i :: 0 <= i < |path| ==> r[i] == (if path[i] == '/' then '_' else path[i])
    ensures '/' !in r
  {
    var replaced := Replace(path, '/', '_');
    ReplaceRemoves(path, '/', '_');
    if replaced != [] then replaced else "_root"
  }

  /** `safe_query`: the query with every `=` and every `&` replaced by `_`. */
  function SafeQuery(query: string): (r: string)
    ensures |r| == |query|
    ensures forall i :: 0 <= i < |query| ==>
      r[i] == (if query[i] == '=' || query[i] == '&' then '_' else query[i])
    ensures '=' !in r && '&' !in r
  {
    var noEq := Replace(query, '=', '_');
    ReplaceRemoves(query, '=', '_');
    var r := Replace(noEq, '&', '_');
    ReplaceRemoves(noEq, '&', '_');
    assert forall c :: c in r && c != '_' ==> c in noEq;
    r
  }

  /** The file name exactly as `save_html` builds it. */
  function FileName(netloc: string, path: string, query: string): (r: string)
    ensures |r| == |netloc| + (if path == [] then 5 else |path|) + (if query == [] then 0 else |query| + 1) + 5
    ensures r[..|netloc|] == netloc
    ensures r[|r| - 5..] == ".html"
  {
    var safePath := SafePath(path);
    var safeQuery := SafeQuery(query);
    if safeQuery != [] then netloc + safePath + "_" + safeQuery + ".html"
    else netloc + safePath + ".html"
  }

  /** An empty path is stored as `_root`, but the path `/` becomes `_`, not `_root`. */
  lemma RootPathNames(netloc: string)
    ensures FileName(netloc, "", "") == netloc + "_root.html"
    ensures FileName(netloc, "/", "") == netloc + "_.html"
  {
  }

  /**
   * Names are not unique: queries that differ only in `=` versus `&`
   * collide, and so do the empty path and the path `/root`.
   */
  lemma FileNamesCollide(netloc: string)
    ensures FileName(netloc, "/p", "a=b") == FileName(netloc, "/p", "a&b")
    ensures FileName(netloc, "", "") == FileName(netloc, "/root", "")
  {
  }

  /**
   * As written, the query keeps its `/` characters, so the name of a page
   * such as `/p?next=/home` holds a path separator: joined to the output
   * directory it names a file inside a sub-directory that is never created.
   */
  lemma {:induction false} FileNameKeepsQuerySeparator(netloc: string, path: string, query: string)
    requires '/' in query
    ensures '/' in FileName(netloc, path, query)
  {
    var i :| 0 <= i < |query| && query[i] == '/';
    var safeQuery := SafeQuery(query);
    assert safeQuery[i] == '/';
    assert FileName(netloc, path, query) == netloc + SafePath(path) + "_" + safeQuery + ".html";
  }

  /** The query as a file-name component with `/` replaced as well. */
  function FlatQuery(query: string): (r: string)
    ensures |r| == |query|
    ensures forall i :: 0 <= i < |query| ==>
      r[i] == (if query[i] in "=&/" then '_' else query[i])
    ensures '=' !in r && '&' !in r && '/' !in r
  {
    var safe := SafeQuery(query);
    ReplaceRemoves(safe, '/', '_');
    Replace(safe, '/', '_')
  }

  /** The file name with no path separator outside the network location. */
  function FlatFileName(netloc: string, path: string, query: string): (r: string)
    ensures |r| == |FileName(netloc, path, query)|
    ensures r[..|netloc|] == netloc
    ensures r[|r| - 5..] == ".html"
  {
    var safePath := SafePath(path);
    var flatQuery := FlatQuery(query);
    if flatQuery != [] then netloc + safePath + "_" + flatQuery + ".html"
    else netloc + safePath + ".html"
  }

  /** A network location never holds `/`, so the corrected name is a plain file name. */
  lemma FlatFileNameIsFlat(netloc: string, path: string, query: string)
    requires '/' !in netloc
    ensures '/' !in FlatFileName(netloc, path, query)
  {
  }

  /** Where the query holds no `/`, the corrected name is the one the code builds. */
  lemma FlatFileNameAgrees(netloc: string, path: string, query: string)
    requires '/' !in query
    ensures FlatFileName(netloc, path, query) == FileName(netloc, path, query)
  {
  }
}
