/** Lexical path handling of Go's `path/filepath` package on a Unix system
    (separator '/', no volume names): `Clean`, `Dir` and `Join`. */
module FilePath {
  import Strings

  type Path = string

  /** The pieces of `p` between slashes; empty pieces stand for repeated,
      leading or trailing slashes. */
  function Split(p: Path): (parts: seq<string>)
    ensures |parts| >= 1
    decreases |p|
  {
    if p == [] then [[]]
    else
      var rest := Split(p[1..]);
      if p[0] == '/' then [[]] + rest
      else [[p[0]] + rest[0]] + rest[1..]
  }

  /** Go's `Clean` on the pieces of a path: drop empty and "." elements, let
      ".." remove the element before it; a ".." that has nothing to remove is
      kept in a relative path and dropped at the root. */
  function Resolve(parts: seq<string>, rooted: bool): seq<string> {
    if parts == [] then []
    else
      var done := Resolve(parts[..|parts| - 1], rooted);
      var part := parts[|parts| - 1];
      if part == "" || part == "." then done
      else if part == ".." then
        if done != [] && done[|done| - 1] != ".." then done[..|done| - 1]
        else if rooted then done
        else done + [".."]
      else done + [part]
  }

  /** Go's `filepath.Clean`: the shortest lexically equivalent path. */
  function Clean(p: Path): Path {
    if p == [] then "."
    else
      var rooted := p[0] == '/';
      var body := Strings.Join(Resolve(Split(p), rooted), "/");
      if rooted then "/" + body
      else if body == [] then "."
      else body
  }

  /** The index just past the last slash of `p`, 0 when there is none. */
  function AfterLastSlash(p: Path): (n: nat)
    ensures n <= |p|
  {
    if p == [] then 0
    else if p[|p| - 1] == '/' then |p|
    else AfterLastSlash(p[..|p| - 1])
  }

  /** Go's `filepath.Dir`: all but the last element of `p`, cleaned. */
  function Dir(p: Path): Path {
    Clean(p[..AfterLastSlash(p)])
  }

  /** Go's `filepath.Join` of two elements: empty elements are skipped and
      the rest are joined with '/' and cleaned; two empty elements give "". */
  function Join(a: Path, b: Path): Path {
    if a != [] then Clean(a + "/" + b)
    else if b != [] then Clean(b)
    else []
  }
}
