/**
  `revealFile`: turns an import specifier of a worker entry into the
  `sw-import:` identifier the build plugin later loads, when the specifier
  names a file by path; any other specifier is kept as it is.
 */
module Reveal {
  import opened Text

  /** Marker that tags a rewritten specifier as one this plugin will load. */
  const ImportPrefix: string := "sw-import:"

  /**
    What the model takes from the host: `node:path`'s `resolve`, applied to the
    entry, `..` and the specifier, as an uninterpreted function, and the set of
    paths `stat` finds.
   */
  datatype Host = Host(resolve: (string, string, string) -> string, existing: set<string>)

  /**
    The specifier is treated as a path when its SECOND character is `.` or `/`
    (`./x`, `../x`, `//x`, `a.b` all qualify); shorter specifiers never do.
   */
  predicate PathLike(source: string)
  {
    |source| >= 2 && (source[1] == '.' || source[1] == '/')
  }

  /** The file a path-like specifier names, resolved against the entry's directory. */
  function ResolvedFile(host: Host, entry: string, source: string): string
  {
    host.resolve(entry, "..", source)
  }

  function RevealFile(host: Host, entry: string, source: string): (r: string)
    ensures r == source <==> !PathLike(source)
    ensures PathLike(source) ==>
      var file := ResolvedFile(host, entry, source);
      && StartsWith(r, ImportPrefix)
      && (r == ImportPrefix + file + ".ts" <==> file + ".ts" in host.existing)
      && (r == ImportPrefix + file + ".js" <==> file + ".ts" !in host.existing)
  {
    if !PathLike(source) then source
    else
      var file := ResolvedFile(host, entry, source);
      var r := if file + ".ts" in host.existing
        then ImportPrefix + file + ".ts"
        else ImportPrefix + file + ".js";
      var ts, js := ImportPrefix + file + ".ts", ImportPrefix + file + ".js";
      assert ts[|ts| - 2] == 't' && js[|js| - 2] == 'j';
      assert r[1] == 'w';
      r
  }
}
