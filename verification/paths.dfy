/** Path normalisation shared by the PATH and PATTERN matchers. */
module Paths {
  import opened Strings

  /** `normalizePath` (PATTERN) and `k` (built PATH): empty or `/` becomes `/`, otherwise one
      trailing `/` is removed. */
  function NormalizePath(p: string): (r: string)
    ensures r != ""
    ensures r == p || r + "/" == p || (p == "" && r == "/")
    ensures EndsWith(p, "/") && p != "/" ==> r + "/" == p
  {
    if p == "" || p == "/" then "/"
    else if EndsWith(p, "/") then p[..|p| - 1]
    else p
  }

  /** `pathname.replace(/\/$/, '') || '/'` from the source PATH matcher. */
  function StripTrailingSlash(p: string): string
  {
    var q := if EndsWith(p, "/") then p[..|p| - 1] else p;
    if q == "" then "/" else q
  }

  /** The source PATH matcher's normalisation and `normalizePath` agree on every input. */
  lemma StripTrailingSlashIsNormalizePath(p: string)
    ensures StripTrailingSlash(p) == NormalizePath(p)
  {
  }
}
