/**
 * Extraction of the absolute data-store path from an HTTP request path
 * and the mount point of the endpoint's router.
 */
module Endpoint {

  /**
   * The part of `path` after the first `|mountPoint|` characters, made
   * absolute; "/" when nothing is left. Only the mount point's length is
   * used: the path is not checked to begin with it.
   */
  function GetEndpointPath(path: string, mountPoint: string): (r: string)
    ensures |r| > 0 && r[0] == '/'
    ensures |path| <= |mountPoint| ==> r == "/"
    ensures |mountPoint| < |path| && path[|mountPoint|] == '/' ==> r == path[|mountPoint|..]
    ensures |mountPoint| < |path| && path[|mountPoint|] != '/' ==> r == "/" + path[|mountPoint|..]
  {
    var result := if |mountPoint| < |path| then path[|mountPoint|..] else "";
    if result == [] then "/"
    else if result[0] != '/' then "/" + result
    else result
  }

  /** The suffix of `path` behind a mount point of length `n`, or empty. */
  function Suffix(path: string, n: nat): string {
    if n < |path| then path[n..] else ""
  }

  /**
   * Apart from at most one added leading '/', the result is exactly the
   * suffix of the path behind the mount point.
   */
  lemma SuffixPreserved(path: string, mountPoint: string)
    ensures var r := GetEndpointPath(path, mountPoint);
      var s := Suffix(path, |mountPoint|);
      (r == s || r == "/" + s) && |r| <= |s| + 1 && r[|r| - |s|..] == s
  {
  }

  /** Two mount points of the same length give the same result, whatever their characters. */
  lemma MountPointOnlyByLength(path: string, m1: string, m2: string)
    requires |m1| == |m2|
    ensures GetEndpointPath(path, m1) == GetEndpointPath(path, m2)
  {
  }

  /** An extracted path is a fixed point: extracting again under an empty mount point changes nothing. */
  lemma ExtractIdempotent(path: string, mountPoint: string)
    ensures var r := GetEndpointPath(path, mountPoint);
      GetEndpointPath(r, "") == r
  {
    var r := GetEndpointPath(path, mountPoint);
    assert r[0..] == r;
  }
}
