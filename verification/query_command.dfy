/**
 * The request a query command of the command-line client sends to the
 * server: the layer normalised to the form "/.../", and the search query
 * URL-encoded into a query string.
 */
module QueryCommand {
  import opened Wrappers

  function StartsWithSlash(s: string): bool {
    |s| > 0 && s[0] == '/'
  }

  function EndsWithSlash(s: string): bool {
    |s| > 0 && s[|s| - 1] == '/'
  }

  /**
   * A missing or empty layer is "/"; otherwise a '/' is appended unless
   * the layer ends with one, then a '/' is prepended unless it starts
   * with one.
   */
  function NormalizeLayer(layer: Option<string>): (r: string)
    ensures StartsWithSlash(r) && EndsWithSlash(r)
    ensures layer.None? || layer == Some("") ==> r == "/"
    ensures layer.Some? && StartsWithSlash(layer.value) && EndsWithSlash(layer.value) ==> r == layer.value
  {
    var l := if layer.None? || layer.value == "" then "/" else layer.value;
    var trailing := if EndsWithSlash(l) then l else l + "/";
    if StartsWithSlash(trailing) then trailing else "/" + trailing
  }

  /**
   * Normalisation only adds: the layer appears unchanged inside the
   * result, behind at most one added '/' and before at most one.
   */
  lemma NormalizeKeepsInner(layer: string)
    requires layer != ""
    ensures var r := NormalizeLayer(Some(layer));
      var lead := if StartsWithSlash(layer) then 0 else 1;
      var trail := if EndsWithSlash(layer) then 0 else 1;
      |r| == lead + |layer| + trail && r[lead..lead + |layer|] == layer
  {
    var r := NormalizeLayer(Some(layer));
    var lead := if StartsWithSlash(layer) then 0 else 1;
    var trail := if EndsWithSlash(layer) then 0 else 1;
    if lead == 1 && trail == 1 {
      assert r == "/" + layer + "/";
    } else if lead == 1 {
      assert r == "/" + layer;
    } else if trail == 1 {
      assert r == layer + "/";
    }
    assert r[lead..lead + |layer|] == layer;
  }

  /** Normalising a normalised layer changes nothing. */
  lemma NormalizeIdempotent(layer: Option<string>)
    ensures NormalizeLayer(Some(NormalizeLayer(layer))) == NormalizeLayer(layer)
  {
  }

  /** The query string: empty for a missing or empty query, else "?search=" and the encoded query. */
  function UrlQuery(query: Option<string>, encode: string -> string): (r: string)
    ensures query.None? || query == Some("") ==> r == ""
    ensures query.Some? && query.value != "" ==>
      |r| >= 8 && r[..8] == "?search=" && r[8..] == encode(query.value)
  {
    if query.None? || query.value == "" then "" else "?search=" + encode(query.value)
  }

  /**
   * The path of the GET request to the server: the store endpoint, the
   * normalised layer and the query string. `encode` stands for URL
   * encoding in UTF-8, which is not modelled.
   */
  function RequestPath(query: Option<string>, layer: Option<string>, encode: string -> string): (r: string)
    ensures |r| >= 7 && r[..7] == "/store/"
    ensures query.None? || query == Some("") ==> EndsWithSlash(r)
  {
    "/store" + NormalizeLayer(layer) + UrlQuery(query, encode)
  }

  /**
   * A request path splits back into its parts: "/store", the normalised
   * layer, which ends at the first '/' that is followed by nothing or by
   * the query string, and the query string.
   */
  lemma RequestPathSplit(query: Option<string>, layer: Option<string>, encode: string -> string)
    ensures var r := RequestPath(query, layer, encode);
      var n := NormalizeLayer(layer);
      && |r| == 6 + |n| + |UrlQuery(query, encode)|
      && r[6..6 + |n|] == n
      && r[6 + |n|..] == UrlQuery(query, encode)
  {
    var n := NormalizeLayer(layer);
    var q := UrlQuery(query, encode);
    var p := "/store" + n;
    var r := RequestPath(query, layer, encode);
    assert r == p + q;
    assert r[..|p|] == p && r[|p|..] == q;
    assert p[6..] == n;
    assert r[6..|p|] == r[..|p|][6..];
  }

  /**
   * The layer can be read back from a request path without a query: it
   * is everything behind "/store", and it is already normalised.
   */
  lemma RequestPathLayer(layer: Option<string>, encode: string -> string)
    ensures var r := RequestPath(None, layer, encode);
      r[6..] == NormalizeLayer(layer) && NormalizeLayer(Some(r[6..])) == r[6..]
  {
    var n := NormalizeLayer(layer);
    assert RequestPath(None, layer, encode) == "/store" + n + "";
    assert ("/store" + n + "")[6..] == n;
  }

  /** The server the client queries. */
  const ServerHost := "localhost"
  const ServerPort := 63074

  datatype Request = Request(host: string, port: int, path: string)

  /** The GET request an export sends. */
  function ExportRequest(query: Option<string>, layer: Option<string>, encode: string -> string): (r: Request)
    ensures r.host == ServerHost && r.port == ServerPort
    ensures r.path == RequestPath(query, layer, encode)
  {
    Request(ServerHost, ServerPort, RequestPath(query, layer, encode))
  }

  /**
   * What the server answers: a transport failure, or a response with a
   * status code, a status message and the body as it arrives, buffer by
   * buffer.
   */
  datatype Reply = Failure(message: string) | Response(status: int, statusMessage: string, body: seq<string>)

  /**
   * The end of an export: the code passed to the completion handler, the
   * text written to the output, and the message reported as an error.
   */
  datatype Outcome = Outcome(exitCode: int, written: string, error: Option<string>)

  /** The buffers of a body, written one after the other. */
  function Concat(buffers: seq<string>): string {
    if buffers == [] then "" else buffers[0] + Concat(buffers[1..])
  }

  /**
   * A transport failure or a status other than 200 reports the message and
   * ends with code 1 without writing anything; a 200 response writes the
   * body and ends with code 0.
   */
  function Finish(reply: Reply): (r: Outcome)
    ensures r.exitCode == 0 || r.exitCode == 1
    ensures r.exitCode == 0 <==> reply.Response? && reply.status == 200
    ensures r.exitCode == 0 ==> r.error.None? && r.written == Concat(reply.body)
    ensures r.exitCode == 1 ==> r.written == "" && r.error.Some?
    ensures reply.Failure? ==> r.error == Some(reply.message)
    ensures reply.Response? && reply.status != 200 ==> r.error == Some(reply.statusMessage)
  {
    match reply
    case Failure(m) => Outcome(1, "", Some(m))
    case Response(status, message, body) =>
      if status != 200 then Outcome(1, "", Some(message)) else Outcome(0, Concat(body), None)
  }

  /** Writing two runs of buffers one after the other writes their texts one after the other. */
  lemma {:induction false} ConcatAppend(a: seq<string>, b: seq<string>)
    ensures Concat(a + b) == Concat(a) + Concat(b)
    decreases |a|
  {
    if a == [] {
      assert a + b == b;
    } else {
      assert (a + b)[0] == a[0] && (a + b)[1..] == a[1..] + b;
      ConcatAppend(a[1..], b);
    }
  }

  /** A successful export writes every buffer of the body, in arrival order, at its offset. */
  lemma {:induction false} WrittenInOrder(body: seq<string>, i: nat)
    requires i < |body|
    ensures var w := Finish(Response(200, "OK", body)).written;
      var at := |Concat(body[..i])|;
      at + |body[i]| <= |w| && w[at..at + |body[i]|] == body[i]
  {
    assert body == body[..i] + ([body[i]] + body[i + 1..]);
    ConcatAppend(body[..i], [body[i]] + body[i + 1..]);
    ConcatAppend([body[i]], body[i + 1..]);
    assert Concat([body[i]]) == body[i] + Concat([]);
  }
}
