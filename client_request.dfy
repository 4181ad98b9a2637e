/**
 * The parts of an Express request that address extraction reads, and the
 * step the controller and the blocker share: the first address of a truthy
 * `x-forwarded-for` header.
 */
module ClientRequest {
  import opened Wrappers
  import opened JsStrings

  /** The `x-forwarded-for` header as Node hands it over: absent, one string, or an array of strings. */
  datatype ForwardedHeader = NoHeader | HeaderValue(value: string) | HeaderList(values: seq<string>)

  /** `req.headers['x-forwarded-for']`, `req.ip` and `req.socket.remoteAddress`. */
  datatype Request = Request(forwarded: ForwardedHeader, ip: Option<string>, remoteAddress: Option<string>)

  /** What reading an address yields: nothing (`undefined`), a string, or the TypeError of `undefined.trim()`. */
  datatype Lookup = Missing | Found(address: string) | TypeError

  /** JavaScript truthiness of a string that may be `undefined`. */
  predicate Truthy(s: Option<string>) {
    s.Some? && s.value != ""
  }

  /** JavaScript truthiness of the header: an absent or empty string is falsy, every array (even an empty one) is truthy. */
  predicate HeaderPresent(h: ForwardedHeader) {
    match h
    case NoHeader => false
    case HeaderValue(v) => v != ""
    case HeaderList(_) => true
  }

  /**
   * `(Array.isArray(f) ? f[0] : f.split(',')[0]).trim()` for a truthy header
   * `f`; `Missing` when the header is falsy. An empty array has no first
   * element, and trimming `undefined` throws.
   */
  function ForwardedAddress(h: ForwardedHeader): (r: Lookup)
    ensures r == Missing <==> !HeaderPresent(h)
    ensures r == TypeError <==> h == HeaderList([])
  {
    match h
    case NoHeader => Missing
    case HeaderValue(v) => if v == "" then Missing else Found(Trim(Split(v, ',')[0]))
    case HeaderList(vs) => if |vs| == 0 then TypeError else Found(Trim(vs[0]))
  }

  /**
   * A string header gives the text before its first comma (all of it when
   * there is none), trimmed: `j` is the position of that first comma.
   */
  lemma ForwardedStringFirstHop(v: string, j: int)
    requires v != ""
    requires 0 <= j <= |v| && ',' !in v[..j] && (j == |v| || v[j] == ',')
    ensures ForwardedAddress(HeaderValue(v)) == Found(Trim(v[..j]))
  {
    var p := Split(v, ',')[0];
    FirstPieceIsPrefix(v, ',');
    assert forall k :: 0 <= k < j ==> v[..j][k] == v[k] && v[k] != ',';
    assert forall k :: 0 <= k < |p| ==> p[k] == v[k] && p[k] != ',';
    assert |p| == j;
    assert p == v[..j];
  }

  /**
   * An array header gives its first element trimmed and nothing else: the
   * element is not split on commas, so a first element without surrounding
   * whitespace comes back whole, commas and all.
   */
  lemma ForwardedListNotSplit(vs: seq<string>)
    requires |vs| > 0
    requires NoEdge(vs[0], IsJsWhitespace)
    ensures ForwardedAddress(HeaderList(vs)) == Found(vs[0])
  {
    StripNoEdge(vs[0], IsJsWhitespace);
  }

  /** A found forwarded address never starts or ends with whitespace. */
  lemma ForwardedAddressTrimmed(h: ForwardedHeader)
    requires ForwardedAddress(h).Found?
    ensures NoEdge(ForwardedAddress(h).address, IsJsWhitespace)
  {
    match h
    case HeaderValue(v) => StripHasNoEdge(Split(v, ',')[0], IsJsWhitespace);
    case HeaderList(vs) => StripHasNoEdge(vs[0], IsJsWhitespace);
  }
}
