/** The decisions of the HTTP wrapper around the negotiation: which headers
    Handle sets and which writer it hands to the wrapped handler, and the
    capability check of the wrapping response writer's Hijack. The pooled
    encoders, the compression itself and the network are not modelled. */
module Handler {
  import opened Negotiate

  datatype Option<+T> = None | Some(value: T)

  datatype Result<+T, +E> = Success(value: T) | Failure(error: E)

  /** Response headers: each canonical key maps to its list of values. */
  type Header = map<string, seq<string>>

  /** All values stored under `key`; none when the key is absent. */
  function Values(h: Header, key: string): seq<string> {
    if key in h then h[key] else []
  }

  /** Header.Get: the first value under `key`, or "" when there is none. */
  function Get(h: Header, key: string): (v: string)
    ensures key !in h || h[key] == [] ==> v == ""
    ensures key in h && h[key] != [] ==> v == h[key][0]
  {
    if |Values(h, key)| > 0 then Values(h, key)[0] else ""
  }

  /** Header.Add: appends `value` to the values of `key`; other keys stay. */
  function Add(h: Header, key: string, value: string): (r: Header)
    ensures Values(r, key) == Values(h, key) + [value]
    ensures r - {key} == h - {key}
  {
    h[key := Values(h, key) + [value]]
  }

  /** Header.Set: replaces the values of `key` by `value` alone; other keys stay. */
  function Set(h: Header, key: string, value: string): (r: Header)
    ensures Values(r, key) == [value]
    ensures r - {key} == h - {key}
  {
    h[key := [value]]
  }

  /** The writer the wrapped handler receives: the original one, or a
      responseWriter whose body writes go through an encoder of that kind. */
  datatype BodyWriter = Original | Compressing(coding: FlateType)

  /** The response headers at the moment the wrapped handler runs, and the
      writer it runs with. */
  datatype Served = Served(header: Header, writer: BodyWriter)

  /** The header choice of Handle, once accepts has made decision `d` for the
      request, on a response whose headers are `h`: Vary: Accept-Encoding is
      always added; Content-Encoding is set to the chosen coding and the body
      is compressed exactly when the decision is Gzip or Deflate; on Identity
      the wrapped handler gets the original writer and Content-Encoding is not
      touched. No other header changes. */
  function Handle(h: Header, d: FlateType): (r: Served)
    ensures Values(r.header, "Vary") == Values(h, "Vary") + ["Accept-Encoding"]
    ensures d == Identity ==>
      r.writer == Original && Values(r.header, "Content-Encoding") == Values(h, "Content-Encoding")
    ensures d != Identity ==>
      r.writer == Compressing(d) && Values(r.header, "Content-Encoding") == [CodingName(d)]
    ensures r.header - {"Vary", "Content-Encoding"} == h - {"Vary", "Content-Encoding"}
  {
    var vary := Add(h, "Vary", "Accept-Encoding");
    assert vary - {"Vary", "Content-Encoding"} == h - {"Vary", "Content-Encoding"} by {
      assert vary - {"Vary", "Content-Encoding"} == (vary - {"Vary"}) - {"Content-Encoding"};
      assert h - {"Vary", "Content-Encoding"} == (h - {"Vary"}) - {"Content-Encoding"};
    }
    match d
    case Gzip =>
      var r := Set(vary, "Content-Encoding", "gzip");
      assert r - {"Vary", "Content-Encoding"} == (r - {"Content-Encoding"}) - {"Vary"};
      assert vary - {"Vary", "Content-Encoding"} == (vary - {"Content-Encoding"}) - {"Vary"};
      Served(r, Compressing(Gzip))
    case Deflate =>
      var r := Set(vary, "Content-Encoding", "deflate");
      assert r - {"Vary", "Content-Encoding"} == (r - {"Content-Encoding"}) - {"Vary"};
      assert vary - {"Vary", "Content-Encoding"} == (vary - {"Content-Encoding"}) - {"Vary"};
      Served(r, Compressing(Deflate))
    case Identity =>
      Served(vary, Original)
  }

  /** The headers and writer for a request whose Accept-Encoding header value
      is `acceptEncoding` ("" when it has none). */
  function Serve(h: Header, acceptEncoding: string, parseFloat: FloatParser): (r: Served)
    ensures Values(r.header, "Vary") == Values(h, "Vary") + ["Accept-Encoding"]
    ensures r.writer == Original <==>
      Encodings(acceptEncoding, parseFloat).gzip <= 0.0 && Encodings(acceptEncoding, parseFloat).deflate <= 0.0
    ensures r.writer.Compressing? ==>
      Values(r.header, "Content-Encoding") == [CodingName(r.writer.coding)] &&
      Weight(Encodings(acceptEncoding, parseFloat), CodingName(r.writer.coding)) > 0.0
  {
    Handle(h, Accepts(acceptEncoding, parseFloat))
  }

  /** For a response that had no Content-Encoding, the header the client sees
      tells the truth: it is empty exactly when the body goes out uncompressed,
      and otherwise names the coding of the encoder, which the client's
      Accept-Encoding lists with a positive weight. */
  lemma ContentEncodingMatchesWriter(h: Header, acceptEncoding: string, parseFloat: FloatParser)
    requires "Content-Encoding" !in h
    ensures Get(Serve(h, acceptEncoding, parseFloat).header, "Content-Encoding") == "" <==>
      Serve(h, acceptEncoding, parseFloat).writer == Original
    ensures Serve(h, acceptEncoding, parseFloat).writer.Compressing? ==>
      var name := Get(Serve(h, acceptEncoding, parseFloat).header, "Content-Encoding");
      name == CodingName(Serve(h, acceptEncoding, parseFloat).writer.coding) &&
      Mentions(acceptEncoding, name, parseFloat) &&
      Weight(Encodings(acceptEncoding, parseFloat), name) > 0.0
  {
    DecisionWasOffered(acceptEncoding, parseFloat);
  }

  /** Why a hijack failed: the designated ErrUnHijackable, or whatever error
      the underlying connection reported. */
  datatype HijackError = ErrUnHijackable | ConnError(reason: string)

  /** The raw connection and buffered reader/writer a successful hijack hands over. */
  datatype Conn = Conn(id: nat)

  type HijackResult = Result<Conn, HijackError>

  /** A response sink: a plain http.ResponseWriter, which implements
      http.Hijacker or not (and if so, `hijacker` holds what its Hijack
      returns), or the compressing responseWriter wrapped around `inner`. */
  datatype Sink = Plain(hijacker: Option<HijackResult>) | Wrapped(inner: Sink)

  /** The outcome of the innermost plain sink's Hijack, None when it cannot hijack. */
  function Innermost(w: Sink): Option<HijackResult> {
    match w
    case Plain(hijacker) => hijacker
    case Wrapped(inner) => Innermost(inner)
  }

  /** The type assertion `w.(http.Hijacker)`: None when `w` does not
      implement it, else what its Hijack returns. The compressing
      responseWriter always implements it. */
  function HijackerOf(w: Sink): (o: Option<HijackResult>)
    ensures o.None? <==> w.Plain? && w.hijacker.None?
    ensures w.Wrapped? ==>
      o == Some(if Innermost(w).None? then Failure(ErrUnHijackable) else Innermost(w).value)
    decreases w, 0
  {
    match w
    case Plain(hijacker) => hijacker
    case Wrapped(inner) => Some(Hijack(inner))
  }

  /** responseWriter.Hijack, for a responseWriter wrapped around `inner`:
      delegates to the inner writer when it is a Hijacker, and fails with
      ErrUnHijackable otherwise. Through any number of wrappers the call
      reaches the innermost sink unchanged. */
  function Hijack(inner: Sink): (r: HijackResult)
    ensures Innermost(inner).None? ==> r == Failure(ErrUnHijackable)
    ensures Innermost(inner).Some? ==> r == Innermost(inner).value
    decreases inner, 1
  {
    match HijackerOf(inner)
    case None => Failure(ErrUnHijackable)
    case Some(result) => result
  }
}
