/**
 * Fetching one Fedora resource as RDF: `_download` sniffs the content type of
 * the reply and `fetch_rdf` retries a failed resource once at its
 * `fcr:metadata` endpoint.  The HTTP session and the Turtle parser are
 * parameters of the model: a `Server` answers every URI the same way each time.
 */
module FedoraFetch {
  import opened Wrappers
  import opened Strings
  import opened FedoraRules

  /** The reply to one GET; `contentType` is `None` when the header is absent. */
  datatype Response = Response(status: int, contentType: Option<string>, body: string)

  /** What the session returns: a reply, or a transport error (refused connection, timeout). */
  datatype HttpOutcome = Received(response: Response) | Unreachable

  /** A parsed graph: its triples in iteration order, and its Turtle serialisation. */
  datatype Graph = Graph(triples: seq<Triple>, turtle: string)

  /** The HTTP session and rdflib's Turtle parser (`data`, `publicID`) as total functions. */
  datatype Server = Server(get: string -> HttpOutcome, parse: (string, string) -> Option<Graph>)

  /** Why `_download` raised: `raise_for_status`, `NotRDF`, or a transport error. */
  datatype DownloadError = HttpError(status: int) | NotRdf(contentType: string) | ConnectionFailed

  /** Why `fetch_rdf` raised. */
  datatype FetchError = DownloadFailed(cause: DownloadError) | ParseFailed(uri: string)

  /** A graph together with the URI it was actually read from. */
  datatype Fetched = Fetched(graph: Graph, effectiveUri: string)

  const MetadataEndpoint: string := "fcr:metadata"

  /** `raise_for_status` raises for the client and server error ranges. */
  predicate IsErrorStatus(status: int)
  {
    400 <= status < 600
  }

  /** `resp.headers.get("Content-Type", "")` */
  function ContentType(r: Response): string
  {
    match r.contentType
    case None => ""
    case Some(c) => c
  }

  /** A content type looks like RDF when it mentions Turtle, RDF or JSON-LD anywhere. */
  predicate IsRdfContentType(ctype: string)
  {
    Contains(ctype, "text/turtle") || Contains(ctype, "rdf") || Contains(ctype, "ld+json")
  }

  /** `_download`: the body of a successful reply whose content type looks like RDF. */
  function Download(uri: string, server: Server): (r: Result<string, DownloadError>)
    ensures r.Success? <==>
      server.get(uri).Received? && !IsErrorStatus(server.get(uri).response.status)
      && IsRdfContentType(ContentType(server.get(uri).response))
    ensures r.Success? ==> r.value == server.get(uri).response.body
    ensures server.get(uri).Unreachable? <==> r == Failure(ConnectionFailed)
  {
    match server.get(uri)
    case Unreachable => Failure(ConnectionFailed)
    case Received(resp) =>
      if IsErrorStatus(resp.status) then Failure(HttpError(resp.status))
      else if !IsRdfContentType(ContentType(resp)) then Failure(NotRdf(ContentType(resp)))
      else Success(resp.body)
  }

  /** `uri.rstrip("/") + "/fcr:metadata"` */
  function MetadataUri(uri: string): string
  {
    RStrip(uri, {'/'}) + "/" + MetadataEndpoint
  }

  /** The error `fetch_rdf` catches to try the metadata endpoint: `NotRDF` or an `HTTPError`. */
  predicate Retriable(e: DownloadError)
  {
    e.HttpError? || e.NotRdf?
  }

  /** `g.parse(data=data, format="turtle", publicID=uri)` */
  function Parse(data: string, uri: string, server: Server): Result<Fetched, FetchError>
  {
    match server.parse(data, uri)
    case None => Failure(ParseFailed(uri))
    case Some(g) => Success(Fetched(g, uri))
  }

  /** `fetch_rdf`: the graph at `uri`, or at its metadata endpoint after a retriable failure. */
  function FetchRdf(uri: string, server: Server): (r: Result<Fetched, FetchError>)
    ensures r.Success? ==> r.value.effectiveUri == uri || r.value.effectiveUri == MetadataUri(uri)
    ensures r.Success? ==> Download(r.value.effectiveUri, server).Success?
    ensures server.get(uri).Unreachable? ==> r == Failure(DownloadFailed(ConnectionFailed))
  {
    match Download(uri, server)
    case Success(data) => Parse(data, uri, server)
    case Failure(e) =>
      if !Retriable(e) || EndsWith(RStrip(uri, {'/'}), MetadataEndpoint) then Failure(DownloadFailed(e))
      else
        var alt := MetadataUri(uri);
        match Download(alt, server)
        case Failure(e2) => Failure(DownloadFailed(e2))
        case Success(data) => Parse(data, alt, server)
  }

  /**
   * The effective URI is the one that succeeded: either the URI asked for, downloaded
   * and parsed as it is, or -- only after an HTTP error or a non-RDF reply there, and
   * only when the URI does not already end with `fcr:metadata` -- its metadata endpoint.
   */
  lemma FetchRdfEffectiveUri(uri: string, server: Server)
    requires FetchRdf(uri, server).Success?
    ensures var f := FetchRdf(uri, server).value;
      Download(f.effectiveUri, server).Success?
      && server.parse(Download(f.effectiveUri, server).value, f.effectiveUri) == Some(f.graph)
      && (f.effectiveUri == uri || f.effectiveUri == MetadataUri(uri))
      && (f.effectiveUri != uri ==>
            Download(uri, server).Failure? && Retriable(Download(uri, server).error)
            && !EndsWith(RStrip(uri, {'/'}), MetadataEndpoint))
  {
  }

  /** A URI that downloads is parsed as it is, and is the effective URI; there is no retry. */
  lemma FetchRdfDirect(uri: string, server: Server)
    requires Download(uri, server).Success?
    ensures FetchRdf(uri, server).Success? <==> server.parse(Download(uri, server).value, uri).Some?
    ensures FetchRdf(uri, server).Success? ==>
      FetchRdf(uri, server).value == Fetched(server.parse(Download(uri, server).value, uri).value, uri)
    ensures FetchRdf(uri, server).Failure? ==> FetchRdf(uri, server) == Failure(ParseFailed(uri))
  {
  }

  /**
   * An HTTP error or a non-RDF reply at a URI not already ending with `fcr:metadata`
   * is retried once at the metadata endpoint, and that second attempt decides the result.
   */
  lemma FetchRdfRetries(uri: string, server: Server)
    requires Download(uri, server).Failure? && Retriable(Download(uri, server).error)
    requires !EndsWith(RStrip(uri, {'/'}), MetadataEndpoint)
    ensures var alt := MetadataUri(uri);
      FetchRdf(uri, server).Success? <==>
        Download(alt, server).Success? && server.parse(Download(alt, server).value, alt).Some?
    ensures FetchRdf(uri, server).Success? ==> FetchRdf(uri, server).value.effectiveUri == MetadataUri(uri)
    ensures var alt := MetadataUri(uri);
      Download(alt, server).Failure? ==> FetchRdf(uri, server) == Failure(DownloadFailed(Download(alt, server).error))
    ensures var alt := MetadataUri(uri);
      Download(alt, server).Success? && server.parse(Download(alt, server).value, alt).None? ==>
        FetchRdf(uri, server) == Failure(ParseFailed(alt))
  {
  }

  /** A URI already ending with `fcr:metadata` (before trailing slashes) is never retried: its error propagates. */
  lemma NoRetryOfMetadataUri(uri: string, server: Server)
    requires EndsWith(RStrip(uri, {'/'}), MetadataEndpoint)
    ensures Download(uri, server).Failure? ==> FetchRdf(uri, server) == Failure(DownloadFailed(Download(uri, server).error))
    ensures FetchRdf(uri, server).Success? ==> FetchRdf(uri, server).value.effectiveUri == uri
  {
  }

  /** A transport error is not one `fetch_rdf` catches: it propagates without a retry. */
  lemma UnreachableNotRetried(uri: string, server: Server)
    requires server.get(uri).Unreachable?
    ensures FetchRdf(uri, server) == Failure(DownloadFailed(ConnectionFailed))
  {
  }

  /** The metadata endpoint ends with `/fcr:metadata`, and cutting that off leaves the URI without its trailing slashes. */
  lemma MetadataUriBinary(uri: string)
    ensures EndsWith(MetadataUri(uri), "/" + MetadataEndpoint)
    ensures RSplitOnceHead(MetadataUri(uri), "/" + MetadataEndpoint) == RStrip(uri, {'/'})
  {
    var m := MetadataUri(uri);
    var suffix := "/" + MetadataEndpoint;
    var head := RStrip(uri, {'/'});
    assert m == head + suffix;
    assert m[|m| - |suffix|..] == suffix;
    RSplitOnceHeadOfSuffix(m, suffix);
    assert RSplitOnceHead(m, suffix) == m[..|m| - |suffix|] == head;
  }
}
