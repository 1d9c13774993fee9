/** The request-side vocabulary shared by the prefilters and the models: an
    outgoing request as the prefilters see it, a header they set, and the
    description of a collection fetch. */
module Http {
  import opened JsValues

  /** An outgoing request: its method (`verb`) and whether it targets another origin. */
  datatype Request = Request(verb: string, crossDomain: bool)

  /** A request header. A `None` value is the `null` the CSRF prefilter passes
      when no CSRF cookie exists. */
  datatype Header = Header(name: string, value: Option<string>)

  /** What a prefilter chain leaves behind: the headers set, in order, or an
      exception that aborts the request. */
  datatype Prefiltered = Proceed(headers: seq<Header>) | Throws(encoded: string)

  /** A collection fetch: the address (`None` means the collection's own
      address), whether models missing from the reply are dropped from the
      client-side cache, and the query parameters. */
  datatype FetchRequest = FetchRequest(url: Option<string>, remove: bool, query: map<string, string>)

  /** A fetch that only adds or updates models and never drops one. */
  predicate KeepsResident(f: FetchRequest) {
    !f.remove
  }

  /** Whether a header with the given name is among `headers`. */
  predicate HasHeader(headers: seq<Header>, name: string) {
    exists i :: 0 <= i < |headers| && headers[i].name == name
  }

  /** A header is in a concatenation exactly when it is in one of the parts. */
  lemma HasHeaderConcat(a: seq<Header>, b: seq<Header>, name: string)
    ensures HasHeader(a + b, name) <==> HasHeader(a, name) || HasHeader(b, name)
  {
    if HasHeader(a + b, name) {
      var i :| 0 <= i < |a + b| && (a + b)[i].name == name;
      if i >= |a| {
        assert b[i - |a|].name == name;
      }
    }
    if HasHeader(b, name) {
      var i :| 0 <= i < |b| && b[i].name == name;
      assert (a + b)[|a| + i].name == name;
    }
    if HasHeader(a, name) {
      var i :| 0 <= i < |a| && a[i].name == name;
      assert (a + b)[i].name == name;
    }
  }
}
