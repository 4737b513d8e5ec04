/**
 The edge response function itself. The host hands it an event object whose
 `response` field refers to the response object, whose `headers` field in turn
 refers to a header table object; the function writes the seven policy headers
 into that table in place and returns the very response object it was given.
 */
module SecurityHeaders {
  import opened HeaderPolicy

  /** The header table object `response.headers`, updated in place. */
  class HeaderTable {
    var entries: map<string, Descriptor>

    constructor (entries: map<string, Descriptor>)
      ensures this.entries == entries
    {
      this.entries := entries;
    }
  }

  /** The response object. The function reads `headers` and nothing else;
      the status fields stand for everything it passes through. */
  class Response {
    var statusCode: int
    var statusDescription: string
    var headers: HeaderTable?

    constructor (statusCode: int, statusDescription: string, headers: HeaderTable?)
      ensures this.statusCode == statusCode && this.statusDescription == statusDescription
      ensures this.headers == headers
    {
      this.statusCode := statusCode;
      this.statusDescription := statusDescription;
      this.headers := headers;
    }
  }

  /** The event the host passes in; only its `response` field is read. */
  class Event {
    var response: Response?

    constructor (response: Response?)
      ensures this.response == response
    {
      this.response := response;
    }
  }

  /** The TypeError the function throws on a malformed event. */
  datatype TypeError =
    | ResponseMissing   // reading `response.headers` of an undefined response
    | HeadersMissing    // assigning a key of an undefined header table

  /** How a call ends: it returns a response object, or it throws. */
  datatype Outcome = Returned(response: Response) | Threw(error: TypeError)

  /** The header table the function writes, if the event reaches one. */
  function Target(event: Event): set<object>
    reads event, event.response
  {
    if event.response != null && event.response.headers != null
    then {event.response.headers}
    else {}
  }

  /** The function `handler(event)`. On a well-formed event it writes the seven
      policy headers into the response's header table and returns that same
      response; every other header, every other field of the response and the
      event itself are left as they were. On a malformed event it throws
      before writing anything. */
  method Handler(event: Event) returns (outcome: Outcome)
    modifies Target(event)
    ensures unchanged(event)
    ensures event.response != null ==> unchanged(event.response)
    ensures event.response == null ==> outcome == Threw(ResponseMissing)
    ensures event.response != null && event.response.headers == null ==>
      outcome == Threw(HeadersMissing)
    ensures event.response != null && event.response.headers != null ==>
      && outcome == Returned(event.response)
      && event.response.headers.entries == ApplyPolicy(old(event.response.headers.entries))
  {
    var response := event.response;
    if response == null {
      return Threw(ResponseMissing);
    }
    var headers := response.headers;
    if headers == null {
      return Threw(HeadersMissing);
    }
    ghost var before := headers.entries;
    headers.entries := headers.entries["strict-transport-security" :=
      Fresh("max-age=63072000; includeSubdomains; preload")];
    headers.entries := headers.entries["content-security-policy" :=
      Fresh("default-src 'self'; script-src 'self' 'unsafe-inline'; style-src 'self' 'unsafe-inline'; img-src 'self' data: https:; font-src 'self'; connect-src 'self'")];
    headers.entries := headers.entries["x-content-type-options" :=
      Fresh("nosniff")];
    headers.entries := headers.entries["x-frame-options" :=
      Fresh("DENY")];
    headers.entries := headers.entries["x-xss-protection" :=
      Fresh("1; mode=block")];
    headers.entries := headers.entries["referrer-policy" :=
      Fresh("strict-origin-when-cross-origin")];
    headers.entries := headers.entries["permissions-policy" :=
      Fresh("geolocation=(), microphone=(), camera=()")];
    WritesAreUnion(before, headers.entries);
    ApplyPolicyIsUnion(before);
    return Returned(response);
  }

  /** The seven assignment statements of Handler, one after the other, amount
      to overriding the old table with the policy table. */
  lemma WritesAreUnion(before: map<string, Descriptor>, after: map<string, Descriptor>)
    requires after == before[
      "strict-transport-security" := Fresh("max-age=63072000; includeSubdomains; preload")][
      "content-security-policy" := Fresh("default-src 'self'; script-src 'self' 'unsafe-inline'; style-src 'self' 'unsafe-inline'; img-src 'self' data: https:; font-src 'self'; connect-src 'self'")][
      "x-content-type-options" := Fresh("nosniff")][
      "x-frame-options" := Fresh("DENY")][
      "x-xss-protection" := Fresh("1; mode=block")][
      "referrer-policy" := Fresh("strict-origin-when-cross-origin")][
      "permissions-policy" := Fresh("geolocation=(), microphone=(), camera=()")]
    ensures after == before + PolicyTable
  {
  }

  /** Calling the function twice on the same event: both calls end the same
      way, and the header table ends as one call leaves it. */
  method HandleTwice(event: Event) returns (first: Outcome, second: Outcome)
    modifies Target(event)
    ensures unchanged(event)
    ensures event.response != null ==> unchanged(event.response)
    ensures event.response == null ==>
      first == Threw(ResponseMissing) && second == Threw(ResponseMissing)
    ensures event.response != null && event.response.headers == null ==>
      first == Threw(HeadersMissing) && second == Threw(HeadersMissing)
    ensures event.response != null && event.response.headers != null ==>
      && first == Returned(event.response)
      && second == Returned(event.response)
      && event.response.headers.entries == ApplyPolicy(old(event.response.headers.entries))
  {
    first := Handler(event);
    second := Handler(event);
    if event.response != null && event.response.headers != null {
      Idempotent(old(event.response.headers.entries));
    }
  }
}
