/**
 * `ErrorHandler` (server/src/application/middleware/ErrorHandler.js): the Express error
 * middleware, which turns a thrown error into a status code and a JSON body by looking
 * for fixed words in the error's message, and the 404 handler for unknown routes.
 */
module ErrorHandler {
  import opened Wrappers
  import opened Text

  /** A thrown error: its `message` (None where it has none) and the `statusCode` some callers attach. */
  datatype JsError = JsError(message: Option<string>, statusCode: Option<int>)

  /** The JSON body of an error response; `details` is present only for database errors. */
  datatype ErrorResponse = ErrorResponse(success: bool, error: string, code: string, details: Option<string>)

  /** One branch of the classification chain: the word looked for, the status and the code. */
  datatype Rule = Rule(needle: string, status: int, code: string)

  /** The branches in the order the chain tests them. */
  const Rules: seq<Rule> := [
    Rule("validation", 400, "VALIDATION_ERROR"),
    Rule("URL", 400, "INVALID_URL"),
    Rule("scrape", 400, "SCRAPING_FAILED"),
    Rule("not found", 404, "GROUP_NOT_FOUND"),
    Rule("already exists", 409, "GROUP_EXISTS"),
    Rule("database", 500, "DATABASE_ERROR")]

  const DatabaseRule := 5
  const InternalStatus := 500
  const InternalCode := "INTERNAL_SERVER_ERROR"
  const InternalMessage := "Internal server error"
  const DatabaseMessage := "Database operation failed"

  /** The first rule at or after `k`, in order, whose word occurs in `m`. */
  function FirstHit(m: string, k: nat): (r: Option<nat>)
    requires k <= |Rules|
    ensures r.Some? ==> k <= r.value < |Rules| && Contains(m, Rules[r.value].needle)
    ensures r.Some? ==> forall j :: k <= j < r.value ==> !Contains(m, Rules[j].needle)
    ensures r.None? ==> forall j :: k <= j < |Rules| ==> !Contains(m, Rules[j].needle)
    decreases |Rules| - k
  {
    if k == |Rules| then None
    else if Contains(m, Rules[k].needle) then Some(k)
    else FirstHit(m, k + 1)
  }

  /**
   * The classification the chain performs: the index of the first rule (in order)
   * whose word occurs in the message, case-sensitively; None for no message, an empty
   * one, or one holding none of the words.
   */
  function Classify(message: Option<string>): (k: Option<nat>)
    ensures k.Some? ==> message.Some? && k.value < |Rules| && Contains(message.value, Rules[k.value].needle)
    ensures k.Some? ==> forall j :: 0 <= j < k.value ==> !Contains(message.value, Rules[j].needle)
    ensures k.None? && message.Some? ==> forall j :: 0 <= j < |Rules| ==> !Contains(message.value, Rules[j].needle)
  {
    match message
    case None => None
    case Some(m) =>
      if m == [] then
        assert forall j :: 0 <= j < |Rules| ==> !Contains(m, Rules[j].needle);
        None
      else FirstHit(m, 0)
  }

  /** The search over the table, spelled out rule by rule. */
  lemma FirstHitChain(m: string)
    ensures FirstHit(m, 0) ==
      if Contains(m, "validation") then Some(0)
      else if Contains(m, "URL") then Some(1)
      else if Contains(m, "scrape") then Some(2)
      else if Contains(m, "not found") then Some(3)
      else if Contains(m, "already exists") then Some(4)
      else if Contains(m, "database") then Some(5)
      else None
  {
    assert FirstHit(m, 6) == None;
    assert FirstHit(m, 5) == if Contains(m, "database") then Some(5) else None;
    assert FirstHit(m, 4) == if Contains(m, "already exists") then Some(4) else FirstHit(m, 5);
    assert FirstHit(m, 3) == if Contains(m, "not found") then Some(3) else FirstHit(m, 4);
    assert FirstHit(m, 2) == if Contains(m, "scrape") then Some(2) else FirstHit(m, 3);
    assert FirstHit(m, 1) == if Contains(m, "URL") then Some(1) else FirstHit(m, 2);
  }

  /** The status and body that the classification calls for. */
  function Respond(err: JsError): (s: (int, ErrorResponse))
    ensures !s.1.success
    ensures Classify(err.message).None? ==> s.0 == InternalStatus && s.1.code == InternalCode
    ensures Classify(err.message).Some? ==>
      s.0 == Rules[Classify(err.message).value].status && s.1.code == Rules[Classify(err.message).value].code
  {
    match Classify(err.message)
    case None => (InternalStatus, ErrorResponse(false, InternalMessage, InternalCode, None))
    case Some(k) =>
      if k == DatabaseRule then (Rules[k].status, ErrorResponse(false, DatabaseMessage, Rules[k].code, err.message))
      else (Rules[k].status, ErrorResponse(false, err.message.value, Rules[k].code, None))
  }

  /** `err.message && err.message.includes(word)`. */
  predicate Mentions(err: JsError, word: string)
  {
    err.message.Some? && err.message.value != [] && Contains(err.message.value, word)
  }

  /**
   * `ErrorHandler.handle`: starts from the 500 default and runs the if/else chain over
   * the locals, then builds the body, adding `details` only when one was set.
   */
  method Handle(err: JsError) returns (status: int, body: ErrorResponse)
    ensures (status, body) == Respond(err)
  {
    if err.message.Some? {
      FirstHitChain(err.message.value);
    }
    status := InternalStatus;
    var errorCode := InternalCode;
    var message := InternalMessage;
    var details: Option<string> := None;

    if Mentions(err, "validation") {
      status, errorCode, message := 400, "VALIDATION_ERROR", err.message.value;
    } else if Mentions(err, "URL") {
      status, errorCode, message := 400, "INVALID_URL", err.message.value;
    } else if Mentions(err, "scrape") {
      status, errorCode, message := 400, "SCRAPING_FAILED", err.message.value;
    } else if Mentions(err, "not found") {
      status, errorCode, message := 404, "GROUP_NOT_FOUND", err.message.value;
    } else if Mentions(err, "already exists") {
      status, errorCode, message := 409, "GROUP_EXISTS", err.message.value;
    } else if Mentions(err, "database") {
      status, errorCode, message := 500, "DATABASE_ERROR", DatabaseMessage;
      details := err.message;
    }

    body := ErrorResponse(false, message, errorCode, if details.Some? && details.value != [] then details else None);
  }

  /**
   * Only a database error carries `details`, holding the original message, and only it
   * replaces the message; every other hit echoes the original message.
   */
  lemma DetailsOnlyForDatabase(err: JsError)
    ensures Respond(err).1.details.Some? <==> Classify(err.message) == Some(DatabaseRule)
    ensures Respond(err).1.details.Some? ==> Respond(err).1.details == err.message && Respond(err).1.error == DatabaseMessage
    ensures Classify(err.message).Some? && Classify(err.message) != Some(DatabaseRule) ==> Respond(err).1.error == err.message.value
    ensures Classify(err.message).None? ==> Respond(err) == (500, ErrorResponse(false, InternalMessage, InternalCode, None))
  {
  }

  /** The status code attached to an error plays no part: only the message decides. */
  lemma StatusCodeIgnored(err: JsError, code: Option<int>)
    ensures Respond(err) == Respond(err.(statusCode := code))
  {
  }

  const ScrapePrefix := "Failed to scrape URL: "

  lemma ScrapePrefixMentionsUrl()
    ensures Contains(ScrapePrefix, "URL")
  {
    assert ScrapePrefix[17..20] == "URL";
    assert OccursAt(ScrapePrefix, "URL", 17);
  }

  /**
   * A wrapped scrape failure is never classified as SCRAPING_FAILED: the "URL" in its
   * own prefix is found first, so it is INVALID_URL unless it says "validation".
   */
  lemma ScrapeFailureIsInvalidUrl(original: string)
    ensures var k := Classify(Some(ScrapePrefix + original));
      k == if Contains(ScrapePrefix + original, "validation") then Some(0) else Some(1)
    ensures Respond(JsError(Some(ScrapePrefix + original), None)).1.code != "SCRAPING_FAILED"
  {
    ScrapePrefixMentionsUrl();
    ContainsLeft(ScrapePrefix, original, "URL");
    FirstHitChain(ScrapePrefix + original);
  }

  /** `ErrorHandler.notFound`: the error passed on for an unknown route, with status 404 attached. */
  function NotFound(originalUrl: string): (e: JsError)
    ensures e.statusCode == Some(404)
    ensures e.message.Some? && Contains(e.message.value, "not found")
  {
    var m := "Route " + originalUrl + " not found";
    assert m[|m| - 9..] == "not found";
    assert OccursAt(m, "not found", |m| - 9);
    JsError(Some(m), Some(404))
  }

  /**
   * An unknown route is answered as GROUP_NOT_FOUND with 404, by its text alone, unless
   * its path holds one of the words tested earlier (then it is a 400).
   */
  lemma UnknownRouteResponse(originalUrl: string)
    ensures var m := NotFound(originalUrl).message.value;
      Classify(Some(m)).Some? && Classify(Some(m)).value <= 3
    ensures var m := NotFound(originalUrl).message.value;
      (forall j :: 0 <= j < 3 ==> !Contains(m, Rules[j].needle)) ==>
        Respond(NotFound(originalUrl)).0 == 404 && Respond(NotFound(originalUrl)).1.code == "GROUP_NOT_FOUND"
  {
    var m := NotFound(originalUrl).message.value;
    assert Rules[3].needle == "not found";
  }
}
