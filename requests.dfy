/**
 * The request DTOs of the application layer (server/src/application/dto): the Joi
 * schemas of `ScrapeDataRequest` and `PaginationRequest`, written out as the checks
 * they perform, in Joi's order (keys in schema order, the type check first, then the
 * rules as declared), stopping at the first failure as Joi does by default.
 */
module Requests {
  import opened Wrappers
  import opened Js

  /** A request body or query string: a property that is absent reads as `Undefined`. */
  type Fields = map<string, Value>

  function Field(data: Fields, key: string): Value
  {
    if key in data then data[key] else Undefined
  }

  // ---------------------------------------------------------------- ScrapeDataRequest

  /** A validated scrape request: the two strings exactly as they were sent. */
  datatype ScrapeDataRequest = ScrapeDataRequest(url: string, groupName: string)

  const UrlRequired := "URL is required"
  const UrlNotString := "\"url\" must be a string"
  const UrlEmpty := "\"url\" is not allowed to be empty"
  const UrlInvalid := "URL must be a valid URL"
  const GroupNameRequired := "Group name is required"
  const GroupNameNotString := "\"groupName\" must be a string"
  const GroupNameEmpty := "\"groupName\" is not allowed to be empty"
  const GroupNameTooShort := "Group name must be at least 1 character long"
  const GroupNameTooLong := "Group name must be at most 255 characters long"

  /** The `url` rule, `Joi.string().uri().required()`; `isUri` is Joi's RFC 3986 check. */
  function CheckUrl(isUri: string -> bool, v: Value): (r: Result<string>)
    ensures r.Ok? <==> v.Str? && v.s != [] && isUri(v.s)
    ensures r.Ok? ==> r.value == v.s
    ensures v.Undefined? ==> r == Err(UrlRequired)
    ensures v.Str? && v.s != [] && !isUri(v.s) ==> r == Err(UrlInvalid)
  {
    match v
    case Undefined => Err(UrlRequired)
    case Str(s) =>
      if s == [] then Err(UrlEmpty)
      else if !isUri(s) then Err(UrlInvalid)
      else Ok(s)
    case _ => Err(UrlNotString)
  }

  /**
   * The `groupName` rule, `Joi.string().min(1).max(255).required()`. An empty string
   * already fails Joi's `string.empty` check, so the `min` message is never produced.
   */
  function CheckGroupName(v: Value): (r: Result<string>)
    ensures r.Ok? <==> v.Str? && 1 <= |v.s| <= 255
    ensures r.Ok? ==> r.value == v.s
    ensures v.Undefined? ==> r == Err(GroupNameRequired)
    ensures v.Str? && |v.s| > 255 ==> r == Err(GroupNameTooLong)
    ensures r != Err(GroupNameTooShort)
  {
    match v
    case Undefined => Err(GroupNameRequired)
    case Str(s) =>
      if s == [] then Err(GroupNameEmpty)
      else if |s| < 1 then Err(GroupNameTooShort)
      else if |s| > 255 then Err(GroupNameTooLong)
      else Ok(s)
    case _ => Err(GroupNameNotString)
  }

  /**
   * `ScrapeDataRequest.fromRequest(req)`: the request when both rules pass, otherwise an
   * error carrying the first failure's message, `url` being checked first. No trimming
   * or cleaning happens here.
   */
  function ScrapeFromRequest(isUri: string -> bool, body: Fields): (r: Result<ScrapeDataRequest>)
    ensures r.Ok? <==> CheckUrl(isUri, Field(body, "url")).Ok? && CheckGroupName(Field(body, "groupName")).Ok?
    ensures r.Ok? ==> Str(r.value.url) == Field(body, "url") && Str(r.value.groupName) == Field(body, "groupName")
    ensures CheckUrl(isUri, Field(body, "url")).Err? ==> r == Err(CheckUrl(isUri, Field(body, "url")).message)
    ensures CheckUrl(isUri, Field(body, "url")).Ok? && CheckGroupName(Field(body, "groupName")).Err? ==>
              r == Err(CheckGroupName(Field(body, "groupName")).message)
  {
    match CheckUrl(isUri, Field(body, "url"))
    case Err(m) => Err(m)
    case Ok(url) =>
      match CheckGroupName(Field(body, "groupName"))
      case Err(m) => Err(m)
      case Ok(name) => Ok(ScrapeDataRequest(url, name))
  }

  /** An accepted group name is 1 to 255 characters long, and it reaches the controller untrimmed. */
  lemma AcceptedGroupNameBounds(isUri: string -> bool, body: Fields)
    requires ScrapeFromRequest(isUri, body).Ok?
    ensures 1 <= |ScrapeFromRequest(isUri, body).value.groupName| <= 255
    ensures isUri(ScrapeFromRequest(isUri, body).value.url)
  {
  }

  // ---------------------------------------------------------------- PaginationRequest

  /** A validated page request. */
  datatype PaginationRequest = PaginationRequest(page: int, limit: int)
  {
    /** `getOffset`: how many items the pages before this one hold. */
    function GetOffset(): (n: int)
      ensures page >= 1 && limit >= 0 ==> n >= 0
      ensures page >= 1 ==> n == (page - 1) * limit
    {
      (page - 1) * limit
    }
  }

  /** `new PaginationRequest()`: page 1, limit 10. */
  function NewPaginationRequest(page: int := 1, limit: int := 10): (r: PaginationRequest)
    ensures r.page == page && r.limit == limit
  {
    PaginationRequest(page, limit)
  }

  const DefaultPage := 1
  const DefaultLimit := 10

  /**
   * The messages of one numeric field: not a number, not a safe number, not an integer,
   * too small, too large. The unsafe message is Joi's default, which the schema keeps.
   */
  datatype NumberMessages = NumberMessages(base: string, unsafe: string, integer: string, min: string, max: string)

  const PageMessages := NumberMessages("Page must be a number", "\"page\" must be a safe number", "Page must be an integer", "Page must be at least 1", "")
  const LimitMessages := NumberMessages("Limit must be a number", "\"limit\" must be a safe number", "Limit must be an integer", "Limit must be at least 1", "Limit must be at most 100")

  /**
   * Joi's conversion of a query string to a number: text that is not a decimal number,
   * text whose digits do not survive the conversion to a double (`number.unsafe`), or
   * the number it converts to.
   */
  datatype Conversion = NotNumeric | LosesDigits | Converted(x: real)

  /** `Number.MAX_SAFE_INTEGER`, 2^53 - 1. */
  const MaxSafeInteger: int := 0x1F_FFFF_FFFF_FFFF

  /** Within the range `number()` accepts unless `unsafe()` is allowed. */
  predicate IsSafe(x: real)
  {
    -(MaxSafeInteger as real) <= x <= MaxSafeInteger as real
  }

  predicate IsInteger(x: real)
  {
    x.Floor as real == x
  }

  /**
   * `Joi.number().integer().min(1)[.max(hi)].default(d)`: an absent field takes the
   * default; a string goes through `toNumber`, Joi's conversion of a query string;
   * then the base check refuses a number outside the safe range, and the rules run in
   * order. `hi` is None where there is no maximum.
   */
  function CheckNumber(toNumber: string -> Conversion, v: Value, default: int, hi: Option<int>, msgs: NumberMessages): (r: Result<int>)
    ensures v.Undefined? ==> r == Ok(default)
    ensures !v.Undefined? ==> (r.Ok? <==> exists x :: AsNumber(toNumber, v) == Converted(x) && IsSafe(x) && IsInteger(x) && 1.0 <= x && (hi.None? || x <= hi.value as real))
    ensures !v.Undefined? && r.Ok? ==>
      && 1 <= r.value <= MaxSafeInteger && (hi.None? || r.value <= hi.value) && AsNumber(toNumber, v) == Converted(r.value as real)
    ensures r.Err? ==> r.message in {msgs.base, msgs.unsafe, msgs.integer, msgs.min, msgs.max}
    ensures !v.Undefined? && AsNumber(toNumber, v).NotNumeric? ==> r == Err(msgs.base)
    ensures !v.Undefined? && AsNumber(toNumber, v).LosesDigits? ==> r == Err(msgs.unsafe)
    ensures !v.Undefined? && AsNumber(toNumber, v).Converted? ==>
      var x := AsNumber(toNumber, v).x;
      && (!IsSafe(x) ==> r == Err(msgs.unsafe))
      && (IsSafe(x) && !IsInteger(x) ==> r == Err(msgs.integer))
      && (IsSafe(x) && IsInteger(x) && x < 1.0 ==> r == Err(msgs.min))
      && (IsSafe(x) && IsInteger(x) && 1.0 <= x && hi.Some? && x > hi.value as real ==> r == Err(msgs.max))
  {
    if v.Undefined? then Ok(default)
    else match AsNumber(toNumber, v)
      case NotNumeric => Err(msgs.base)
      case LosesDigits => Err(msgs.unsafe)
      case Converted(x) =>
        if !IsSafe(x) then Err(msgs.unsafe)
        else if !IsInteger(x) then Err(msgs.integer)
        else if x < 1.0 then Err(msgs.min)
        else if hi.Some? && x > hi.value as real then Err(msgs.max)
        else Ok(x.Floor)
  }

  /** The number Joi sees: a number as it is, a string converted, anything else not a number. */
  function AsNumber(toNumber: string -> Conversion, v: Value): Conversion
  {
    match v
    case Num(n) => Converted(n)
    case Str(s) => toNumber(s)
    case _ => NotNumeric
  }

  /** `PaginationRequest.fromRequest(req)`: page checked first, then limit; the first failure is thrown. */
  function PaginationFromRequest(toNumber: string -> Conversion, query: Fields): (r: Result<PaginationRequest>)
    ensures r.Ok? ==> r.value.page >= 1 && 1 <= r.value.limit <= 100
    ensures Field(query, "page").Undefined? && Field(query, "limit").Undefined? ==> r == Ok(PaginationRequest(1, 10))
    ensures r.Ok? <==> CheckNumber(toNumber, Field(query, "page"), DefaultPage, None, PageMessages).Ok?
                       && CheckNumber(toNumber, Field(query, "limit"), DefaultLimit, Some(100), LimitMessages).Ok?
    ensures CheckNumber(toNumber, Field(query, "page"), DefaultPage, None, PageMessages).Err? ==>
              r == Err(CheckNumber(toNumber, Field(query, "page"), DefaultPage, None, PageMessages).message)
    ensures CheckNumber(toNumber, Field(query, "page"), DefaultPage, None, PageMessages).Ok?
            && CheckNumber(toNumber, Field(query, "limit"), DefaultLimit, Some(100), LimitMessages).Err? ==>
              r == Err(CheckNumber(toNumber, Field(query, "limit"), DefaultLimit, Some(100), LimitMessages).message)
  {
    match CheckNumber(toNumber, Field(query, "page"), DefaultPage, None, PageMessages)
    case Err(m) => Err(m)
    case Ok(page) =>
      match CheckNumber(toNumber, Field(query, "limit"), DefaultLimit, Some(100), LimitMessages)
      case Err(m) => Err(m)
      case Ok(limit) => Ok(NewPaginationRequest(page, limit))
  }

  /**
   * For an accepted request the offset is `page - 1` whole pages of `limit` items:
   * non-negative, and one page short of `page * limit`.
   */
  lemma OffsetOfAccepted(toNumber: string -> Conversion, query: Fields)
    requires PaginationFromRequest(toNumber, query).Ok?
    ensures var p := PaginationFromRequest(toNumber, query).value;
      && p.GetOffset() >= 0
      && p.GetOffset() == (p.page - 1) * p.limit && p.page - 1 >= 0
      && p.GetOffset() + p.limit == p.page * p.limit
  {
  }

  /**
   * A page number past 2^53 - 1, such as `?page=9007199254740993` (whose digits the
   * conversion to a double loses, or which converts to 2^53), is refused with Joi's unsafe-number message rather than served as an
   * empty page.
   */
  lemma UnsafePageRefused(toNumber: string -> Conversion, query: Fields)
    requires Field(query, "page") == Str("9007199254740993")
    requires || toNumber("9007199254740993").LosesDigits?
             || (toNumber("9007199254740993").Converted? && toNumber("9007199254740993").x > MaxSafeInteger as real)
    ensures PaginationFromRequest(toNumber, query) == Err("\"page\" must be a safe number")
  {
  }
}
