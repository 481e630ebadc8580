/**
 * The value objects of the domain layer (server/src/domain/value-objects): each one
 * checks its input once, in the constructor, and then only hands the stored value out.
 * A constructor that throws is a function returning `Err(message)`.
 */
module ValueObjects {
  import opened Wrappers
  import opened Js
  import opened Text
  import opened StringCleaner
  import opened WhatwgUrl

  // ---------------------------------------------------------------- BaseValueObject

  /** A `BaseValueObject`: `value` is `Undefined` or a cleaned string. */
  datatype BaseValue = BaseValue(value: Value)
  {
    function GetValue(): Value { value }

    function ToString(): Value { value }
  }

  /**
   * `new BaseValueObject(v)` stores `clean(v)?.trim()`: a null from `clean` becomes
   * `undefined` through the optional chain, and the trim finds nothing left to cut.
   */
  function NewBase(v: Value): (b: BaseValue)
    ensures Clean(v).None? ==> b.value == Undefined
    ensures Clean(v).Some? ==> b.value == Str(Clean(v).value)
    ensures b.value.Str? ==> CleanShape(b.value.s)
  {
    match Clean(v)
    case Some(c) =>
      TrimOfTrimmed(c);
      BaseValue(Str(Trim(c)))
    case None => BaseValue(Undefined)
  }

  /** Both getters hand out the cleaned input, or `undefined` where cleaning left nothing; never `null` or "". */
  lemma BaseGettersReturnCleaned(v: Value)
    ensures NewBase(v).GetValue() == NewBase(v).ToString()
    ensures NewBase(v).GetValue() == (if Clean(v).Some? then Str(Clean(v).value) else Undefined)
    ensures NewBase(v).GetValue() != Null && NewBase(v).GetValue() != Str([])
  {
  }

  const NotImplemented := "Method not implemented"

  /** `BaseValueObject.prototype.isValid`: abstract, it throws for every argument. */
  function BaseIsValid(v: Value): (r: Result<bool>)
    ensures r.Err? && r.message == NotImplemented
  {
    Err(NotImplemented)
  }

  // ---------------------------------------------------------------- GroupName

  /**
   * The static guard `BaseValueObject.isValidString` that the `GroupName` constructor
   * calls before `super`: `Ok(b)` is a returned verdict, `Err(m)` a thrown error.
   */
  type Guard = Value -> Result<bool>

  /** `BaseValueObject` defines no `isValidString`, so calling it throws this TypeError. */
  const MissingGuard := "BaseValueObject.isValidString is not a function"

  /** The guard as the code has it: an undefined static, whose call throws for every argument. */
  function AsWrittenGuard(v: Value): Result<bool>
  {
    Err(MissingGuard)
  }

  /** The guard the constructor evidently means: a string with something besides whitespace. */
  function IntendedGuard(v: Value): Result<bool>
  {
    Ok(v.Str? && Trim(v.s) != [])
  }

  const InvalidGroupName := "Invalid group name"

  /** A `GroupName`: a `BaseValueObject` whose input passed the guard. */
  datatype GroupName = GroupName(value: Value)
  {
    function GetValue(): Value { value }
  }

  /**
   * `new GroupName(v)`: the guard runs first; an error it throws propagates, a false
   * verdict throws "Invalid group name", and only a true verdict reaches `super(v)`.
   */
  function NewGroupName(guard: Guard, v: Value): (r: Result<GroupName>)
    ensures guard(v).Err? ==> r == Err(guard(v).message)
    ensures guard(v) == Ok(false) ==> r == Err(InvalidGroupName)
    ensures guard(v) == Ok(true) ==> r == Ok(GroupName(NewBase(v).value))
  {
    match guard(v)
    case Err(m) => Err(m)
    case Ok(ok) => if ok then Ok(GroupName(NewBase(v).value)) else Err(InvalidGroupName)
  }

  /** As written, no group name can be built: every construction throws the TypeError. */
  lemma AsWrittenGroupNameThrows(v: Value)
    ensures NewGroupName(AsWrittenGuard, v) == Err(MissingGuard)
  {
  }

  /**
   * With the intended guard, a group name is built exactly for a string that is not
   * all whitespace, and it holds the cleaned name (`undefined` when only markup was given).
   */
  lemma IntendedGroupName(v: Value)
    ensures NewGroupName(IntendedGuard, v).Ok? <==> v.Str? && !AllSpace(v.s)
    ensures NewGroupName(IntendedGuard, v).Err? ==> NewGroupName(IntendedGuard, v).message == InvalidGroupName
    ensures NewGroupName(IntendedGuard, v).Ok? ==>
      NewGroupName(IntendedGuard, v).value.GetValue() == (if Clean(v).Some? then Str(Clean(v).value) else Undefined)
  {
  }

  // ---------------------------------------------------------------- BookTitle

  const EmptyTitle := "Book title cannot be empty"

  /** A `BookTitle`: the trimmed title text. */
  datatype BookTitle = BookTitle(value: string)
  {
    function GetValue(): string { value }

    function ToString(): string { value }
  }

  /** `BookTitle.prototype.isValid`: a string whose trim is not empty. */
  predicate IsValidTitle(v: Value)
  {
    v.Str? && |Trim(v.s)| > 0
  }

  /**
   * `new BookTitle(v)`: a string that is not all whitespace is stored trimmed;
   * anything else throws "Book title cannot be empty".
   */
  function NewBookTitle(v: Value): (r: Result<BookTitle>)
    ensures r.Ok? <==> v.Str? && !AllSpace(v.s)
    ensures r.Err? ==> r.message == EmptyTitle
    ensures r.Ok? ==> r.value.value != [] && Trimmed(r.value.value)
    ensures r.Ok? ==> exists k :: TrimSplit(v.s, r.value.value, k)
  {
    if !IsValidTitle(v) then Err(EmptyTitle) else Ok(BookTitle(Trim(v.s)))
  }

  /** Only trimming is applied: markup and entities in a title stay as they are. */
  lemma {:induction false} TitleIsNotCleaned(s: string)
    requires s != [] && Trimmed(s)
    ensures NewBookTitle(Str(s)) == Ok(BookTitle(s))
  {
    TrimOfTrimmed(s);
  }

  // ---------------------------------------------------------------- EditionInfo

  /** `value.trim()` on a truthy non-string throws this TypeError. */
  const TrimNotAFunction := "value.trim is not a function"

  /** An `EditionInfo`: None for a falsy input, otherwise the trimmed text (possibly ""). */
  datatype EditionInfo = EditionInfo(value: Option<string>)
  {
    function GetValue(): Option<string> { value }

    /** A stored, non-empty edition. */
    predicate HasValue()
    {
      value.Some? && |value.value| > 0
    }
  }

  /** `new EditionInfo(v)`: `v ? v.trim() : null`. */
  function NewEditionInfo(v: Value): (r: Result<EditionInfo>)
    ensures !Truthy(v) ==> r == Ok(EditionInfo(None))
    ensures r.Err? <==> Truthy(v) && !v.Str?
    ensures r.Err? ==> r.message == TrimNotAFunction
    ensures v.Str? && v.s != [] ==> r.Ok? && r.value.value.Some? && exists k :: TrimSplit(v.s, r.value.value.value, k)
    ensures r.Ok? && r.value.value.Some? ==> Trimmed(r.value.value.value)
    ensures r.Ok? ==> (r.value.HasValue() <==> v.Str? && !AllSpace(v.s))
  {
    if !Truthy(v) then Ok(EditionInfo(None))
    else if v.Str? then Ok(EditionInfo(Some(Trim(v.s))))
    else Err(TrimNotAFunction)
  }

  /** A whitespace-only edition is stored as "" rather than null, and has no value. */
  lemma BlankEditionIsEmptyString(s: string)
    requires s != [] && AllSpace(s)
    ensures NewEditionInfo(Str(s)) == Ok(EditionInfo(Some([])))
    ensures !NewEditionInfo(Str(s)).value.HasValue()
  {
  }

  // ---------------------------------------------------------------- Url

  const InvalidUrlFormat := "Invalid URL format"

  /** A `Url`: the input exactly as given, once it parsed. */
  datatype Url = Url(value: string)
  {
    function GetValue(): string { value }

    function ToString(): string { value }
  }

  /** `Url.prototype.isValid`: `new URL(v)` does not throw, whatever the scheme. */
  predicate IsValidUrl(p: UrlParser, v: Value)
  {
    v.Str? && p.parse(v.s, None).Some?
  }

  /**
   * `new Url(v)`: accepted iff it parses as an absolute URL, with any scheme, and then
   * stored as given (not in the parser's serialisation); otherwise "Invalid URL format".
   */
  function NewUrlValue(p: UrlParser, v: Value): (r: Result<Url>)
    ensures r.Ok? <==> v.Str? && p.parse(v.s, None).Some?
    ensures r.Ok? ==> r.value.value == v.s
    ensures r.Err? ==> r.message == InvalidUrlFormat
  {
    if !IsValidUrl(p, v) then Err(InvalidUrlFormat) else Ok(Url(v.s))
  }

  /** A URL is stored verbatim even where the parser's `href` differs from it. */
  lemma UrlStoredVerbatim(p: UrlParser, s: string)
    requires p.parse(s, None).Some? && p.parse(s, None).value.href != s
    ensures NewUrlValue(p, Str(s)).Ok?
    ensures NewUrlValue(p, Str(s)).value.GetValue() != p.parse(s, None).value.href
  {
  }

  // ---------------------------------------------------------------- ImageUrl

  const InvalidImageUrl := "Invalid image URL format"

  /** An `ImageUrl`: the input unchanged, which may be a falsy value. */
  datatype ImageUrl = ImageUrl(value: Value)
  {
    function GetValue(): Value { value }

    function ToString(): Value { value }

    /** Neither null nor undefined: a stored "" counts as a value. */
    predicate HasValue()
    {
      value != Null && value != Undefined
    }
  }

  /** `ImageUrl.prototype.isValid`: parses, and the protocol is "http:" or "https:". */
  predicate IsHttpUrl(p: UrlParser, v: Value)
  {
    v.Str? && p.parse(v.s, None).Some? && p.parse(v.s, None).value.protocol in {"http:", "https:"}
  }

  /** `new ImageUrl(v)`: a falsy input is stored unchecked; a truthy one must be an http(s) URL. */
  function NewImageUrl(p: UrlParser, v: Value): (r: Result<ImageUrl>)
    ensures !Truthy(v) ==> r == Ok(ImageUrl(v))
    ensures Truthy(v) ==> (r.Ok? <==> v.Str? && p.parse(v.s, None).Some? &&
                                      (p.parse(v.s, None).value.protocol == "http:" || p.parse(v.s, None).value.protocol == "https:"))
    ensures r.Ok? ==> r.value.value == v
    ensures r.Err? ==> r.message == InvalidImageUrl
  {
    if Truthy(v) && !IsHttpUrl(p, v) then Err(InvalidImageUrl) else Ok(ImageUrl(v))
  }

  /** An empty string is falsy, so it is stored without parsing, and it then has a value. */
  lemma EmptyImageUrlHasValue(p: UrlParser)
    ensures NewImageUrl(p, Str([])) == Ok(ImageUrl(Str([])))
    ensures NewImageUrl(p, Str([])).value.HasValue()
  {
  }
}
