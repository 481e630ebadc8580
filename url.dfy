/**
 * The WHATWG URL Standard parser (`new URL(input, base)`, section 4.4 "URL parsing"),
 * kept abstract: the model never looks inside it, it only asks whether a string
 * parses and reads the protocol, host and serialisation of the result.
 */
module WhatwgUrl {
  import opened Wrappers

  /** The parts of a parsed URL that the core reads: `protocol` ("https:"), `host` and `href`. */
  datatype UrlRecord = UrlRecord(protocol: string, host: string, href: string)

  /**
   * `parse(input, base)` is the parsed URL, or None where `new URL(input, base)` throws.
   * Any function is a possible parser, so whatever is proved holds for the real one.
   */
  datatype UrlParser = UrlParser(parse: (string, Option<string>) -> Option<UrlRecord>)

  /** The message of the TypeError that `new URL` throws. */
  const InvalidUrl := "Invalid URL"

  /** `new URL(input, base)`: the parsed URL, or the TypeError it throws. */
  function NewUrl(p: UrlParser, input: string, base: Option<string>): (r: Result<UrlRecord>)
    ensures r.Ok? <==> p.parse(input, base).Some?
    ensures r.Err? ==> r.message == InvalidUrl
  {
    match p.parse(input, base)
    case Some(u) => Ok(u)
    case None => Err(InvalidUrl)
  }
}
