/**
  The crawler's view of the libraries it calls but does not own.

  The parsed document, goquery's `Attr` and `http.Header.Get` are modelled
  concretely: a document is its elements in document order, `Attr` gives the
  first value of an attribute or "", and `HeaderGet` the first value under a
  canonical key or "".

  The rest (`net/url` parsing, goquery's parsing of the body, bluemonday's
  markup stripper, the e-mail regular expression, `http.StatusText` and
  Unicode's space and punctuation tables) are the fields of `Libraries`.
  Their behaviour is not modelled: each is a function value the analysis
  receives, so every property proved holds whatever they compute.
*/
module Web {

  newtype byte = x: int | 0 <= x < 256

  datatype Option<T> = None | Some(value: T)

  /** What the crawler reads from a parsed URL: `Hostname()` and `IsAbs()`. */
  datatype Url = Url(hostname: string, isAbs: bool)

  /** `url.ParseRequestURI`: `None` is the error case. */
  type UrlParser = string -> Option<Url>

  /** The error `url.ParseRequestURI` returns, carrying the text that failed to parse. */
  datatype UrlError = UrlError(url: string)

  /**
    One element of a parsed HTML document: its tag name, its attributes (the
    first occurrence of each name) and its text content (`Selection.Text()`).
  */
  datatype Element = Element(tag: string, attrs: map<string, string>, text: string)

  /** A parsed document: its elements in document order, as `Find` visits them. */
  type Document = seq<Element>

  /** goquery's `Attr(name)` value: the attribute's value, or "" when absent. */
  function Attr(e: Element, name: string): (v: string)
    ensures name !in e.attrs ==> v == ""
  {
    if name in e.attrs then e.attrs[name] else ""
  }

  /** Response headers keyed by canonical header name, each with its values in order. */
  type Header = map<string, seq<string>>

  /** `http.Header.Get` for a canonical key: the first value, or "" when there is none. */
  function HeaderGet(h: Header, key: string): (v: string)
    ensures key !in h || h[key] == [] ==> v == ""
  {
    if key in h && h[key] != [] then h[key][0] else ""
  }

  /**
    The foreign code one page analysis calls:
    - parseUrl: `url.ParseRequestURI`, with `Hostname()` and `IsAbs()` of the result;
    - parseHtml: `goquery.NewDocumentFromReader` on the body (`None` on error);
    - stripHtml: bluemonday's strict policy, giving the page's plain text as runes;
    - emailMatches: the matches of the e-mail regular expression in the body, in order;
    - statusText: `http.StatusText`;
    - isSeparator: `unicode.IsSpace(r) || unicode.IsPunct(r)`.
  */
  datatype Libraries = Libraries(
    parseUrl: UrlParser,
    parseHtml: seq<byte> -> Option<Document>,
    stripHtml: seq<byte> -> string,
    emailMatches: seq<byte> -> seq<string>,
    statusText: int -> string,
    isSeparator: char -> bool)
}
