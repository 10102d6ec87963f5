/**
  stats.go: the analysis of one crawled page. The page record `PageStats`,
  the word counter, the robots and canonical detectors behind the
  indexability verdict, the link-frequency map and its split into inbound and
  outbound links, and the meta description and keywords extractors.

  goquery's `Find(tag).Each(f)` visits the elements with that tag in document
  order; the closures of stats.go overwrite a captured variable from the
  elements they accept, so the last accepted element decides. `LastWrite`
  states that once, and the loops below are proved against it.
*/
module Stats {
  import opened GoStrings
  import opened Web

  const Indexable: string := "Indexable"
  const NonIndexable: string := "Non-Indexable"
  const NoIndex: string := "noindex"

  /**
    The crawler's view of one HTTP response, with the fields stats.go reads
    (the headers, the crawl depth and the response time in nanoseconds).
  */
  datatype PageResponse = PageResponse(
    Url: string,
    StatusCode: int,
    Headers: Header,
    Data: seq<byte>,
    Depth: int,
    Duration: int)

  /** The analysis of one page; a reporter prints one row per record. */
  class PageStats {
    var Url: string
    var Domain: string
    var StatusCode: int
    var Status: string
    var Indexibility: string
    var ContentType: string
    var Title: string
    var TitleLength: int
    var MetaDescription: string
    var MetaDescriptionLength: int
    var MetaKeywords: string
    var MetaKeywordsCount: int
    var Size: int
    var WordCount: int
    var CrawlDepth: int
    var Inlinks: int
    var UniqueInlinks: int
    var Outlinks: int
    var UniqueOutlinks: int
    var ResponseTimeMillis: int
    var Emails: string

    /** `&PageStats{}`: every field at its zero value. */
    constructor ()
      ensures Url == "" && Domain == "" && StatusCode == 0 && Status == ""
      ensures Indexibility == "" && ContentType == "" && Title == "" && TitleLength == 0
      ensures MetaDescription == "" && MetaDescriptionLength == 0
      ensures MetaKeywords == "" && MetaKeywordsCount == 0
      ensures Size == 0 && WordCount == 0 && CrawlDepth == 0
      ensures Inlinks == 0 && UniqueInlinks == 0 && Outlinks == 0 && UniqueOutlinks == 0
      ensures ResponseTimeMillis == 0 && Emails == ""
    {
      Url, Domain, StatusCode, Status := "", "", 0, "";
      Indexibility, ContentType, Title, TitleLength := "", "", "", 0;
      MetaDescription, MetaDescriptionLength := "", 0;
      MetaKeywords, MetaKeywordsCount := "", 0;
      Size, WordCount, CrawlDepth := 0, 0, 0;
      Inlinks, UniqueInlinks, Outlinks, UniqueOutlinks := 0, 0, 0, 0;
      ResponseTimeMillis, Emails := 0, "";
    }

    /**
      `countLinks`: every link that parses is inbound or outbound, and adds its
      count to the matching total and one to the matching unique total; links
      that do not parse are skipped. Only the four link fields change.
    */
    method CountLinks(hostname: string, links: map<string, int>, parse: UrlParser)
      modifies this`Inlinks, this`UniqueInlinks, this`Outlinks, this`UniqueOutlinks
      ensures Inlinks == old(Inlinks) + Total(links, KeysOfKind(links.Keys, Inbound, hostname, parse))
      ensures UniqueInlinks == old(UniqueInlinks) + |KeysOfKind(links.Keys, Inbound, hostname, parse)|
      ensures Outlinks == old(Outlinks) + Total(links, KeysOfKind(links.Keys, Outbound, hostname, parse))
      ensures UniqueOutlinks == old(UniqueOutlinks) + |KeysOfKind(links.Keys, Outbound, hostname, parse)|
    {
      var inlinks, uniqueInlinks, outlinks, uniqueOutlinks := TallyLinks(hostname, links, parse);
      Inlinks, UniqueInlinks := Inlinks + inlinks, UniqueInlinks + uniqueInlinks;
      Outlinks, UniqueOutlinks := Outlinks + outlinks, UniqueOutlinks + uniqueOutlinks;
    }
  }

  /**
    The loop of `countLinks`, over the link map in no particular order: what
    it adds to each of the four link fields.
  */
  method TallyLinks(hostname: string, links: map<string, int>, parse: UrlParser)
    returns (inlinks: int, uniqueInlinks: nat, outlinks: int, uniqueOutlinks: nat)
    ensures inlinks == Total(links, KeysOfKind(links.Keys, Inbound, hostname, parse))
    ensures uniqueInlinks == |KeysOfKind(links.Keys, Inbound, hostname, parse)|
    ensures outlinks == Total(links, KeysOfKind(links.Keys, Outbound, hostname, parse))
    ensures uniqueOutlinks == |KeysOfKind(links.Keys, Outbound, hostname, parse)|
  {
    inlinks, uniqueInlinks, outlinks, uniqueOutlinks := 0, 0, 0, 0;
    var remaining := links.Keys;
    ghost var order: seq<string> := [];
    while remaining != {}
      invariant remaining <= links.Keys
      invariant forall k :: k in order <==> k in links && k !in remaining
      invariant NoDuplicates(order)
      invariant inlinks == KindSum(links, order, Inbound, hostname, parse)
      invariant uniqueInlinks == KindCount(order, Inbound, hostname, parse)
      invariant outlinks == KindSum(links, order, Outbound, hostname, parse)
      invariant uniqueOutlinks == KindCount(order, Outbound, hostname, parse)
      decreases |remaining|
    {
      var k :| k in remaining;
      var v := links[k];
      remaining := remaining - {k};
      ghost var previous := order;
      order := order + [k];
      assert order[..|order| - 1] == previous;
      var l := parse(k);
      if l.None? {
        continue;
      }
      if l.value.isAbs && l.value.hostname != hostname {
        outlinks, uniqueOutlinks := outlinks + v, uniqueOutlinks + 1;
      } else {
        inlinks, uniqueInlinks := inlinks + v, uniqueInlinks + 1;
      }
    }
    assert (set k | k in order) == links.Keys;
    KindSumTotal(links, order, Inbound, hostname, parse);
    KindSumTotal(links, order, Outbound, hostname, parse);
  }

  /** What the links in `keys`, taken in this order, add to the total of `kind`. */
  function KindSum(links: map<string, int>, keys: seq<string>, kind: LinkKind, hostname: string, parse: UrlParser): int
    requires forall k :: k in keys ==> k in links
  {
    if keys == [] then 0
    else
      var k := keys[|keys| - 1];
      KindSum(links, keys[..|keys| - 1], kind, hostname, parse) + (if Classify(parse, hostname, k) == kind then links[k] else 0)
  }

  /** How many of the links in `keys` are of `kind`. */
  function KindCount(keys: seq<string>, kind: LinkKind, hostname: string, parse: UrlParser): nat
  {
    if keys == [] then 0
    else
      KindCount(keys[..|keys| - 1], kind, hostname, parse) + (if Classify(parse, hostname, keys[|keys| - 1]) == kind then 1 else 0)
  }

  /** Whatever the visiting order, the loop's sums are the sums over the key set. */
  lemma {:induction false} KindSumTotal(links: map<string, int>, keys: seq<string>, kind: LinkKind, hostname: string, parse: UrlParser)
    requires forall k :: k in keys ==> k in links
    requires NoDuplicates(keys)
    ensures var s := KeysOfKind((set k | k in keys), kind, hostname, parse);
            KindSum(links, keys, kind, hostname, parse) == Total(links, s) &&
            KindCount(keys, kind, hostname, parse) == |s|
  {
    if keys != [] {
      var p, k := keys[..|keys| - 1], keys[|keys| - 1];
      KindSumTotal(links, p, kind, hostname, parse);
      var visited := set x | x in p;
      assert (set x | x in keys) == visited + {k};
      KeysOfKindStep(links, visited, k, kind, hostname, parse);
    }
  }

  // ------------------------------------------------------------ countWords

  /** A word starts at `i`: a non-separator rune at the start or after a separator. */
  predicate WordStart(s: string, i: int, isSeparator: char -> bool)
    requires 0 <= i < |s|
  {
    !isSeparator(s[i]) && (i == 0 || isSeparator(s[i - 1]))
  }

  /**
    The number of words of `s`: maximal runs of runes that are neither space
    nor punctuation, counted by where they start.
  */
  function WordCount(s: string, isSeparator: char -> bool): nat
  {
    if s == [] then 0
    else WordCount(s[..|s| - 1], isSeparator) + (if WordStart(s, |s| - 1, isSeparator) then 1 else 0)
  }

  /**
    `countWords`: a scan over the runes that counts each change from
    separator (or the start) to a word rune.
  */
  method CountWords(s: string, isSeparator: char -> bool) returns (nWords: nat)
    ensures nWords == WordCount(s, isSeparator)
  {
    nWords := 0;
    var inWord := false;
    for i := 0 to |s|
      invariant inWord == (i > 0 && !isSeparator(s[i - 1]))
      invariant nWords == WordCount(s[..i], isSeparator)
    {
      assert s[..i + 1][..i] == s[..i];
      var r := s[i];
      if isSeparator(r) {
        inWord := false;
      } else if !inWord {
        inWord := true;
        nWords := nWords + 1;
      }
    }
    assert s[..|s|] == s;
  }

  /** Words are separated, so there are at most half as many as runes, rounded up. */
  lemma {:induction false} WordCountBound(s: string, isSeparator: char -> bool)
    ensures WordCount(s, isSeparator) <= |s|
    ensures 2 * WordCount(s, isSeparator) <= |s| + 1
    ensures |s| > 0 && isSeparator(s[|s| - 1]) ==> 2 * WordCount(s, isSeparator) <= |s|
  {
    if s != [] {
      WordCountBound(s[..|s| - 1], isSeparator);
    }
  }

  /** No words exactly when every rune is a separator (in particular for ""). */
  lemma {:induction false} NoWordsIffAllSeparators(s: string, isSeparator: char -> bool)
    ensures WordCount(s, isSeparator) == 0 <==> forall i :: 0 <= i < |s| ==> isSeparator(s[i])
  {
    if s != [] {
      var p := s[..|s| - 1];
      NoWordsIffAllSeparators(p, isSeparator);
      if WordCount(s, isSeparator) == 0 {
        forall i | 0 <= i < |s|
          ensures isSeparator(s[i])
        {
          if i < |p| {
            assert s[i] == p[i];
          }
        }
      }
    }
  }

  /** A separator splits the count: the words on each side add up. */
  lemma {:induction false} WordCountAtSeparator(a: string, c: char, b: string, isSeparator: char -> bool)
    requires isSeparator(c)
    ensures WordCount(a + [c] + b, isSeparator) == WordCount(a, isSeparator) + WordCount(b, isSeparator)
  {
    if b == [] {
      var s := a + [c];
      assert a + [c] + b == s && s[..|s| - 1] == a;
      assert !WordStart(s, |s| - 1, isSeparator);
    } else {
      var b' := b[..|b| - 1];
      WordCountAtSeparator(a, c, b', isSeparator);
      var s := a + [c] + b;
      assert s[..|s| - 1] == a + [c] + b';
      assert WordStart(s, |s| - 1, isSeparator) == WordStart(b, |b| - 1, isSeparator);
    }
  }

  /**
    `unicode.IsSpace || unicode.IsPunct` on ASCII: the six white-space runes
    and the punctuation marks (`$ + < = > ^ ` | ~` are symbols, not
    punctuation).
  */
  predicate AsciiSeparator(c: char)
  {
    || c == ' ' || '\t' <= c <= '\r'
    || '!' <= c <= '#' || '%' <= c <= '*' || ',' <= c <= '/'
    || c == ':' || c == ';' || c == '?' || c == '@'
    || '[' <= c <= ']' || c == '_' || c == '{' || c == '}'
  }

  /** A non-empty run of word runes is one word. */
  lemma {:induction false} SingleWord(w: string, isSeparator: char -> bool)
    requires w != [] && forall i :: 0 <= i < |w| ==> !isSeparator(w[i])
    ensures WordCount(w, isSeparator) == 1
  {
    var p := w[..|w| - 1];
    if p == [] {
      assert WordStart(w, 0, isSeparator);
    } else {
      assert forall i :: 0 <= i < |p| ==> p[i] == w[i];
      SingleWord(p, isSeparator);
    }
  }

  /** "Hello, world!" has two words. */
  lemma HelloWorldExample()
    ensures WordCount("Hello, world!", AsciiSeparator) == 2
  {
    var hello, world := "Hello", "world";
    SingleWord(hello, AsciiSeparator);
    SingleWord(world, AsciiSeparator);
    WordCountAtSeparator(world, '!', [], AsciiSeparator);
    WordCountAtSeparator([], ' ', world + ['!'], AsciiSeparator);
    WordCountAtSeparator(hello, ',', [' '] + world + ['!'], AsciiSeparator);
    assert [] + [' '] + (world + ['!']) == [' '] + world + ['!'];
    assert world + ['!'] + [] == world + ['!'];
    assert hello + [','] + ([' '] + world + ['!']) == "Hello, world!";
  }

  /** "a+b" is one word: `+` is a symbol, not punctuation. */
  lemma SymbolExample()
    ensures WordCount("a+b", AsciiSeparator) == 1
  {
    SingleWord("a+b", AsciiSeparator);
  }

  // ------------------------------------------------- last accepted element

  /**
    What a captured variable holds after a `Find(..).Each` pass that starts at
    `init` and overwrites it with `v` at every element where `accept` gives
    `Some(v)`.
  */
  function LastWrite<T>(doc: Document, accept: Element -> Option<T>, init: T): T
  {
    if doc == [] then init
    else
      match accept(doc[|doc| - 1])
      case Some(v) => v
      case None => LastWrite(doc[..|doc| - 1], accept, init)
  }

  /** The last accepted element decides, whatever came before it. */
  lemma {:induction false} LastWriteDecides<T>(pre: Document, e: Element, post: Document, accept: Element -> Option<T>, init: T)
    requires accept(e).Some?
    requires forall x :: x in post ==> accept(x).None?
    ensures LastWrite(pre + [e] + post, accept, init) == accept(e).value
  {
    if post != [] {
      var post' := post[..|post| - 1];
      LastWriteDecides(pre, e, post', accept, init);
      assert (pre + [e] + post)[..|pre + [e] + post| - 1] == pre + [e] + post';
    } else {
      assert (pre + [e])[..|pre|] == pre;
    }
  }

  /** Elements that are not accepted leave the variable as it was. */
  lemma {:induction false} LastWriteSkips<T>(pre: Document, post: Document, accept: Element -> Option<T>, init: T)
    requires forall x :: x in post ==> accept(x).None?
    ensures LastWrite(pre + post, accept, init) == LastWrite(pre, accept, init)
  {
    if post == [] {
      assert pre + post == pre;
    } else {
      var post' := post[..|post| - 1];
      LastWriteSkips(pre, post', accept, init);
      assert (pre + post)[..|pre + post| - 1] == pre + post';
    }
  }

  // ------------------------------------------------------------ isNoIndex

  /** A robots meta with a `content` attribute sets the flag to whether it says "noindex". */
  function RobotsDirective(e: Element): Option<bool>
  {
    if e.tag == "meta" && Attr(e, "name") == "robots" && "content" in e.attrs
    then Some(Contains(e.attrs["content"], NoIndex))
    else None
  }

  /** The verdict of `isNoIndex`: the last robots meta with content decides. */
  function NoIndexFlag(doc: Document): bool
  {
    LastWrite(doc, RobotsDirective, false)
  }

  /** `isNoIndex`, as the loop over the document's meta elements. */
  method IsNoIndex(doc: Document) returns (hasNoIndex: bool)
    ensures hasNoIndex == NoIndexFlag(doc)
  {
    hasNoIndex := false;
    for i := 0 to |doc|
      invariant hasNoIndex == NoIndexFlag(doc[..i])
    {
      assert doc[..i + 1][..i] == doc[..i];
      var s := doc[i];
      if s.tag != "meta" {
        continue;
      }
      if Attr(s, "name") == "robots" {
        if "content" in s.attrs {
          hasNoIndex := Contains(s.attrs["content"], NoIndex);
        }
      }
    }
    assert doc[..|doc|] == doc;
  }

  /**
    The flag is overwritten, not accumulated: a later robots meta with content
    decides even after an earlier "noindex", and robots metas without content
    (or any other element) after it change nothing.
  */
  lemma NoIndexLastDecides(pre: Document, e: Element, post: Document)
    requires e.tag == "meta" && Attr(e, "name") == "robots" && "content" in e.attrs
    requires forall x :: x in post ==> RobotsDirective(x).None?
    ensures NoIndexFlag(pre + [e] + post) == Contains(e.attrs["content"], NoIndex)
  {
    LastWriteDecides(pre, e, post, RobotsDirective, false);
  }

  /** Elements that are not robots metas with content do not touch the flag. */
  lemma NoIndexSkips(pre: Document, post: Document)
    requires forall x :: x in post ==> RobotsDirective(x).None?
    ensures NoIndexFlag(pre + post) == NoIndexFlag(pre)
  {
    LastWriteSkips(pre, post, RobotsDirective, false);
  }

  // ------------------------------------------------------------ isRedirect

  /**
    A canonical link whose href is present and parses sets the flag to whether
    it points to another host.
  */
  function CanonicalTarget(parse: UrlParser, hostname: string, e: Element): Option<bool>
  {
    if e.tag == "link" && Attr(e, "rel") == "canonical" && "href" in e.attrs && parse(e.attrs["href"]).Some?
    then Some(hostname != parse(e.attrs["href"]).value.hostname)
    else None
  }

  /** The verdict of `isRedirect`: the last usable canonical link decides. */
  function RedirectFlag(parse: UrlParser, hostname: string, doc: Document): bool
  {
    LastWrite(doc, e => CanonicalTarget(parse, hostname, e), false)
  }

  /** `isRedirect`, as the loop over the document's link elements. */
  method IsRedirect(parse: UrlParser, hostname: string, doc: Document) returns (hasCanonicalLink: bool)
    ensures hasCanonicalLink == RedirectFlag(parse, hostname, doc)
  {
    hasCanonicalLink := false;
    for i := 0 to |doc|
      invariant hasCanonicalLink == RedirectFlag(parse, hostname, doc[..i])
    {
      assert doc[..i + 1][..i] == doc[..i];
      var s := doc[i];
      if s.tag != "link" {
        continue;
      }
      if Attr(s, "rel") == "canonical" {
        if "href" in s.attrs {
          var u := parse(s.attrs["href"]);
          if u.Some? {
            hasCanonicalLink := hostname != u.value.hostname;
          }
        }
      }
    }
    assert doc[..|doc|] == doc;
  }

  /**
    The last canonical link whose href parses decides; canonical links whose
    href is missing or does not parse, and later elements of other kinds,
    change nothing.
  */
  lemma RedirectLastDecides(parse: UrlParser, hostname: string, pre: Document, e: Element, post: Document)
    requires e.tag == "link" && Attr(e, "rel") == "canonical" && "href" in e.attrs
    requires parse(e.attrs["href"]).Some?
    requires forall x :: x in post ==> CanonicalTarget(parse, hostname, x).None?
    ensures RedirectFlag(parse, hostname, pre + [e] + post) == (hostname != parse(e.attrs["href"]).value.hostname)
  {
    var accept := x => CanonicalTarget(parse, hostname, x);
    assert forall x :: x in post ==> accept(x).None?;
    LastWriteDecides(pre, e, post, accept, false);
  }

  /** A canonical link whose href does not parse leaves the flag as it was. */
  lemma RedirectSkipsUnparseable(parse: UrlParser, hostname: string, pre: Document, e: Element)
    requires e.tag == "link" && Attr(e, "rel") == "canonical" && "href" in e.attrs
    requires parse(e.attrs["href"]).None?
    ensures RedirectFlag(parse, hostname, pre + [e]) == RedirectFlag(parse, hostname, pre)
  {
    assert (pre + [e])[..|pre|] == pre;
  }

  // ---------------------------------------------------------- Indexibility

  /**
    The indexability verdict: only a 2xx status can be indexable, and then
    only when neither the X-Robots-Tag header, nor a robots meta, nor a
    canonical link to another host says otherwise.
  */
  function IndexabilityOf(p: PageResponse, parse: UrlParser, hostname: string, doc: Document): (r: string)
    ensures r == Indexable || r == NonIndexable
    ensures !(200 <= p.StatusCode < 300) ==> r == NonIndexable
    ensures r == Indexable <==>
              && 200 <= p.StatusCode < 300
              && !Contains(HeaderGet(p.Headers, "X-Robots-Tag"), NoIndex)
              && !NoIndexFlag(doc)
              && !RedirectFlag(parse, hostname, doc)
  {
    var q := Quo(p.StatusCode, 100);
    assert q == 2 <==> 200 <= p.StatusCode < 300 by {
      if p.StatusCode < 0 {
        assert q * 100 <= 0;
      } else if q <= 1 {
        assert p.StatusCode < 200;
      } else if q >= 3 {
        assert p.StatusCode >= 300;
      }
    }
    if q != 2 then NonIndexable
    else if Contains(HeaderGet(p.Headers, "X-Robots-Tag"), NoIndex) then NonIndexable
    else if NoIndexFlag(doc) then NonIndexable
    else if RedirectFlag(parse, hostname, doc) then NonIndexable
    else Indexable
  }

  /** `Indexibility`: the four checks in order, the first that fails decides. */
  method Indexibility(p: PageResponse, parse: UrlParser, hostname: string, doc: Document) returns (r: string)
    ensures r == IndexabilityOf(p, parse, hostname, doc)
  {
    if Quo(p.StatusCode, 100) != 2 {
      return NonIndexable;
    }
    var robots := HeaderGet(p.Headers, "X-Robots-Tag");
    if Contains(robots, NoIndex) {
      return NonIndexable;
    }
    var noIndex := IsNoIndex(doc);
    if noIndex {
      return NonIndexable;
    }
    var redirect := IsRedirect(parse, hostname, doc);
    if redirect {
      return NonIndexable;
    }
    return Indexable;
  }

  /** A header value "noindex, nofollow" makes a 200 page non-indexable. */
  lemma RobotsHeaderExample(p: PageResponse, parse: UrlParser, hostname: string, doc: Document)
    requires p.StatusCode == 200 && "X-Robots-Tag" in p.Headers
    requires p.Headers["X-Robots-Tag"] == ["noindex, nofollow"]
    ensures IndexabilityOf(p, parse, hostname, doc) == NonIndexable
  {
    assert OccursAt("noindex, nofollow", NoIndex, 0);
  }

  // ---------------------------------------------------------- extractLinks

  /** An `<a>` element carrying an `href` attribute. */
  predicate IsLink(e: Element)
  {
    e.tag == "a" && "href" in e.attrs
  }

  /** The lower-cased hrefs of the document's links, in document order. */
  function Hrefs(doc: Document): (hrefs: seq<string>)
    ensures |hrefs| <= |doc|
    ensures forall h :: h in hrefs ==> IsLower(h)
  {
    if doc == [] then []
    else
      var e := doc[|doc| - 1];
      Hrefs(doc[..|doc| - 1]) + (if IsLink(e) then [ToLower(e.attrs["href"])] else [])
  }

  /** How often each string occurs in `xs`. */
  function Occurrences(xs: seq<string>): (m: map<string, int>)
    ensures m.Keys == set x | x in xs
  {
    map x | x in xs :: multiset(xs)[x]
  }

  /** The map `extractLinks` builds: each lower-cased href and how many links carry it. */
  function LinkCounts(doc: Document): map<string, int>
  {
    Occurrences(Hrefs(doc))
  }

  /** Counting one more occurrence of `h`. */
  lemma OccurrencesAppend(xs: seq<string>, h: string)
    ensures Occurrences(xs + [h]) ==
            Occurrences(xs)[h := if h in Occurrences(xs) then Occurrences(xs)[h] + 1 else 1]
  {
    var m, m' := Occurrences(xs), Occurrences(xs + [h]);
    assert multiset(xs + [h]) == multiset(xs) + multiset{h};
    assert m'.Keys == m.Keys + {h};
    forall k | k in m'
      ensures m'[k] == (if k == h then (if h in m then m[h] + 1 else 1) else m[k])
    {
      if k == h && h !in m {
        assert h !in xs;
      }
    }
  }

  /** `extractLinks`: the href of every link, lower-cased, with its number of occurrences. */
  method ExtractLinks(doc: Document) returns (links: map<string, int>)
    ensures links == LinkCounts(doc)
  {
    links := map[];
    for i := 0 to |doc|
      invariant links == LinkCounts(doc[..i])
    {
      LinkCountsStep(doc, i);
      var element := doc[i];
      if !IsLink(element) {
        continue;
      }
      var href := ToLower(element.attrs["href"]);
      if href in links {
        links := links[href := links[href] + 1];
      } else {
        links := links[href := 1];
      }
    }
    assert doc[..|doc|] == doc;
  }

  /** One more element of the document: a link counts its lower-cased href once more, anything else nothing. */
  lemma LinkCountsStep(doc: Document, i: nat)
    requires i < |doc|
    ensures var m := LinkCounts(doc[..i]);
            LinkCounts(doc[..i + 1]) ==
              if IsLink(doc[i])
              then var h := ToLower(doc[i].attrs["href"]); m[h := if h in m then m[h] + 1 else 1]
              else m
  {
    var front := doc[..i + 1];
    assert front[..i] == doc[..i] && front[i] == doc[i];
    if IsLink(doc[i]) {
      var h := ToLower(doc[i].attrs["href"]);
      assert Hrefs(front) == Hrefs(doc[..i]) + [h];
      OccurrencesAppend(Hrefs(doc[..i]), h);
    } else {
      assert Hrefs(front) == Hrefs(doc[..i]);
    }
  }

  /** Every key of the link map is lower case and every count is at least 1. */
  lemma LinkCountsShape(doc: Document)
    ensures forall k :: k in LinkCounts(doc) ==> IsLower(k) && LinkCounts(doc)[k] >= 1
  {
    var hrefs := Hrefs(doc);
    forall k | k in LinkCounts(doc)
      ensures IsLower(k) && LinkCounts(doc)[k] >= 1
    {
      assert k in hrefs;
    }
  }

  /** The counts add up to the number of links carrying an href. */
  lemma LinkCountsTotal(doc: Document)
    ensures Total(LinkCounts(doc), LinkCounts(doc).Keys) == |Hrefs(doc)|
  {
    OccurrencesTotal(Hrefs(doc));
  }

  lemma {:induction false} OccurrencesTotal(xs: seq<string>)
    ensures Total(Occurrences(xs), Occurrences(xs).Keys) == |xs|
  {
    if xs != [] {
      var p, h := xs[..|xs| - 1], xs[|xs| - 1];
      assert xs == p + [h];
      OccurrencesTotal(p);
      OccurrencesAppend(p, h);
      var m, m' := Occurrences(p), Occurrences(xs);
      var rest := m.Keys - {h};
      assert m'.Keys == m.Keys + {h} && m'.Keys - {h} == rest;
      assert forall k :: k in rest ==> m[k] == m'[k];
      TotalAgree(m, m', rest);
      TotalRemove(m', m'.Keys, h);
      if h in m {
        TotalRemove(m, m.Keys, h);
        assert m'[h] == m[h] + 1;
      } else {
        assert rest == m.Keys && m'[h] == 1;
      }
    }
  }

  // ------------------------------------------------------------ sums of maps

  /** The sum of `m[k]` over the keys in `keys`. */
  ghost function Total(m: map<string, int>, keys: set<string>): int
    requires keys <= m.Keys
  {
    if keys == {} then 0
    else
      var k :| k in keys;
      m[k] + Total(m, keys - {k})
  }

  /** Any key may be taken out of a sum first. */
  lemma {:induction false} TotalRemove(m: map<string, int>, keys: set<string>, k: string)
    requires keys <= m.Keys && k in keys
    ensures Total(m, keys) == m[k] + Total(m, keys - {k})
    decreases |keys|
  {
    var j :| j in keys && Total(m, keys) == m[j] + Total(m, keys - {j});
    if j != k {
      TotalRemove(m, keys - {j}, k);
      TotalRemove(m, keys - {k}, j);
      assert keys - {j} - {k} == keys - {k} - {j};
    }
  }

  /** Sums over keys where two maps agree are equal. */
  lemma {:induction false} TotalAgree(m: map<string, int>, m': map<string, int>, keys: set<string>)
    requires keys <= m.Keys && keys <= m'.Keys
    requires forall k :: k in keys ==> m[k] == m'[k]
    ensures Total(m, keys) == Total(m', keys)
    decreases |keys|
  {
    if keys != {} {
      var k :| k in keys;
      TotalRemove(m, keys, k);
      TotalRemove(m', keys, k);
      TotalAgree(m, m', keys - {k});
    }
  }

  /** The sum over two disjoint key sets is the sum of the sums. */
  lemma {:induction false} TotalUnion(m: map<string, int>, a: set<string>, b: set<string>)
    requires a <= m.Keys && b <= m.Keys && a !! b
    ensures Total(m, a + b) == Total(m, a) + Total(m, b)
    decreases |b|
  {
    if b == {} {
      assert a + b == a;
    } else {
      var k :| k in b;
      var b' := b - {k};
      TotalUnion(m, a, b');
      TotalRemove(m, a + b, k);
      TotalRemove(m, b, k);
      assert a + b - {k} == a + b';
    }
  }

  /** A sum of non-negative counts is non-negative. */
  lemma {:induction false} TotalNonNegative(m: map<string, int>, keys: set<string>)
    requires keys <= m.Keys && forall k :: k in keys ==> m[k] >= 0
    ensures Total(m, keys) >= 0
    decreases |keys|
  {
    if keys != {} {
      var k :| k in keys;
      TotalRemove(m, keys, k);
      TotalNonNegative(m, keys - {k});
    }
  }

  // ------------------------------------------------------------ countLinks

  datatype LinkKind = Unparseable | Inbound | Outbound

  /**
    Where `countLinks` files a link: nowhere when it does not parse, outbound
    when it is absolute and on another host, inbound otherwise (relative links
    included).
  */
  function Classify(parse: UrlParser, hostname: string, link: string): LinkKind
  {
    match parse(link)
    case None => Unparseable
    case Some(u) => if u.isAbs && u.hostname != hostname then Outbound else Inbound
  }

  /**
    The filing rule, kind by kind: a link is unparseable exactly when it does
    not parse, outbound exactly when it is absolute on another host, and
    inbound exactly when it parses and is relative or on this host.
  */
  lemma ClassifyRule(parse: UrlParser, hostname: string, link: string)
    ensures Classify(parse, hostname, link) == Unparseable <==> parse(link).None?
    ensures Classify(parse, hostname, link) == Outbound <==>
              parse(link).Some? && parse(link).value.isAbs && parse(link).value.hostname != hostname
    ensures Classify(parse, hostname, link) == Inbound <==>
              parse(link).Some? && (!parse(link).value.isAbs || parse(link).value.hostname == hostname)
  {
  }

  /** The keys among `keys` that are filed as `kind`. */
  function KeysOfKind(keys: set<string>, kind: LinkKind, hostname: string, parse: UrlParser): set<string>
  {
    set k | k in keys && Classify(parse, hostname, k) == kind
  }

  /** Visiting one more key adds it to the keys of its own kind only. */
  lemma KeysOfKindStep(links: map<string, int>, visited: set<string>, k: string, kind: LinkKind, hostname: string, parse: UrlParser)
    requires visited <= links.Keys && k in links && k !in visited
    ensures var before, after := KeysOfKind(visited, kind, hostname, parse), KeysOfKind(visited + {k}, kind, hostname, parse);
            if Classify(parse, hostname, k) == kind
            then |after| == |before| + 1 && Total(links, after) == Total(links, before) + links[k]
            else after == before
  {
    var before, after := KeysOfKind(visited, kind, hostname, parse), KeysOfKind(visited + {k}, kind, hostname, parse);
    if Classify(parse, hostname, k) == kind {
      assert after == before + {k} && after - {k} == before;
      TotalRemove(links, after, k);
    } else {
      assert after == before;
    }
  }

  /** The keys that parse, which `countLinks` files as inbound or outbound. */
  function ParseableKeys(links: map<string, int>, parse: UrlParser): set<string>
  {
    set k | k in links && parse(k).Some?
  }

  /**
    Between them, inbound and outbound links account for every parseable key
    once: the totals grow by the summed counts of the parseable keys, the
    unique totals by their number.
  */
  lemma CountLinksTotals(links: map<string, int>, hostname: string, parse: UrlParser)
    ensures var inbound, outbound := KeysOfKind(links.Keys, Inbound, hostname, parse), KeysOfKind(links.Keys, Outbound, hostname, parse);
            && Total(links, inbound) + Total(links, outbound) == Total(links, ParseableKeys(links, parse))
            && |inbound| + |outbound| == |ParseableKeys(links, parse)|
  {
    var inbound, outbound := KeysOfKind(links.Keys, Inbound, hostname, parse), KeysOfKind(links.Keys, Outbound, hostname, parse);
    assert inbound + outbound == ParseableKeys(links, parse);
    assert inbound !! outbound;
    TotalUnion(links, inbound, outbound);
  }

  /** A key that does not parse adds nothing, whatever its count. */
  lemma UnparseableAddsNothing(links: map<string, int>, k: string, v: int, hostname: string, parse: UrlParser)
    requires parse(k).None? && k !in links
    ensures forall kind :: kind != Unparseable ==>
              KeysOfKind(links[k := v].Keys, kind, hostname, parse) == KeysOfKind(links.Keys, kind, hostname, parse)
    ensures forall kind :: kind != Unparseable ==>
              Total(links[k := v], KeysOfKind(links[k := v].Keys, kind, hostname, parse)) ==
              Total(links, KeysOfKind(links.Keys, kind, hostname, parse))
  {
    forall kind | kind != Unparseable
      ensures Total(links[k := v], KeysOfKind(links[k := v].Keys, kind, hostname, parse)) ==
              Total(links, KeysOfKind(links.Keys, kind, hostname, parse))
    {
      var s := KeysOfKind(links.Keys, kind, hostname, parse);
      assert KeysOfKind(links[k := v].Keys, kind, hostname, parse) == s;
      TotalAgree(links[k := v], links, s);
    }
  }

  /** With counts of at least 1 from `extractLinks`, `countLinks` only ever adds. */
  lemma CountLinksGrows(doc: Document, hostname: string, parse: UrlParser)
    ensures var links := LinkCounts(doc);
            forall kind :: Total(links, KeysOfKind(links.Keys, kind, hostname, parse)) >= 0
  {
    var links := LinkCounts(doc);
    LinkCountsShape(doc);
    forall kind
      ensures Total(links, KeysOfKind(links.Keys, kind, hostname, parse)) >= 0
    {
      TotalNonNegative(links, KeysOfKind(links.Keys, kind, hostname, parse));
    }
  }

  // --------------------------------------------------- meta description/keywords

  /** A meta element whose lower-cased name is `name` sets the value to its content ("" when absent). */
  function MetaField(name: string, e: Element): Option<string>
  {
    if e.tag == "meta" && ToLower(Attr(e, "name")) == name then Some(Attr(e, "content")) else None
  }

  /** The content of the last meta element named `name`, ignoring case, or "". */
  function MetaContent(doc: Document, name: string): string
  {
    LastWrite(doc, e => MetaField(name, e), "")
  }

  /** `extractMetaDescription`. */
  method ExtractMetaDescription(doc: Document) returns (description: string)
    ensures description == MetaContent(doc, "description")
  {
    description := "";
    for i := 0 to |doc|
      invariant description == MetaContent(doc[..i], "description")
    {
      assert doc[..i + 1][..i] == doc[..i];
      var s := doc[i];
      if s.tag == "meta" && ToLower(Attr(s, "name")) == "description" {
        description := Attr(s, "content");
      }
    }
    assert doc[..|doc|] == doc;
  }

  /**
    `extractMetaKeywords`: the content of the last keywords meta and the
    number of comma-separated keywords in it, or ("", 0) when it is empty.
  */
  method ExtractMetaKeywords(doc: Document) returns (keywords: string, count: int)
    ensures keywords == MetaContent(doc, "keywords")
    ensures count == KeywordCount(keywords)
  {
    keywords := "";
    for i := 0 to |doc|
      invariant keywords == MetaContent(doc[..i], "keywords")
    {
      assert doc[..i + 1][..i] == doc[..i];
      var s := doc[i];
      if s.tag == "meta" && ToLower(Attr(s, "name")) == "keywords" {
        keywords := Attr(s, "content");
      }
    }
    assert doc[..|doc|] == doc;
    if Utf8Len(keywords) == 0 {
      return "", 0;
    }
    var arr := Split(keywords, ',');
    return keywords, |arr|;
  }

  /** How many keywords `extractMetaKeywords` reports for a keywords content. */
  function KeywordCount(keywords: string): (n: nat)
    ensures keywords == "" <==> n == 0
  {
    if keywords == "" then 0 else CountRune(keywords, ',') + 1
  }

  /**
    The last meta element with the requested name decides, even when it has no
    content (the value goes back to ""); later elements of other kinds change
    nothing.
  */
  lemma MetaLastDecides(pre: Document, e: Element, post: Document, name: string)
    requires e.tag == "meta" && ToLower(Attr(e, "name")) == name
    requires forall x :: x in post ==> MetaField(name, x).None?
    ensures MetaContent(pre + [e] + post, name) == Attr(e, "content")
    ensures "content" !in e.attrs ==> MetaContent(pre + [e] + post, name) == ""
  {
    var accept := x => MetaField(name, x);
    assert forall x :: x in post ==> accept(x).None?;
    LastWriteDecides(pre, e, post, accept, "");
  }

  /** The name is compared after lower-casing: "Keywords" counts as "keywords". */
  lemma MetaNameExample()
    ensures MetaContent([Element("meta", map["name" := "Keywords", "content" := "go,seo"], "")], "keywords") == "go,seo"
  {
    var e := Element("meta", map["name" := "Keywords", "content" := "go,seo"], "");
    assert Attr(e, "name") == "Keywords";
    assert ToLower("Keywords") == "keywords";
    MetaLastDecides([], e, [], "keywords");
    assert [] + [e] + [] == [e];
  }

  /** "go,seo,web" holds three keywords. */
  lemma KeywordCountExample()
    ensures KeywordCount("go,seo,web") == 3
  {
  }

  // ------------------------------------------------------------------ title

  /** The document has no title element. */
  predicate Untitled(doc: Document)
  {
    forall x :: x in doc ==> x.tag != "title"
  }

  /** `document.Find("title").Text()`: the texts of all title elements, concatenated. */
  function TitleText(doc: Document): string
  {
    if doc == [] then ""
    else
      var e := doc[|doc| - 1];
      TitleText(doc[..|doc| - 1]) + (if e.tag == "title" then e.text else "")
  }

  /** The title of a document is the title of its first part followed by that of the rest. */
  lemma {:induction false} TitleTextAppend(a: Document, b: Document)
    ensures TitleText(a + b) == TitleText(a) + TitleText(b)
  {
    if b == [] {
      assert a + b == a;
    } else {
      var b', e := b[..|b| - 1], b[|b| - 1];
      TitleTextAppend(a, b');
      var ab := a + b;
      assert ab[..|ab| - 1] == a + b' && ab[|ab| - 1] == e;
      var tail := if e.tag == "title" then e.text else "";
      var x, y := TitleText(a), TitleText(b');
      assert TitleText(ab) == TitleText(ab[..|ab| - 1]) + tail;
      assert TitleText(ab) == (x + y) + tail;
      assert TitleText(b) == y + tail;
      assert (x + y) + tail == x + (y + tail);
    }
  }

  /** A document without a title element has the empty title. */
  lemma {:induction false} UntitledIsEmpty(doc: Document)
    requires Untitled(doc)
    ensures TitleText(doc) == ""
  {
    if doc != [] {
      var front := doc[..|doc| - 1];
      assert forall x :: x in front ==> x in doc;
      UntitledIsEmpty(front);
    }
  }

  /** With a single title element, the title is that element's text, whatever surrounds it. */
  lemma SingleTitle(pre: Document, e: Element, post: Document)
    requires e.tag == "title"
    requires Untitled(pre) && Untitled(post)
    ensures TitleText(pre + [e] + post) == e.text
  {
    TitleTextAppend(pre + [e], post);
    TitleTextAppend(pre, [e]);
    UntitledIsEmpty(pre);
    UntitledIsEmpty(post);
    assert [e][..0] == [];
  }
}
