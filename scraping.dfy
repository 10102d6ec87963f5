/**
  scraper.go, with `processPage` from stats.go: the `Scraper` that owns the
  per-URL statistics, the preparation of its allowed domains, the URL it
  starts from, and the report it hands to the reporters.
*/
module Scraping {
  import opened GoStrings
  import opened Web
  import opened Emails
  import opened Stats

  /** A value, or the error that stopped its computation. */
  datatype Result<T> = Success(value: T) | Failure(error: UrlError)

  /**
    `trimProtocol`: `strings.Trim` with the cutsets "http://" and then
    "https://". These are sets of runes, so any leading or trailing h, t, p,
    s, ':' or '/' goes, not only a scheme prefix.
  */
  function TrimProtocol(requestURL: string): (r: string)
    ensures r == [] || (r[0] !in "https:/" && r[|r| - 1] !in "https:/")
  {
    Trim(Trim(requestURL, "http://"), "https://")
  }

  /** What `trimProtocol` keeps is one contiguous piece of its input. */
  lemma TrimProtocolIsSubstring(s: string)
    ensures Contains(s, TrimProtocol(s))
  {
    var t := Trim(s, "http://");
    TrimIsSlice(s, "http://");
    TrimIsSlice(t, "https://");
    OccursInSlice(s, t, TrimProtocol(s), |s| - |TrimLeft(s, "http://")|, |t| - |TrimLeft(t, "https://")|);
  }

  /** Trimming twice is trimming once. */
  lemma TrimProtocolIdempotent(s: string)
    ensures TrimProtocol(TrimProtocol(s)) == TrimProtocol(s)
  {
    var r := TrimProtocol(s);
    TrimUnchanged(r, "http://");
    TrimUnchanged(r, "https://");
  }

  /** Not a prefix removal: "shop.com" loses its leading "sh". */
  lemma TrimProtocolShopExample()
    ensures TrimProtocol("shop.com") == "op.com"
  {
    var rest := "op.com";
    var s := "sh" + rest;
    assert s == "shop.com";
    TrimUnchanged(s, "http://");
    TrimLeftPrefix("sh", rest, "https://");
    assert TrimLeft(rest, "https://") == rest;
    assert TrimRight(rest, "https://") == rest;
  }

  /** A scheme is stripped: "https://example.com" becomes "example.com". */
  lemma TrimProtocolSchemeExample()
    ensures TrimProtocol("https://example.com") == "example.com"
  {
    SchemeSpelling();
    TrimSchemePrefix("example.com", true);
  }

  /** The start URL of "example.com" over https. */
  lemma SchemeSpelling()
    ensures "https://" + "example.com" == "https://example.com"
  {
  }

  /**
    `prepareAllowedDomain`: the hostname of "https://" + the trimmed URL,
    with leading 'w' and '.' runes removed (`TrimLeft` with the cutset
    "wwww."), in six spellings. When the URL does not parse, its error.
  */
  function PrepareAllowedDomain(requestURL: string, parse: UrlParser): (r: Result<seq<string>>)
    ensures var url := "https://" + TrimProtocol(requestURL);
            && (r.Failure? <==> parse(url).None?)
            && (r.Failure? ==> r.error == UrlError(url))
            && (r.Success? ==>
                  && |r.value| == 6
                  && var host, d := parse(url).value.hostname, r.value[0];
                  && (d == [] || (d[0] != 'w' && d[0] != '.'))
                  && |d| <= |host| && host == host[..|host| - |d|] + d
                  && (forall i :: 0 <= i < |host| - |d| ==> host[i] == 'w' || host[i] == '.')
                  && r.value[1..] == ["www." + d, "http://" + d, "https://" + d, "http://www." + d, "https://www." + d])
  {
    var url := "https://" + TrimProtocol(requestURL);
    match parse(url)
    case None => Failure(UrlError(url))
    case Some(u) =>
      var hostname := u.hostname;
      var domain := TrimLeft(hostname, "wwww.");
      TrimLeftIsSuffix(hostname, "wwww.");
      assert hostname == hostname[..|hostname| - |domain|] + domain;
      TrimLeftRemoved(hostname, "wwww.");
      Success([
        domain,
        "www." + domain,
        "http://" + domain,
        "https://" + domain,
        "http://www." + domain,
        "https://www." + domain])
  }

  /** When the https URL parses, the domain is its hostname without the leading 'w' and '.' runes. */
  lemma PreparedDomain(requestURL: string, parse: UrlParser, u: Url)
    requires parse("https://" + TrimProtocol(requestURL)) == Some(u)
    ensures PrepareAllowedDomain(requestURL, parse).Success?
    ensures PrepareAllowedDomain(requestURL, parse).value[0] == TrimLeft(u.hostname, "wwww.")
  {
  }

  /** "web.com" has no scheme runes at either end, so `trimProtocol` keeps it. */
  lemma WebComUntrimmed()
    ensures TrimProtocol("web.com") == "web.com"
  {
    TrimUnchanged("web.com", "http://");
    TrimUnchanged("web.com", "https://");
  }

  /** "web.com" loses its one leading 'w' to the cutset "wwww.". */
  lemma WebComDomain()
    ensures TrimLeft("web.com", "wwww.") == "eb.com"
  {
    var rest := "eb.com";
    assert "web.com" == "w" + rest;
    TrimLeftPrefix("w", rest, "wwww.");
    assert rest[0] == 'e' && 'e' !in "wwww.";
  }

  /** "web.com" loses its leading 'w': the domain becomes "eb.com". */
  lemma AllowedDomainExample(parse: UrlParser)
    requires parse("https://web.com") == Some(Url("web.com", true))
    ensures PrepareAllowedDomain("web.com", parse).Success?
    ensures PrepareAllowedDomain("web.com", parse).value[0] == "eb.com"
  {
    WebComUntrimmed();
    assert "https://" + "web.com" == "https://web.com";
    PreparedDomain("web.com", parse, Url("web.com", true));
    WebComDomain();
  }

  /** The crawler of one website and the statistics of the pages it has analysed. */
  class Scraper {
    var MaxDepth: int
    var Website: string
    var Recursively: bool
    var PrintLogs: bool
    var Async: bool
    var stats: map<string, PageStats>

    /** The start URL over https or http. */
    function GetWebsite(secure: bool): (w: string)
      reads this
      ensures secure ==> w == "https://" + Website
      ensures !secure ==> w == "http://" + Website
    {
      if secure then "https://" + Website else "http://" + Website
    }

    /**
      The error path of `Scrape`, before any crawling: when the allowed
      domains cannot be prepared their error is returned and `Website` is
      kept; otherwise `Website` loses its scheme runes. (The `url` parameter
      is not used.)
    */
    method Scrape(url: string, parse: UrlParser) returns (err: Option<UrlError>)
      modifies this`Website
      ensures var prepared := PrepareAllowedDomain(old(Website), parse);
              && (prepared.Failure? ==> err == Some(prepared.error) && Website == old(Website))
              && (prepared.Success? ==> err == None && Website == TrimProtocol(old(Website)))
    {
      var allowedDomains := PrepareAllowedDomain(Website, parse);
      if allowedDomains.Failure? {
        return Some(allowedDomains.error);
      }
      Website := TrimProtocol(Website);
      return None;
    }

    /**
      `processPage`: when the page's URL and body parse, a fresh record of the
      page is stored under its URL, replacing any earlier one; otherwise
      nothing changes.
    */
    method ProcessPage(p: PageResponse, lib: Libraries)
      modifies this`stats
      ensures lib.parseUrl(p.Url).None? || lib.parseHtml(p.Data).None? ==> stats == old(stats)
      ensures lib.parseUrl(p.Url).Some? && lib.parseHtml(p.Data).Some? ==>
                && p.Url in stats
                && stats == old(stats)[p.Url := stats[p.Url]]
                && fresh(stats[p.Url])
                && Describes(stats[p.Url], p, lib.parseUrl(p.Url).value.hostname, lib.parseHtml(p.Data).value, lib)
    {
      var u := lib.parseUrl(p.Url);
      if u.None? {
        return;
      }
      var document := lib.parseHtml(p.Data);
      if document.None? {
        return;
      }
      var ps := Analyze(p, u.value.hostname, document.value, lib);
      stats := stats[p.Url := ps];
    }

    /**
      `Report` as written: the slice is created with `len(stats)` nil
      entries and the records are appended after them, so the result has
      twice as many entries as there are records, the first half nil.
    */
    method Report() returns (result: seq<PageStats?>, ghost order: seq<string>)
      ensures |result| == 2 * |stats|
      ensures forall i :: 0 <= i < |stats| ==> result[i] == null
      ensures |order| == |stats| && NoDuplicates(order) && forall k :: k in order <==> k in stats
      ensures forall i :: 0 <= i < |order| ==> result[|stats| + i] == stats[order[i]]
    {
      result := seq(|stats|, _ => null);
      order := [];
      var remaining := stats.Keys;
      while remaining != {}
        invariant remaining <= stats.Keys
        invariant forall k :: k in order <==> k in stats && k !in remaining
        invariant NoDuplicates(order)
        invariant |result| == |stats| + |order|
        invariant forall i :: 0 <= i < |stats| ==> result[i] == null
        invariant forall i :: 0 <= i < |order| ==> result[|stats| + i] == stats[order[i]]
        decreases |remaining|
      {
        var k :| k in remaining;
        remaining := remaining - {k};
        result := result + [stats[k]];
        order := order + [k];
      }
      CountDistinctKeys(order, stats);
    }

    /**
      `Report` as evidently intended (`make` with length 0): each record once,
      no nil entries.
    */
    method ReportIntended() returns (result: seq<PageStats>, ghost order: seq<string>)
      ensures |result| == |stats|
      ensures |order| == |stats| && NoDuplicates(order) && forall k :: k in order <==> k in stats
      ensures forall i :: 0 <= i < |order| ==> result[i] == stats[order[i]]
    {
      result := [];
      order := [];
      var remaining := stats.Keys;
      while remaining != {}
        invariant remaining <= stats.Keys
        invariant forall k :: k in order <==> k in stats && k !in remaining
        invariant NoDuplicates(order)
        invariant |result| == |order|
        invariant forall i :: 0 <= i < |order| ==> result[i] == stats[order[i]]
        decreases |remaining|
      {
        var k :| k in remaining;
        remaining := remaining - {k};
        result := result + [stats[k]];
        order := order + [k];
      }
      CountDistinctKeys(order, stats);
    }
  }

  /**
    The record `processPage` builds for a page whose URL has host `hostname`
    and whose body parses to `doc`, field by field.
  */
  method Analyze(p: PageResponse, hostname: string, doc: Document, lib: Libraries) returns (ps: PageStats)
    ensures fresh(ps)
    ensures DescribesResponse(ps, p, hostname, lib)
    ensures DescribesDocument(ps, p, hostname, doc, lib)
    ensures DescribesLinks(ps, hostname, doc, lib)
  {
    ps := new PageStats();
    RecordPage(ps, p, hostname, doc, lib);
    RecordLinks(ps, hostname, doc, lib);
  }

  /** The fields `processPage` sets one by one before it counts the links. */
  method RecordPage(ps: PageStats, p: PageResponse, hostname: string, doc: Document, lib: Libraries)
    modifies ps`Url, ps`Domain, ps`StatusCode, ps`Status, ps`ContentType, ps`Size
    modifies ps`WordCount, ps`CrawlDepth, ps`ResponseTimeMillis, ps`Emails
    modifies ps`Indexibility, ps`Title, ps`TitleLength, ps`MetaDescription
    modifies ps`MetaDescriptionLength, ps`MetaKeywords, ps`MetaKeywordsCount
    ensures DescribesResponse(ps, p, hostname, lib)
    ensures DescribesDocument(ps, p, hostname, doc, lib)
  {
    RecordResponse(ps, p, hostname, lib);
    RecordDocument(ps, p, hostname, doc, lib);
  }

  /**
    The last two steps of `processPage` on a record whose link totals are
    still zero: extract the links and count them against the lower-cased host.
  */
  method RecordLinks(ps: PageStats, hostname: string, doc: Document, lib: Libraries)
    requires ps.Inlinks == 0 && ps.UniqueInlinks == 0 && ps.Outlinks == 0 && ps.UniqueOutlinks == 0
    modifies ps`Inlinks, ps`UniqueInlinks, ps`Outlinks, ps`UniqueOutlinks
    ensures DescribesLinks(ps, hostname, doc, lib)
  {
    var links := ExtractLinks(doc);
    ps.CountLinks(ToLower(hostname), links, lib.parseUrl);
  }

  /** The fields `processPage` takes from the response and its body. */
  method RecordResponse(ps: PageStats, p: PageResponse, hostname: string, lib: Libraries)
    modifies ps`Url, ps`Domain, ps`StatusCode, ps`Status, ps`ContentType, ps`Size
    modifies ps`WordCount, ps`CrawlDepth, ps`ResponseTimeMillis, ps`Emails
    ensures DescribesResponse(ps, p, hostname, lib)
  {
    ps.Url := p.Url;
    ps.Domain := hostname;
    ps.StatusCode := p.StatusCode;
    ps.Status := lib.statusText(p.StatusCode);
    ps.ContentType := HeaderGet(p.Headers, "Content-Type");
    ps.Size := |p.Data|;
    ps.WordCount := CountWords(lib.stripHtml(p.Data), lib.isSeparator);
    ps.CrawlDepth := p.Depth;
    ps.ResponseTimeMillis := Quo(p.Duration, 1_000_000);
    var emails := ParseEmails(lib.emailMatches(p.Data));
    ps.Emails := Join(emails, ";");
  }

  /** The fields `processPage` takes from the parsed document. */
  method RecordDocument(ps: PageStats, p: PageResponse, hostname: string, doc: Document, lib: Libraries)
    modifies ps`Indexibility, ps`Title, ps`TitleLength, ps`MetaDescription
    modifies ps`MetaDescriptionLength, ps`MetaKeywords, ps`MetaKeywordsCount
    ensures DescribesDocument(ps, p, hostname, doc, lib)
  {
    ps.Indexibility := Indexibility(p, lib.parseUrl, hostname, doc);
    ps.Title := TitleText(doc);
    ps.TitleLength := Utf8Len(ps.Title);
    ps.MetaDescription := ExtractMetaDescription(doc);
    ps.MetaDescriptionLength := Utf8Len(ps.MetaDescription);
    var keywords, keywordsCount := ExtractMetaKeywords(doc);
    ps.MetaKeywords := keywords;
    ps.MetaKeywordsCount := keywordsCount;
  }

  /** A duplicate-free listing of exactly the keys of a map has one entry per key. */
  lemma CountDistinctKeys<V>(order: seq<string>, m: map<string, V>)
    requires NoDuplicates(order) && forall k :: k in order <==> k in m
    ensures |order| == |m|
  {
    var keys := set k | k in order;
    assert keys == m.Keys;
    DistinctCardinality(order);
  }

  lemma {:induction false} DistinctCardinality(xs: seq<string>)
    requires NoDuplicates(xs)
    ensures |set x | x in xs| == |xs|
  {
    if xs != [] {
      var p := xs[..|xs| - 1];
      DistinctCardinality(p);
      assert (set x | x in xs) == (set x | x in p) + {xs[|xs| - 1]};
      assert xs[|xs| - 1] !in p;
    }
  }

  /**
    Everything a stored record says about its page: the response's own
    fields, the document's title, metas and links, the stripped text's word
    count, the body's e-mail addresses and the response time in whole
    milliseconds (Go's truncating division).
  */
  ghost predicate Describes(ps: PageStats, p: PageResponse, hostname: string, doc: Document, lib: Libraries)
    reads ps
  {
    && DescribesResponse(ps, p, hostname, lib)
    && DescribesDocument(ps, p, hostname, doc, lib)
    && DescribesLinks(ps, hostname, doc, lib)
  }

  /** The fields read off the response: its status, headers, size, depth, timing, text and e-mails. */
  ghost predicate DescribesResponse(ps: PageStats, p: PageResponse, hostname: string, lib: Libraries)
    reads ps`Url, ps`Domain, ps`StatusCode, ps`Status, ps`ContentType, ps`Size
    reads ps`WordCount, ps`CrawlDepth, ps`ResponseTimeMillis, ps`Emails
  {
    && ps.Url == p.Url
    && ps.Domain == hostname
    && ps.StatusCode == p.StatusCode
    && ps.Status == lib.statusText(p.StatusCode)
    && ps.ContentType == HeaderGet(p.Headers, "Content-Type")
    && ps.Size == |p.Data|
    && ps.WordCount == Stats.WordCount(lib.stripHtml(p.Data), lib.isSeparator)
    && ps.CrawlDepth == p.Depth
    && ps.ResponseTimeMillis == Quo(p.Duration, 1_000_000)
    && ps.Emails == Join(FirstOccurrences(ValidEmails(lib.emailMatches(p.Data))), ";")
  }

  /** The fields read off the parsed document: indexability, title and metas. */
  ghost predicate DescribesDocument(ps: PageStats, p: PageResponse, hostname: string, doc: Document, lib: Libraries)
    reads ps`Indexibility, ps`Title, ps`TitleLength, ps`MetaDescription
    reads ps`MetaDescriptionLength, ps`MetaKeywords, ps`MetaKeywordsCount
  {
    && ps.Indexibility == IndexabilityOf(p, lib.parseUrl, hostname, doc)
    && ps.Title == TitleText(doc)
    && ps.TitleLength == Utf8Len(ps.Title)
    && ps.MetaDescription == MetaContent(doc, "description")
    && ps.MetaDescriptionLength == Utf8Len(ps.MetaDescription)
    && ps.MetaKeywords == MetaContent(doc, "keywords")
    && ps.MetaKeywordsCount == KeywordCount(ps.MetaKeywords)
  }

  /** The four link fields: totals over the document's links by kind, against the lower-cased host. */
  ghost predicate DescribesLinks(ps: PageStats, hostname: string, doc: Document, lib: Libraries)
    reads ps`Inlinks, ps`UniqueInlinks, ps`Outlinks, ps`UniqueOutlinks
  {
    var links := LinkCounts(doc);
    var host := ToLower(hostname);
    && ps.Inlinks == Total(links, KeysOfKind(links.Keys, Inbound, host, lib.parseUrl))
    && ps.UniqueInlinks == |KeysOfKind(links.Keys, Inbound, host, lib.parseUrl)|
    && ps.Outlinks == Total(links, KeysOfKind(links.Keys, Outbound, host, lib.parseUrl))
    && ps.UniqueOutlinks == |KeysOfKind(links.Keys, Outbound, host, lib.parseUrl)|
  }


  /** Over https or http, the start URL trims back to the stored website. */
  lemma GetWebsiteRoundTrip(s: Scraper, secure: bool)
    requires s.Website != [] && s.Website[0] !in "https:/" && s.Website[|s.Website| - 1] !in "https:/"
    ensures TrimProtocol(s.GetWebsite(secure)) == s.Website
  {
    TrimSchemePrefix(s.Website, secure);
  }

  /** A scheme prefix is trimmed away from a text that has no scheme runes at its ends. */
  lemma TrimSchemePrefix(w: string, secure: bool)
    requires w != [] && w[0] !in "https:/" && w[|w| - 1] !in "https:/"
    ensures TrimProtocol((if secure then "https://" else "http://") + w) == w
  {
    TrimUnchanged(w, "https://");
    if secure {
      TrimLeftPrefix("http", "s://" + w, "http://");
      assert "https://" + w == "http" + ("s://" + w);
      assert Trim("https://" + w, "http://") == "s://" + w;
      TrimLeftPrefix("s://", w, "https://");
    } else {
      TrimLeftPrefix("http://", w, "http://");
      TrimUnchanged(w, "http://");
    }
  }
}
