/**
 * One source, `fetch_ips(url)`: the page is requested, the elements its URL
 * designates are scanned for address-shaped tokens, and the tokens that pass
 * the validator are returned in order, duplicates kept. Any failure of the
 * request or of parsing gives the empty list.
 *
 * The HTTP request and the HTML parser are outside the model: a response is
 * either a failure or the texts the parser would hand back (the first
 * textarea's text if there is one, every `tr` text and every `li` text in
 * document order).
 */
module Fetch {
  import opened Optional
  import opened Text
  import opened Validator
  import opened Scanner

  /** The texts of the elements the extraction may look at. */
  datatype Page = Page(textarea: Option<string>, rows: seq<string>, items: seq<string>)

  /** What `requests.get` and the parser produce: a page, or an exception of any kind. */
  datatype Response = Failure | Success(page: Page)

  /** Where a source publishes its addresses. */
  datatype Strategy = TextareaText | TableRows | ListItems

  /** The source whose addresses sit in a textarea. */
  const TextareaUrl: string := "https://cf.vvhan.com/"

  /** The two sources whose addresses sit in table rows. */
  const TableUrls: set<string> := {"https://api.uouin.com/cloudflare.html", "https://ip.164746.xyz"}

  /** The strategy is chosen by exact equality of the URL; any other URL falls back to list items. */
  function StrategyFor(url: string): Strategy {
    if url == TextareaUrl then TextareaText
    else if url in TableUrls then TableRows
    else ListItems
  }

  /**
   * The tokens of several element texts, element after element in document
   * order: every token has the pattern's shape and holds no line break.
   */
  function ScanAll(texts: seq<string>): (tokens: seq<string>)
    ensures forall k :: 0 <= k < |tokens| ==> IsQuad(tokens[k]) && '\n' !in tokens[k]
  {
    if texts == [] then []
    else
      FindAllTokensAreQuads(texts[|texts| - 1]);
      ScanAll(texts[..|texts| - 1]) + FindAll(texts[|texts| - 1])
  }

  /** The raw tokens of a page, by the URL's strategy; no textarea gives none. */
  function Extract(url: string, page: Page): (tokens: seq<string>)
    ensures forall k :: 0 <= k < |tokens| ==> IsQuad(tokens[k]) && '\n' !in tokens[k]
  {
    match StrategyFor(url)
    case TextareaText =>
      (match page.textarea
       case None => []
       case Some(text) => FindAllTokensAreQuads(text); FindAll(text))
    case TableRows => ScanAll(page.rows)
    case ListItems => ScanAll(page.items)
  }

  /** The comprehension `[ip for ip in tokens if is_valid_ip(ip)]`. */
  function ValidOnly(tokens: seq<string>): (ips: seq<string>)
    ensures |ips| <= |tokens|
  {
    if tokens == [] then []
    else ValidOnly(tokens[..|tokens| - 1]) + (if IsValidIp(tokens[|tokens| - 1]) then [tokens[|tokens| - 1]] else [])
  }

  /**
   * What `fetch_ips` returns for a URL and the outcome of its request: only
   * valid, pattern-shaped addresses, and nothing after a failure.
   */
  function FetchResult(url: string, response: Response): (ips: seq<string>)
    ensures forall ip :: ip in ips ==> IsValidIp(ip) && IsQuad(ip)
    ensures response.Failure? ==> ips == []
  {
    match response
    case Failure => []
    case Success(page) =>
      ValidOnlyExact(Extract(url, page));
      ValidOnly(Extract(url, page))
  }

  /** `ip_list.extend(re.findall(ip_pattern, el.get_text()))` for every element in turn. */
  method ScanEach(texts: seq<string>) returns (ipList: seq<string>)
    ensures ipList == ScanAll(texts)
  {
    ipList := [];
    var i := 0;
    while i < |texts|
      invariant 0 <= i <= |texts|
      invariant ipList == ScanAll(texts[..i])
    {
      assert texts[..i + 1][..i] == texts[..i];
      ipList := ipList + FindAll(texts[i]);
      i := i + 1;
    }
    assert texts[..i] == texts;
  }

  /**
   * `fetch_ips(url)`: the valid tokens of the elements the URL designates, in
   * document order with duplicates kept, or nothing when the request or the
   * parsing failed.
   */
  method FetchIps(url: string, response: Response) returns (ips: seq<string>)
    ensures ips == FetchResult(url, response)
    ensures forall k :: 0 <= k < |ips| ==> IsValidIp(ips[k]) && IsQuad(ips[k])
    ensures response.Failure? ==> ips == []
  {
    if response.Failure? {
      return [];
    }
    var page := response.page;
    var ipList: seq<string> := [];
    if url == TextareaUrl {
      if page.textarea.Some? {
        ipList := FindAll(page.textarea.value);
      }
    } else if url in TableUrls {
      ipList := ScanEach(page.rows);
    } else {
      ipList := ScanEach(page.items);
    }
    assert ipList == Extract(url, page);
    ips := ValidOnly(ipList);
    ValidOnlyExact(ipList);
    forall k | 0 <= k < |ips| ensures IsValidIp(ips[k]) && IsQuad(ips[k]) {
      assert ips[k] in ips;
      var j :| 0 <= j < |ipList| && ipList[j] == ips[k];
    }
  }

  // ---------------------------------------------------------------------
  // The filter keeps exactly the valid tokens, in order, duplicates kept.

  /** Filtering a concatenation filters each part. */
  lemma {:induction false} ValidOnlyAppend(a: seq<string>, b: seq<string>)
    ensures ValidOnly(a + b) == ValidOnly(a) + ValidOnly(b)
    decreases |b|
  {
    if b == [] {
      assert a + b == a;
    } else {
      var c := a + b;
      assert c[..|c| - 1] == a + b[..|b| - 1];
      assert c[|c| - 1] == b[|b| - 1];
      ValidOnlyAppend(a, b[..|b| - 1]);
    }
  }

  /** A single token is kept exactly when it is valid. */
  lemma ValidOnlySingle(t: string)
    ensures ValidOnly([t]) == if IsValidIp(t) then [t] else []
  {
    assert [t][..0] == [];
  }

  /**
   * Each valid token is kept as many times as it occurs and every invalid one
   * is dropped: the filter is exact, and so its elements are exactly the
   * valid tokens.
   */
  lemma {:induction false} ValidOnlyExact(tokens: seq<string>)
    ensures forall t :: multiset(ValidOnly(tokens))[t] == if IsValidIp(t) then multiset(tokens)[t] else 0
    ensures forall t :: t in ValidOnly(tokens) <==> t in tokens && IsValidIp(t)
  {
    if tokens != [] {
      var init := tokens[..|tokens| - 1];
      var last := tokens[|tokens| - 1];
      ValidOnlyExact(init);
      assert tokens == init + [last];
      forall t ensures t in ValidOnly(tokens) <==> t in tokens && IsValidIp(t) {
        assert multiset(ValidOnly(tokens))[t] == if IsValidIp(t) then multiset(tokens)[t] else 0;
      }
    }
  }

  // ---------------------------------------------------------------------
  // The extraction.

  /** Scanning consecutive groups of elements concatenates their tokens. */
  lemma {:induction false} ScanAllAppend(a: seq<string>, b: seq<string>)
    ensures ScanAll(a + b) == ScanAll(a) + ScanAll(b)
    decreases |b|
  {
    if b == [] {
      assert a + b == a;
    } else {
      var c, init, last := a + b, b[..|b| - 1], b[|b| - 1];
      assert c[..|c| - 1] == a + init && c[|c| - 1] == last;
      ScanAllAppend(a, init);
      assert ScanAll(c) == ScanAll(a + init) + FindAll(last);
      assert ScanAll(b) == ScanAll(init) + FindAll(last);
    }
  }

  /** The tokens of one element are its scan. */
  lemma ScanAllSingle(t: string)
    ensures ScanAll([t]) == FindAll(t)
  {
    assert [t][..0] == [];
  }

  /**
   * Scanning the whole textarea text, as the code does, finds the same
   * tokens as scanning it line by line: no token spans a line break.
   */
  lemma {:induction false} ScanByLines(text: string)
    ensures FindAll(text) == ScanAll(Split(text, '\n'))
    decreases |text|
  {
    if '\n' !in text {
      SplitNoSeparator(text, '\n');
      ScanAllSingle(text);
    } else {
      var j := FirstIndex(text, '\n');
      var a, b := text[..j], text[j + 1..];
      assert text == a + ['\n'] + b;
      SplitAfterSeparator(a, b, '\n');
      ScanSplitsAtSeparator(a, '\n', b);
      ScanByLines(b);
      ScanAllAppend([a], Split(b, '\n'));
      ScanAllSingle(a);
    }
  }

  /**
   * The tokens the strategy extracts, stated per strategy: the first
   * textarea's text line by line (nothing without a textarea), or every
   * table row's text, or every list item's text, in document order.
   */
  lemma ExtractByStrategy(url: string, page: Page)
    ensures url == TextareaUrl && page.textarea.None? ==> Extract(url, page) == []
    ensures url == TextareaUrl && page.textarea.Some? ==>
      Extract(url, page) == ScanAll(Split(page.textarea.value, '\n'))
    ensures url != TextareaUrl && url in TableUrls ==> Extract(url, page) == ScanAll(page.rows)
    ensures url != TextareaUrl && url !in TableUrls ==> Extract(url, page) == ScanAll(page.items)
  {
    if url == TextareaUrl && page.textarea.Some? {
      ScanByLines(page.textarea.value);
    }
  }

  /** Only the URL's own elements matter: the other texts of the page are never looked at. */
  lemma ExtractReadsOnlyItsElements(url: string, p: Page, q: Page)
    requires StrategyFor(url) == TextareaText ==> p.textarea == q.textarea
    requires StrategyFor(url) == TableRows ==> p.rows == q.rows
    requires StrategyFor(url) == ListItems ==> p.items == q.items
    ensures FetchResult(url, Success(p)) == FetchResult(url, Success(q))
  {
  }

  /**
   * The result of a source is exactly the valid extracted tokens, each as
   * many times as it was extracted, and nothing at all after a failure.
   */
  lemma FetchResultExact(url: string, response: Response)
    ensures response.Failure? ==> FetchResult(url, response) == []
    ensures response.Success? ==> forall t ::
      multiset(FetchResult(url, response))[t] ==
        if IsValidIp(t) then multiset(Extract(url, response.page))[t] else 0
  {
    if response.Success? {
      ValidOnlyExact(Extract(url, response.page));
    }
  }
  /**
   * The textarea source on a page whose textarea holds the lines "5.6.7.8"
   * and "bad line 999.1.1.1": both addresses are scanned, and only the
   * in-range one is returned.
   */
  lemma TextareaSourceExample()
    ensures var text := "5.6.7.8" + ['\n'] + ("bad" + [' '] + ("line" + [' '] + "999.1.1.1"));
      FetchResult(TextareaUrl, Success(Page(Some(text), [], []))) == ["5.6.7.8"]
  {
    var text := "5.6.7.8" + ['\n'] + ("bad" + [' '] + ("line" + [' '] + "999.1.1.1"));
    TextareaExample();
    assert Extract(TextareaUrl, Page(Some(text), [], [])) == ["5.6.7.8"] + ["999.1.1.1"];
    KeepsFirstDropsSecond();
  }

  /** Of the two scanned addresses, the filter keeps "5.6.7.8" and drops "999.1.1.1". */
  lemma KeepsFirstDropsSecond()
    ensures ValidOnly(["5.6.7.8"] + ["999.1.1.1"]) == ["5.6.7.8"]
  {
    SecondAcceptedExample();
    OutOfRangeExamples();
    ValidOnlyAppend(["5.6.7.8"], ["999.1.1.1"]);
    ValidOnlySingle("5.6.7.8");
    ValidOnlySingle("999.1.1.1");
  }

  /**
   * On a token the scanner extracts, only two checks of the validator can
   * still fail: a part above 255, or a reserved literal.
   */
  lemma ValidToken(t: string)
    requires IsQuad(t)
    ensures IsValidIp(t) <==>
      (forall k :: 0 <= k < 4 ==> Value(Split(t, '.')[k]) <= 255) && t !in Reserved
  {
    ValidIpConditions(t);
  }
}
