/**
 * The script's top level: one `fetch_ips` task per configured URL, their
 * results unioned into `all_ips` as they complete, and the set written out
 * in sorted order. The network and the page contents are parameters (one
 * response per URL), and so is the completion order of the tasks.
 */
module Collector {
  import opened Optional
  import opened Validator
  import opened Scanner
  import opened Fetch
  import opened Aggregate
  import opened Output

  /** The configured sources, in submission order. */
  const Urls: seq<string> := ["https://api.uouin.com/cloudflare.html", "https://ip.164746.xyz", "https://cf.vvhan.com/"]

  /** An address some source reported. */
  predicate Reported(responses: seq<Response>, ip: string)
    requires |responses| == |Urls|
  {
    exists j :: 0 <= j < |Urls| && ip in FetchResult(Urls[j], responses[j])
  }

  /**
   * One run: every source is fetched, the valid addresses of all sources are
   * collected whatever order the tasks finish in, and the file's lines are
   * those addresses, each once, in ascending string order.
   */
  method Run(responses: seq<Response>, order: seq<nat>) returns (lines: seq<string>, content: string)
    requires |responses| == |Urls|
    requires IsCompletionOrder(order, |Urls|)
    ensures Ascending(lines)
    ensures forall ip :: ip in lines <==> Reported(responses, ip)
    ensures forall k :: 0 <= k < |lines| ==> IsValidIp(lines[k]) && IsQuad(lines[k])
    ensures content == FileText(lines)
  {
    var outcomes: seq<Option<seq<string>>> := [];
    var j := 0;
    while j < |Urls|
      invariant 0 <= j <= |Urls| && |outcomes| == j
      invariant forall i :: 0 <= i < j ==> outcomes[i] == Some(FetchResult(Urls[i], responses[i]))
    {
      var ips := FetchIps(Urls[j], responses[j]);
      outcomes := outcomes + [Some(ips)];
      j := j + 1;
    }
    var allIps := Collect(outcomes, order);
    CollectedIsReported(responses, outcomes);
    lines := SortAddresses(allIps);
    forall k | 0 <= k < |lines| ensures IsValidIp(lines[k]) && IsQuad(lines[k]) {
      ReportedValid(responses, lines[k]);
    }
    content := WriteLines(lines);
  }

  /** The union of the sources' results holds exactly the reported addresses. */
  lemma CollectedIsReported(responses: seq<Response>, outcomes: seq<Option<seq<string>>>)
    requires |responses| == |Urls| && |outcomes| == |Urls|
    requires forall i :: 0 <= i < |Urls| ==> outcomes[i] == Some(FetchResult(Urls[i], responses[i]))
    ensures forall ip :: ip in Collected(outcomes) <==> Reported(responses, ip)
  {
    forall ip ensures ip in Collected(outcomes) <==> Reported(responses, ip) {
      if ip in Collected(outcomes) {
        var i :| 0 <= i < |outcomes| && outcomes[i].Some? && ip in outcomes[i].value;
        assert ip in FetchResult(Urls[i], responses[i]);
      }
      if Reported(responses, ip) {
        var i :| 0 <= i < |Urls| && ip in FetchResult(Urls[i], responses[i]);
        assert outcomes[i].Some? && ip in outcomes[i].value;
      }
    }
  }

  /** Every reported address is valid and has the pattern's shape. */
  lemma ReportedValid(responses: seq<Response>, ip: string)
    requires |responses| == |Urls| && Reported(responses, ip)
    ensures IsValidIp(ip) && IsQuad(ip)
  {
    var i :| 0 <= i < |Urls| && ip in FetchResult(Urls[i], responses[i]);
  }

  /**
   * Partial failure: when one source fails, the addresses of the others are
   * still reported, and only those.
   */
  lemma OneSourceFails(responses: seq<Response>, j: nat, ip: string)
    requires |responses| == |Urls| && j < |Urls|
    ensures Reported(responses[j := Failure], ip) <==>
      exists i :: 0 <= i < |Urls| && i != j && ip in FetchResult(Urls[i], responses[i])
  {
    var failed := responses[j := Failure];
    if Reported(failed, ip) {
      var i :| 0 <= i < |Urls| && ip in FetchResult(Urls[i], failed[i]);
      assert i != j;
    }
    if exists i :: 0 <= i < |Urls| && i != j && ip in FetchResult(Urls[i], responses[i]) {
      var i :| 0 <= i < |Urls| && i != j && ip in FetchResult(Urls[i], responses[i]);
      assert failed[i] == responses[i];
    }
  }

  /**
   * Deduplication: an address that any source reports, or several sources
   * report, is written on exactly one line.
   */
  lemma ReportedWrittenOnce(responses: seq<Response>, lines: seq<string>, ip: string)
    requires |responses| == |Urls|
    requires Ascending(lines) && forall x :: x in lines <==> Reported(responses, x)
    requires Reported(responses, ip)
    ensures multiset(lines)[ip] == 1
  {
    AscendingOnce(lines, ip);
  }
}
