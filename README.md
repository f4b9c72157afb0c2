# Cloudflare address collector, modelled in Dafny

`collect_ips.py` fetches three web pages that publish IPv4 addresses. For
each page it picks the elements the URL says to look at: the first
`<textarea>`, every `<tr>`, or every `<li>`. It scans their text with the
regular expression `\d{1,3}(?:\.\d{1,3}){3}` and keeps the tokens that
`is_valid_ip` accepts. The lists from all pages go into one set as the
worker threads finish, and the set is written to `ip.txt` in sorted order.

The model follows that pipeline, one module per stage:

| file | module | what it models |
|---|---|---|
| `optional.dfy` | `Optional` | the `Option` wrapper (an absent textarea, a future that raised) |
| `text.dfy` | `Text` | `str.split('.')`, its inverse `join`, `str.isdigit`, `int()` |
| `validator.dfy` | `Validator` | `is_valid_ip` |
| `scanner.dfy` | `Scanner` | `re.findall(ip_pattern, text)` as a deterministic left-to-right scanner |
| `fetch.dfy` | `Fetch` | `fetch_ips`: strategy by URL, the `extend` loops, the filter, failure gives `[]` |
| `aggregate.dfy` | `Aggregate` | the `as_completed` loop that updates `all_ips` |
| `output.dfy` | `Output` | `sorted(all_ips)` in Python's string order, and the lines written |
| `collector.dfy` | `Collector` | the script's top level over the three configured URLs |

How the model is built:

- **The regular expression.** Backtracking on this pattern is deterministic.
  Each of the first three groups must be the whole digit run at its start,
  followed by a dot: taking fewer digits would leave a digit where the dot
  must be. The last group takes up to three digits, greedily. `MatchAt` is
  that matcher. `MatchAtIff` proves it equal to an independent description
  of the pattern: four dot-joined groups of one to three digits, with the
  last group as long as greed allows.
- **Matches start anywhere.** The pattern has no anchors, so a match may
  start in the middle of a longer digit run. In `"1234.5.6.7"` no match
  starts at the `1`, but `"234.5.6.7"` matches one position later. The
  model keeps this behaviour; nothing in `MatchesAt` asks the start to be a
  digit-run boundary.
- **Strings and digits.** Strings are `seq<char>`. Python compares them by
  code point, and `Below` does the same.
- **The page.** A page is the output of the HTML parser, already extracted:
  - the text of the first textarea, if there is one;
  - the texts of all `tr` elements, in document order;
  - the texts of all `li` elements, in document order.
- **Request failures.** A `requests` exception and an exception raised
  while parsing both end in the same `except` branches. Both are the single
  response `Failure`.
- **The thread pool.** Its observable outcome is two things. The first is
  the value each future holds: a list, or `None` when `future.result()`
  raises. The second is the order `as_completed` yields the futures in: any
  permutation of the submission order (`IsCompletionOrder`). `Collect`
  proves the final set is the same for every such order.
- **The textarea.** The code takes the first `<textarea>` of any class and scans its whole text with one
  `findall`. A line-by-line scan gives the same tokens, because no match
  contains a line break. `ScanByLines` proves this equality.
- **Leading zeros.** A part such as `"01"` passes the validator, because only
  its value is checked (`LeadingZerosExample`). The check `num < 0` in the
  source can never be true, and the model leaves it out.

## Model

| member | source | states |
|---|---|---|
| `Text.Split` | collect_ips.py:20 | `ip.split('.')` always returns at least one piece |
| `Text.Value` | collect_ips.py:26 | `int(part)` of a digit string is below 10 to the power of its length, so a part of at most three digits is at most 999 |
| `Text.SplitPieces` | collect_ips.py:20 | no piece of `split('.')` contains a dot, and there is one piece exactly when the string has no dot |
| `Text.JoinSplit` | collect_ips.py:20 | joining the pieces of a split with the separator gives back the string |
| `Text.SplitJoin` | collect_ips.py:20 | splitting a join of separator-free pieces gives back the pieces |
| `Text.JoinOfDigits` | collect_ips.py:20-28 | a dot-join of digit strings holds only digits and dots, and has at least two characters per piece but one |
| `Text.LeadingZeroValue` | collect_ips.py:26 | a leading `'0'` leaves `int()` of a digit string unchanged |
| `Validator.IsValidIp` | collect_ips.py:19-32 | `is_valid_ip`: whatever it accepts is at least seven characters long and made of digits and dots only |
| `Validator.AllOctetsIff` | collect_ips.py:23-28 | the early-return loop over the parts accepts exactly when every part is digits only and at most 255 |
| `Validator.ValidIpConditions` | collect_ips.py:19-32 | `is_valid_ip` holds iff the split has 4 parts, each non-empty digits with value at most 255, and the string is not one of the three reserved literals |
| `Validator.ValidIpIsJoinOfOctets` | collect_ips.py:19-32 | the accepted strings are exactly the dot-joins of four octets, other than the reserved literals |
| `Validator.PaddedOctet` | collect_ips.py:24-28 | a part stays acceptable with a leading zero added |
| `Validator.MalformedExamples` | collect_ips.py:20-25 | `"1.2.3"`, `"1.2.3.4.5"`, `"1..2.3"` and `"1.2.3.a"` are rejected |
| `Validator.OutOfRangeExamples` | collect_ips.py:26-28 | `"256.1.1.1"` and `"999.1.1.1"` are rejected |
| `Validator.AcceptedExample` | collect_ips.py:19-32 | `"1.2.3.4"` is accepted |
| `Validator.SecondAcceptedExample` | collect_ips.py:19-32 | `"5.6.7.8"` is accepted |
| `Validator.LeadingZerosExample` | collect_ips.py:24-28 | `"01.002.3.4"` is accepted |
| `Validator.PaddedValues` | collect_ips.py:26 | `int("01")` is 1 and `int("002")` is 2 |
| `Validator.ReservedRejected` | collect_ips.py:30-31 | `0.0.0.0`, `127.0.0.1` and `255.255.255.255` are rejected |
| `Scanner.MatchAt` | collect_ips.py:16 | the pattern anchored at a position; a match is 7 to 15 characters long and ends inside the text |
| `Scanner.DigitRunBounds` | collect_ips.py:16 | a `\d` run consists of digits and ends at the end of the text or at a non-digit |
| `Scanner.MatchAtSound` | collect_ips.py:16 | what the matcher reads at a position is four dot-joined groups of 1-3 digits with a greedy last group |
| `Scanner.MatchAtComplete` | collect_ips.py:16 | every greedy four-group text at a position is what the matcher reads there |
| `Scanner.MatchAtIff` | collect_ips.py:16 | the matcher matches `s[i..e]` at `i` iff that text has the pattern's shape and its last group is greedy |
| `Scanner.MatchedText` | collect_ips.py:16 | a matched text has the pattern's shape and contains no line break |
| `Scanner.FindAll` | collect_ips.py:47 | `re.findall(ip_pattern, text)`: every token is 7 to 15 characters long, and there are at most a seventh as many tokens as characters |
| `Scanner.FindAllFromBounds` | collect_ips.py:47 | from any position on, every token is 7 to 15 characters long and there are at most a seventh as many tokens as characters left, since tokens do not overlap (`ScanFrom`) |
| `Scanner.ScanFrom` | collect_ips.py:47 | the spans `findall` reports lie left to right, do not overlap, and each is a match at its own start |
| `Scanner.Tokens` | collect_ips.py:47 | each token is the substring of its span |
| `Scanner.FindAllFromSpans` | collect_ips.py:47 | the strings `findall` returns are the texts of those spans |
| `Scanner.FindAllSound` | collect_ips.py:47 | `findall` returns substrings of the text, in order and not overlapping, each one a greedy match of the pattern |
| `Scanner.FindAllTokensAreQuads` | collect_ips.py:47 | every token is four 1-3 digit groups joined by single dots and has no line break |
| `Scanner.ScanComplete` | collect_ips.py:47 | every position where the pattern matches lies inside some reported span |
| `Scanner.ScanSplitsAtSeparator` | collect_ips.py:47 | a character that is neither a digit nor a dot splits the scan: the tokens of the whole are those of the part before it, then those of the part after it |
| `Scanner.ScanIsolated` | collect_ips.py:47 | a part bounded by such a character is scanned as if it stood alone |
| `Scanner.NoDigitsNoTokens` | collect_ips.py:47 | a text without digits has no tokens |
| `Scanner.QuadAlone` | collect_ips.py:16 | the text `"1.2.3.4"` is its own single token |
| `Scanner.TokenAmongWords` | collect_ips.py:53 | an address between two digit-free words is the only token, as in a row `"Server: 1.2.3.4 online"` |
| `Scanner.LineQuadsAlone` | collect_ips.py:16 | the texts `"5.6.7.8"` and `"999.1.1.1"` are each their own single token |
| `Scanner.RowExample` | collect_ips.py:51-53 | the row text `"Server: 1.2.3.4 online"` has the single token `"1.2.3.4"` |
| `Scanner.TextareaExample` | collect_ips.py:44-47 | the textarea text with lines `"5.6.7.8"` and `"bad line 999.1.1.1"` has the tokens `"5.6.7.8"` and `"999.1.1.1"`, in that order |
| `Fetch.StrategyFor` | collect_ips.py:43-59 | the URL `cf.vvhan.com/` selects the textarea, the two table URLs select the rows, and every other URL the list items, by exact string equality |
| `Fetch.ScanAll` | collect_ips.py:51-53 | the tokens of a list of element texts all have the pattern's shape and no line break |
| `Fetch.Extract` | collect_ips.py:43-59 | the tokens extracted from a page by the URL's strategy all have the pattern's shape and no line break |
| `Fetch.ValidOnly` | collect_ips.py:62 | the filtered list is no longer than the token list |
| `Fetch.FetchResult` | collect_ips.py:35-73 | what `fetch_ips` returns: only valid, quad-shaped addresses, and `[]` after a failure |
| `Fetch.ScanEach` | collect_ips.py:51-53 | the loop that extends `ip_list` element by element ends with every element's tokens concatenated in document order |
| `Fetch.FetchIps` | collect_ips.py:35-73 | `fetch_ips` returns the valid tokens of the strategy's elements, each one valid and quad-shaped, and `[]` on any failure |
| `Fetch.ValidOnlyAppend` | collect_ips.py:62 | filtering a concatenation filters each part, so the order of the tokens is kept |
| `Fetch.ValidOnlySingle` | collect_ips.py:62 | one token is kept exactly when `is_valid_ip` accepts it |
| `Fetch.ValidOnlyExact` | collect_ips.py:62 | each valid token is kept as often as it occurs and each invalid one is dropped; the kept elements are exactly the valid tokens |
| `Fetch.ScanAllAppend` | collect_ips.py:51-53 | scanning consecutive groups of elements concatenates their tokens |
| `Fetch.ScanAllSingle` | collect_ips.py:51-53 | the tokens of a single element are its scan |
| `Fetch.ScanByLines` | collect_ips.py:44-47 | the single `findall` on the whole textarea text equals scanning its lines one by one |
| `Fetch.ExtractByStrategy` | collect_ips.py:43-59 | `cf.vvhan.com` scans only the textarea, line by line, and gets nothing without one; the two table URLs scan every `tr` text; any other URL scans every `li` text |
| `Fetch.ExtractReadsOnlyItsElements` | collect_ips.py:43-59 | pages that agree on the URL's own elements give the same result |
| `Fetch.FetchResultExact` | collect_ips.py:62-73 | the result is the extracted tokens that pass the validator, each with its multiplicity, and `[]` after a failure |
| `Fetch.ValidToken` | collect_ips.py:62 | on a scanned token the validator can only fail by a part above 255 or a reserved literal |
| `Fetch.KeepsFirstDropsSecond` | collect_ips.py:62 | the filter keeps `"5.6.7.8"` and drops `"999.1.1.1"` |
| `Fetch.TextareaSourceExample` | collect_ips.py:35-65 | `fetch_ips` on the textarea source, with the two-line textarea above, returns `["5.6.7.8"]` |
| `Aggregate.Contribution` | collect_ips.py:90-94 | definition only: the set `all_ips.update(ips)` adds for one future, empty when it raised; `Collected` and `Collect` state what the contributions add up to |
| `Aggregate.Collected` | collect_ips.py:80-92 | an address is in the union iff some task's list contains it |
| `Aggregate.Collect` | collect_ips.py:80-94 | the `as_completed` loop ends with that union, whatever the completion order |
| `Aggregate.CollectedIgnoresEmpty` | collect_ips.py:90-94 | a task that raised or returned nothing leaves exactly the other tasks' addresses |
| `Output.Below` | collect_ips.py:99 | Python's `<` on strings: compare code point by code point, a proper prefix first |
| `Output.BelowIrreflexive` | collect_ips.py:99 | no string sorts before itself |
| `Output.BelowTransitive` | collect_ips.py:99 | the string order is transitive |
| `Output.BelowTotal` | collect_ips.py:99 | two different strings are ordered one way and never both |
| `Output.Least` | collect_ips.py:99 | the chosen element of a non-empty set is below all its other elements |
| `Output.SortAddresses` | collect_ips.py:99 | `sorted(all_ips)` holds every address of the set, in strictly ascending string order, as many lines as the set has elements |
| `Output.AscendingDistinct` | collect_ips.py:99 | a strictly ascending list holds no address twice |
| `Output.AscendingOnce` | collect_ips.py:99 | each address of a strictly ascending list occurs in it exactly once |
| `Output.AscendingUnique` | collect_ips.py:99 | two strictly ascending lists with the same addresses are equal, so the written lines depend on the set alone |
| `Output.FileText` | collect_ips.py:99-100 | the file's text: each address followed by `'\n'`, in list order |
| `Output.WriteLines` | collect_ips.py:98-100 | the write loop, front to back, produces each address followed by a line break, in order |
| `Output.FileTextAppend` | collect_ips.py:99-100 | writing one more line appends that address and a line break to the text |
| `Output.FileTextLines` | collect_ips.py:98-100 | splitting the written text at line breaks gives back the addresses, then one empty piece |
| `Output.OrderExamples` | collect_ips.py:99 | `"10.0.0.1"` sorts before `"9.0.0.1"`, and `"1.2.3.4"` before `"10.0.0.1"` |
| `Output.SortedExample` | collect_ips.py:99 | the set `{"10.0.0.1", "9.0.0.1"}` is written as `"10.0.0.1"`, then `"9.0.0.1"` |
| `Collector.Run` | collect_ips.py:80-100 | the written lines are strictly ascending; they are exactly the addresses some source returned; each is valid and quad-shaped; the file text is those lines |
| `Collector.CollectedIsReported` | collect_ips.py:80-94 | the union of the sources' results holds exactly the addresses some source reported |
| `Collector.ReportedValid` | collect_ips.py:62 | every reported address is valid and quad-shaped |
| `Collector.OneSourceFails` | collect_ips.py:67-73 | when one source fails, the addresses reported are exactly those of the other sources |
| `Collector.ReportedWrittenOnce` | collect_ips.py:80-99 | every reported address, whether one source or several report it, is written on exactly one line |

## Left out

- The HTTP request (`requests.get(url, timeout=10)`) is network I/O. Its
  outcome is the parameter `Response`, which is a page or a failure.
- The HTML parser (`BeautifulSoup`, `find`, `find_all`, `get_text`) is a
  foreign library. The model takes the texts it would return as input.
  The test `if textarea:` is read as a test that a textarea was found
  (`Option`); a textarea with an empty text has no tokens anyway.
- The thread pool (`ThreadPoolExecutor`, `max_workers=5`, `as_completed`) is
  concurrency. It is replaced by a sequential loop over an arbitrary
  completion order. The futures run `fetch_ips`, which catches every
  `Exception`, so `Collector.Run` gives every future a list. `Collect` still
  handles a future that raises.
- File handling is I/O: removing an old `ip.txt`, opening it, and a failure
  to write. Only the text that would be written is modelled (`FileText`).
- All `print` diagnostics are advisory output and are not modelled.
- `\d` and `str.isdigit` also accept non-ASCII Unicode digits. The model
  accepts only the ASCII digits `'0'..'9'`.
- `Fetch.ValidOnly`: its own contract only bounds the length. The
  filter's exactness, order and multiplicities are stated by
  `Fetch.ValidOnlyExact` and `Fetch.ValidOnlyAppend`.
