# PortScanner, modelled in Dafny

PortScanner is a small Python TCP port and host scanner. It has four pieces of
sequential logic, and this project models each of them and proves what they return:

- **The multithreaded CLI's port-spec parser** (`parse_ports` in `src/mainScanner.py`).
  It turns `"22,80,443,1000-2000"` into a sorted list of ports without duplicates.
  `MainScanner.ParsePorts` models it as a loop over the comma-separated tokens that
  grows a set. The open-ports summary of `main()` is modelled as `MainScanner.OpenPorts`.
- **The single-threaded CLI's port-spec parser and sequential scan** (`src/single/scanner.py`).
  This parser keeps input order and duplicates, and it trips over empty parts.
  `SingleScanner.CliAgreesWithMain` and `SingleScanner.BlankPartContrast` pin down how it
  differs from the first parser.
- **Threaded port scanning** (`src/multi/scanner_thread.py`) and the **parallel host sweep**
  (`scan_hosts_parallel` in `src/ipscanner/ipscanner.py`).
  - Both submit one task per target, collect `(target, verdict)` pairs in completion
    order, and return them sorted by target.
  - The thread pool is replaced by `completed`, an arbitrary permutation of the targets
    supplied as input.
  - The methods prove the result is this: every target paired with its own verdict,
    duplicates included, sorted, and the same for every completion order.
  - Ports sort numerically. Hosts sort as Python strings, so `"10.0.0.10"` comes before
    `"10.0.0.2"`.
- **IP range expansion** (`expand_range` in `src/ipscanner/ipscanner.py`). It swaps
  reversed endpoints and walks a `while` loop over the integer values of the addresses.

The network is replaced by oracles:

- `isOpen: int -> bool` is `is_port_open(host, port, timeout)` with the host and timeout fixed.
- `isUp: string -> bool` is `_probe_host(host, probe_port, timeout)` with the port and timeout fixed.
- For addresses, `parse: string -> Option<Address>` stands for `ipaddress.ip_address(text)`.
  `render: Address -> string` stands for `str(address)`.
- `ipaddress.ip_address(n)` on an integer is modelled exactly, as `IpScanner.IntToAddress`.
  It gives IPv4 below 2^32, IPv6 below 2^128, and an error otherwise.

Python's own string and list operations are modelled in the modules `Text` and `Ordering`:

- `str.split`, and `str.split(sep, 1)` when the separator occurs;
- `str.strip` over Python's whitespace set;
- `int(text)`;
- string comparison;
- the stable `sorted(..., key=lambda x: x[0])`;
- `sorted` of a set;
- `range(lo, hi + 1)`.

The exceptions the two port-spec parsers and `expand_range` raise on their input text become
`None` of an `Option`:

- the `ValueError` of `int()` or of `ipaddress.ip_address`;
- the `TypeError` of comparing an IPv4 with an IPv6 address.

`int()` skips only its own whitespace around a number, and that is not the set
`str.strip()` removes: the separators U+001C to U+001F count as whitespace for `str.isspace()`
but not for `int()`. `Text.IntTrim` models the first and `Text.Strip` the second, so the model
rejects `int("\x1c5")` as Python does, while the multithreaded CLI's parser, which strips each
token first, reads the token `"\x1c5"` as port 5.

Where the code and its own docstring differ, the model follows the code:

- `expand_range`'s docstring (src/ipscanner/ipscanner.py:23-26) promises the list of IPs between
  the two endpoints. The code renders every value below 2^32 as IPv4 (see Findings).

An empty target list is scanned like any other and gives an empty table.

Modules:

| file | module | models |
|---|---|---|
| wrappers.dfy | Wrappers | `Option` |
| text.dfy | Text | `str.strip`, `str.split`, `int()` |
| ordering.dfy | Ordering | string order, stable sort by key, sorted set, `range` |
| probes.dfy | Probes | the list of (target, verdict) pairs |
| main_scanner.dfy | MainScanner | `src/mainScanner.py` |
| single_scanner.dfy | SingleScanner | `src/single/scanner.py` |
| scanner_thread.dfy | ScannerThread | `src/multi/scanner_thread.py` |
| ip_scanner.dfy | IpScanner | `src/ipscanner/ipscanner.py` |

## Model

| member | source | states |
|---|---|---|
| MainScanner.ParsePorts | src/mainScanner.py:8-20 | The parse fails exactly when the token-by-token reading fails. On success the list is strictly ascending, so it has no duplicates, it holds exactly the ports the tokens denote, and it is `sorted` of that set. |
| MainScanner.TokenPorts | src/mainScanner.py:12-19 | Definition, no contract of its own: what one token adds to `out` (stripped; blank adds nothing; `a-b` adds `range(a, b+1)`; otherwise one `int`; None for the ValueError). Its properties are TokenPortsMeaning, RangeToken, BlankTokenAddsNothing and NegativePortIsError. |
| MainScanner.PortSet | src/mainScanner.py:10-19 | Definition, no contract of its own: the set `out` after the loop over a list of tokens. Its properties are PortSetMembership, PortSetNoneIff and PortSetDependsOnTokensOnly. |
| MainScanner.SpecPorts | src/mainScanner.py:10-19 | Definition, no contract of its own: the set of a whole spec, its tokens being `spec.split(",")`. ParsePorts is proved against it. |
| MainScanner.TokenPortsMeaning | src/mainScanner.py:11-19 | An integer is added by a token exactly when the stripped token is non-empty and either is that integer or is a range `a-b` with a <= n <= b. |
| MainScanner.PortSetMembership | src/mainScanner.py:10-19 | A port is in the result exactly when some token adds it. |
| MainScanner.PortSetNoneIff | src/mainScanner.py:16-19 | The whole spec fails exactly when `int()` fails on some token. |
| MainScanner.UnionFailsAt | src/mainScanner.py:16-19 | A failing token makes the spec fail whatever follows it. |
| MainScanner.UnionNoneIff | src/mainScanner.py:11-19 | For any per-token reading, the accumulated set fails exactly when one token fails. |
| MainScanner.UnionMembership | src/mainScanner.py:10-19 | For any per-token reading, an integer is in the accumulated set exactly when one token adds it. |
| MainScanner.UnionAppend | src/mainScanner.py:10-19 | Reading more tokens unions their ports into the set read so far. |
| MainScanner.CombineAssociative | src/mainScanner.py:17-19 | Successive `out.update` and `out.add` steps can be grouped either way. |
| MainScanner.RangeToken | src/mainScanner.py:15-17 | A range token `a-b`, spaces around it included, adds exactly a..b inclusive, and nothing when a > b. |
| MainScanner.BlankTokenAddsNothing | src/mainScanner.py:12-14 | A token that is empty or blank after stripping adds nothing. |
| MainScanner.NotBlank | src/mainScanner.py:12-14 | A token that fails or adds a port is not blank. |
| MainScanner.PortSetDependsOnTokensOnly | src/mainScanner.py:10-20 | Two token lists with the same non-blank tokens give the same result. So reordering or repeating tokens, and adding or removing empty ones (double or trailing commas), change nothing. |
| MainScanner.NegativePortIsError | src/mainScanner.py:15-17 | `"-5"` is read as a range with an empty left side, and it is an error. |
| MainScanner.NumeralToken | src/mainScanner.py:18-19 | A token that is the decimal numeral of n adds exactly n. |
| MainScanner.NumeralRangeToken | src/mainScanner.py:15-17 | A token made of two decimal numerals joined by a dash adds exactly the integers between them. |
| MainScanner.OpenPorts | src/mainScanner.py:36 | The summary holds exactly the ports flagged open, and it is no longer than the results. |
| MainScanner.OpenPortsAppend | src/mainScanner.py:36 | The summary of concatenated results is the concatenation of the summaries, so result order is kept. |
| MainScanner.OpenPortsSorted | src/mainScanner.py:36 | A port-sorted result table gives an ascending summary. |
| SingleScanner.ScanPorts | src/single/scanner.py:23-28 | One entry per port: the i-th entry is the i-th port with its own verdict, so length and order are kept. |
| SingleScanner.PartPorts | src/single/scanner.py:41-45 | Definition, no contract of its own: what one unstripped part appends (`a-b` appends `range(a, b+1)`, otherwise one `int`; None for the ValueError). Its properties are RangePart, BlankPartIsError and PartAgreesWithToken. |
| SingleScanner.CliPorts | src/single/scanner.py:39-45 | Definition, no contract of its own: the list `out` after the loop over a list of parts. Its properties are CliFailsAt, CliPortsAppend and CliPortsLength. |
| SingleScanner.CliSpecPorts | src/single/scanner.py:39-45 | Definition, no contract of its own: the list of a whole argument, its parts being `s.split(",")`. ParsePortsCli is proved against it. |
| SingleScanner.ParsePortsCli | src/single/scanner.py:38-46 | The loop returns the part-by-part reading of the comma-separated parts, or fails when one part fails. |
| SingleScanner.CliFailsAt | src/single/scanner.py:41-45 | A part `int()` rejects makes the whole argument fail, whatever follows it. |
| SingleScanner.CliPortsAppend | src/single/scanner.py:39-46 | Reading two lists of parts one after the other gives the first list's ports followed by the second's: nothing is sorted or de-duplicated. |
| SingleScanner.ExtendAssociative | src/single/scanner.py:43-45 | Successive `out.extend` and `out.append` steps can be grouped either way. |
| SingleScanner.RepeatedPartsRepeatPorts | src/single/scanner.py:39-46 | Repeating the parts repeats the ports, duplicates kept. |
| SingleScanner.RangePart | src/single/scanner.py:41-43 | A part `a-b` appends a, a+1, ..., b in order, and nothing when a > b. |
| SingleScanner.BlankPartIsError | src/single/scanner.py:41-45 | An empty or blank part is an error: it is not skipped, and `int` rejects it. |
| SingleScanner.BlankPartContrast | src/single/scanner.py:38-46 | With a blank part, this parser fails, while the multithreaded CLI's parser gives the same result as without that part. |
| SingleScanner.CliPortsLength | src/single/scanner.py:40-45 | The number of ports is the sum over parts of 1 for a plain integer and max(0, b-a+1) for a range. |
| SingleScanner.PartAgreesWithToken | src/single/scanner.py:41-45 | A part this parser accepts adds, in the multithreaded CLI's parser, exactly the set of ports it appends here. |
| SingleScanner.CliAgreesWithMain | src/single/scanner.py:38-46 | When this parser accepts some parts, the multithreaded CLI's parser accepts them too and gives the same ports, de-duplicated. |
| SingleScanner.SeparatorPartContrast | src/single/scanner.py:45 | A part "\x1c5" is an error here, because `int()` does not skip U+001C, while the multithreaded CLI's parser strips the token first and reads port 5. |
| ScannerThread.ScanOne | src/multi/scanner_thread.py:21-23 | The port is paired with the verdict for that same port. |
| ScannerThread.ThreadedPortScan | src/multi/scanner_thread.py:25-40 | For every completion order: one entry per port, duplicates included; a permutation of the (port, verdict) pairs; sorted by port; each port with its own verdict; and equal to the table computed from the ports alone. |
| ScannerThread.CompletionOrderIrrelevant | src/multi/scanner_thread.py:36-40 | Sorting the pairs collected in any completion order gives the same table. |
| ScannerThread.PortTableOfAscendingPorts | src/multi/scanner_thread.py:40 | On ascending ports, which is what the spec parser hands over, the table is the in-order map of the probe. |
| ScannerThread.TwoOpenPortsScenario | src/multi/scanner_thread.py:25-40 | With 80 and 443 open, scanning 22, 80, 443 and 8080 gives the expected four-line table. |
| IpScanner.Expansion | src/ipscanner/ipscanner.py:27-41 | Definition, no contract of its own: what `expand_range` returns, None for its ValueError and TypeError. ExpandRange is proved against it; its properties are SwapEndpoints, RangeContents, RangeMembership, MixedFamiliesFail, BadEndpointFails and SingleAddress. |
| IpScanner.ExpandRange | src/ipscanner/ipscanner.py:22-41 | The swap and the `while` loop give the range's expansion. The loop invariant says `out` holds the renderings of low..cur-1 and low <= cur <= high+1. |
| IpScanner.IntToAddress | src/ipscanner/ipscanner.py:34-36 | `ip_address(n)` succeeds exactly on 0 <= n < 2^128, keeps the value, and is IPv4 exactly when n < 2^32. |
| IpScanner.Span | src/ipscanner/ipscanner.py:33-37 | Walking low..high gives high-low+1 entries, the k-th being the rendering of ip_address(low+k). |
| IpScanner.SwapEndpoints | src/ipscanner/ipscanner.py:31-32 | Writing the endpoints the other way round gives the same output. |
| IpScanner.RangeContents | src/ipscanner/ipscanner.py:27-38 | With one address family, the output has abs(end - start) + 1 >= 1 entries, the renderings of min..max in ascending numeric order. |
| IpScanner.RangeMembership | src/ipscanner/ipscanner.py:27-38 | With `render` injective, a rendered address is in the output exactly when its value lies between the endpoints. |
| IpScanner.SpanMembership | src/ipscanner/ipscanner.py:34-36 | In a walk of injectively rendered addresses from lo, an address's rendering occurs exactly when its value lies in the walk. |
| IpScanner.MixedFamiliesFail | src/ipscanner/ipscanner.py:31 | An IPv4 endpoint with an IPv6 endpoint is an error, the TypeError of the comparison. |
| IpScanner.BadEndpointFails | src/ipscanner/ipscanner.py:29-30 | An endpoint that is not an address makes the range fail. |
| IpScanner.SingleAddress | src/ipscanner/ipscanner.py:39-41 | Without a dash, the output is the one address given, or an error when it is not an address. |
| IpScanner.SmallIpv6RangeTurnsIpv4 | src/ipscanner/ipscanner.py:34-36 | As written, the IPv6 range with values 1..2 comes back as the IPv4 renderings of 1 and 2, not as the two IPv6 endpoints. |
| IpScanner.FamilySpan | src/ipscanner/ipscanner.py:33-37 | The corrected walk has high-low+1 entries, the k-th rendering the address of the endpoints' family with value low+k. |
| IpScanner.CorrectedExpansion | src/ipscanner/ipscanner.py:22-41 | Definition, no contract of its own: `expand_range` with every address in the range built in the endpoints' family. Its properties are CorrectedRangeKeepsFamily and CorrectedAgreesOnIpv4. |
| IpScanner.CorrectedRangeKeepsFamily | src/ipscanner/ipscanner.py:22-38 | The corrected expansion keeps the endpoints' family: it runs from the lower endpoint's rendering to the higher one's, and every entry is an address of that family. |
| IpScanner.CorrectedAgreesOnIpv4 | src/ipscanner/ipscanner.py:27-38 | On IPv4 endpoints the corrected expansion equals the source's. |
| IpScanner.ProbeHost | src/ipscanner/ipscanner.py:43-50 | The host is paired with the verdict for that same host. |
| IpScanner.ScanHostsParallel | src/ipscanner/ipscanner.py:52-63 | For every completion order: one entry per host, duplicates included; a permutation of the (host, verdict) pairs; sorted by host text; each host with its own verdict; and equal to the table computed from the hosts alone. |
| IpScanner.HostCompletionOrderIrrelevant | src/ipscanner/ipscanner.py:60-63 | Sorting the pairs collected in any completion order gives the same table. |
| IpScanner.HostsSortAsText | src/ipscanner/ipscanner.py:63 | Hosts 10.0.0.2 and 10.0.0.10 come back with 10.0.0.10 first: the sort compares text, not addresses. |
| Probes.Verdicts | src/ipscanner/ipscanner.py:60-62 | One (target, verdict) pair per target, in target order, each with that target's own verdict. |
| Probes.VerdictsCount | src/multi/scanner_thread.py:36-39 | A pair occurs as often as its target, and only with that target's verdict. |
| Probes.VerdictsPermutation | src/multi/scanner_thread.py:36-39 | Probing a permutation of the targets gives a permutation of the pairs. |
| Probes.VerdictsKeyFunctional | src/multi/scanner_thread.py:36-39 | A repeated target always carries the same verdict. |
| Probes.PermutedVerdictsAreOwn | src/multi/scanner_thread.py:37-40 | Any rearrangement of the pairs still pairs each target with its own verdict. |
| Ordering.SortByKey | src/multi/scanner_thread.py:40 | `sorted(results, key=lambda x: x[0])` is a permutation of its input, sorted by key, and of the same length. |
| Ordering.Insert | src/multi/scanner_thread.py:40 | One insertion step adds exactly the one pair. |
| Ordering.InsertSorted | src/multi/scanner_thread.py:40 | Inserting into a sorted list keeps it sorted. |
| Ordering.SortedUnique | src/multi/scanner_thread.py:40 | Two sorted permutations of one list of pairs, where the value is a function of the key, are equal. |
| Ordering.SortedHeadsEqual | src/multi/scanner_thread.py:40 | Two such sorted permutations start with the same pair. |
| Ordering.SortIndependentOfOrder | src/multi/scanner_thread.py:40 | The sorted result depends only on the multiset of pairs. |
| Ordering.SortOfSorted | src/multi/scanner_thread.py:40 | Sorting a list already in key order changes nothing. |
| Ordering.StrLe | src/ipscanner/ipscanner.py:63 | Definition, no contract of its own: Python's `<=` on `str`, code point by code point, a proper prefix first. Its properties are StrLeTotalOrder and HostOrderIsTextual. |
| Ordering.StrLeTotalOrder | src/ipscanner/ipscanner.py:63 | Python's string comparison is reflexive, antisymmetric, transitive and total. |
| Ordering.StrLeAntisymmetric | src/ipscanner/ipscanner.py:63 | Strings that compare both ways are equal. |
| Ordering.StrLeTransitive | src/ipscanner/ipscanner.py:63 | String comparison is transitive. |
| Ordering.StrLeTotal | src/ipscanner/ipscanner.py:63 | Any two strings compare one way or the other. |
| Ordering.StrLeReflexive | src/ipscanner/ipscanner.py:63 | A string compares below or equal to itself. |
| Ordering.IntLeTotalOrder | src/multi/scanner_thread.py:40 | Integer comparison is a total order. |
| Ordering.HostOrderIsTextual | src/ipscanner/ipscanner.py:63 | As text, "10.0.0.10" sorts strictly before "10.0.0.2". |
| Ordering.IntRange | src/mainScanner.py:17 | `range(lo, hi + 1)` has max(0, hi-lo+1) elements; the k-th is lo+k, and n is in it exactly when lo <= n <= hi. |
| Ordering.SortedElements | src/mainScanner.py:20 | `sorted(out)` is strictly ascending, holds exactly the set's elements, and has as many entries as the set. |
| Ordering.SortedElementsUnique | src/mainScanner.py:20 | `sorted(out)` is the only strictly ascending list holding exactly the elements of `out`. |
| Ordering.AscendingUnique | src/mainScanner.py:20 | Two strictly ascending lists with the same elements are equal. |
| Ordering.AscendingHeadsEqual | src/mainScanner.py:20 | Two such lists start with the same element. |
| Ordering.Least | src/mainScanner.py:20 | The element picked first is in the set and no greater than any other element. |
| Ordering.MinimumExists | src/mainScanner.py:20 | A non-empty finite set of integers has a least element. |
| Text.Split | src/mainScanner.py:11 | `spec.split(",")` is never empty, no piece holds a comma, and joining the pieces with commas gives the spec back. |
| Text.SplitJoin | src/mainScanner.py:11 | Splitting undoes joining pieces that hold no separator. |
| Text.SplitOnce | src/mainScanner.py:16 | `token.split("-", 1)` gives the text before the first dash and the text after it, which together with the dash make up the token. |
| Text.SplitOnceOf | src/mainScanner.py:16 | The split point is the first dash, so the two sides are recovered. |
| Text.IndexOf | src/mainScanner.py:16 | The index found holds the separator, and there is none before it. |
| Text.ParseInt | src/mainScanner.py:17-19 | What `int()` accepts is, after its own whitespace is skipped, a non-empty text that starts and ends with non-whitespace. |
| Text.ParseStripped | src/mainScanner.py:17-19 | What `int()` reads once whitespace is skipped starts with a sign or a digit and ends with a digit; the empty text is rejected. |
| Text.IntTrim | src/single/scanner.py:44-45 | Definition, no contract of its own: the text `int()` reads after skipping tab to carriage return, the space and the Unicode whitespace from U+0080 up, at both ends. Its properties are IntTrimShape and IntTrimUnique. |
| Text.IntTrimShape | src/single/scanner.py:44-45 | `int()`'s trimming removes a prefix and a suffix of its whitespace and leaves a text that is empty or starts and ends with something else. |
| Text.IntTrimUnique | src/single/scanner.py:44-45 | That shape determines the trimmed text. |
| Text.ParseIntIgnoresStrip | src/mainScanner.py:12-19 | When `int()` accepts a text, it accepts the stripped (or left- or right-stripped) text too, with the same value. |
| Text.StripAroundNumber | src/mainScanner.py:12 | Stripping a number surrounded by `int()` whitespace removes exactly that whitespace. |
| Text.SeparatorNotSkippedByInt | src/mainScanner.py:12-19 | `int("\x1c5")` fails, while `"\x1c5".strip()` is "5" and `int("5")` is 5: stripping can turn a rejected text into a number. |
| Text.ParseIntOfSpace | src/single/scanner.py:44-45 | `int()` of an empty or blank text fails. |
| Text.ParseDecimalString | src/mainScanner.py:17-19 | `int()` reads back every integer written in decimal. |
| Text.NatStringValue | src/mainScanner.py:17-19 | A decimal numeral is a digit run whose value is the number written. |
| Text.DecimalString | src/mainScanner.py:42 | Definition, no contract of its own: `str(n)` for a port, as the summary prints it. ParseDecimalString shows `int()` reads it back. |
| Text.NatString | src/mainScanner.py:17-19 | A decimal numeral is non-empty, starts and ends with a digit, and holds only digits and underscores. |
| Text.DigitValue | src/mainScanner.py:17-19 | A digit's value is below ten. |
| Text.DigitChar | src/mainScanner.py:17-19 | The numeral of a value below ten is a digit with that value. |
| Text.Strip | src/mainScanner.py:12 | Definition, no contract of its own: `str.strip()`, both sides of `isspace()` whitespace removed. Its properties are AllSpaceStrip, StripAfterPartialStrip and StripAround. |
| Text.LStrip | src/mainScanner.py:12 | Definition, no contract of its own: the left half of `str.strip()`. Its properties are LStripShape, LStripUnique and LStripKeeps. |
| Text.RStrip | src/mainScanner.py:12 | Definition, no contract of its own: the right half of `str.strip()`. Its properties are RStripShape, RStripUnique and RStripKeeps. |
| Text.AllSpaceStrip | src/mainScanner.py:12-13 | A token strips to empty exactly when it is all whitespace. |
| Text.LStripShape | src/mainScanner.py:12 | Left-stripping removes a whitespace prefix and leaves a text that is empty or starts with non-whitespace. |
| Text.RStripShape | src/mainScanner.py:12 | Right-stripping removes a whitespace suffix and leaves a text that is empty or ends with non-whitespace. |
| Text.LStripUnique | src/mainScanner.py:12 | A whitespace prefix before non-whitespace is exactly what left-stripping removes. |
| Text.RStripUnique | src/mainScanner.py:12 | A whitespace suffix after non-whitespace is exactly what right-stripping removes. |
| Text.StripCommutes | src/mainScanner.py:12 | Stripping the left and the right side in either order gives the same text. |
| Text.StripCommutesCore | src/mainScanner.py:12 | Right-stripping a left-stripped text equals left-stripping the right-stripped text. |
| Text.StripLStripIdempotent | src/mainScanner.py:12 | Left-stripping a stripped text changes nothing. |
| Text.StripRStripIdempotent | src/mainScanner.py:12 | Right-stripping a stripped text changes nothing. |
| Text.StripAfterPartialStrip | src/mainScanner.py:12 | Stripping is idempotent, and stripping after a one-sided strip gives the plain strip. |
| Text.LStripKeeps | src/mainScanner.py:12 | Left-stripping stops at the first non-whitespace character. |
| Text.RStripKeeps | src/mainScanner.py:12 | Right-stripping stops at the last non-whitespace character. |
| Text.StripAround | src/mainScanner.py:12-16 | Stripping `a-b` strips only the outer ends of a and b. |

## Left out

- Socket I/O in `is_port_open` and `_probe_host` (creating, connecting, timing out and closing
  sockets). These are replaced by the total oracles `isOpen` and `isUp`.
- `ThreadPoolExecutor`, `as_completed` and the `max_workers` bound. Concurrency is modelled only
  as an arbitrary completion order fed to the sequential collect-then-sort.
- Exceptions outside the probes' `try`. `socket.socket(...)` and `sock.settimeout(timeout)` run
  before it (src/single/scanner.py:15-16, src/multi/scanner_thread.py:13-14,
  src/ipscanner/ipscanner.py:44-45). Their OSError, or the ValueError of a negative timeout,
  comes back through `fut.result()` and makes the whole scan raise. `ThreadPoolExecutor` raises
  ValueError when `max_workers <= 0`. The oracles are total, so the model has no failing probe
  and no failing pool.
- Probes that disagree. `isOpen` and `isUp` are functions, so two probes of one target always
  give the same verdict. On a real network two probes of a repeated port or host can disagree,
  and the stable sort then keeps their entries in completion order. The result is the same for
  every completion order only because the oracles are functions. This holds for the last
  ensures of `ThreadedPortScan` and `ScanHostsParallel` and for `CompletionOrderIrrelevant` and
  `HostCompletionOrderIrrelevant`.
- Timeouts, `DEFAULT_TIMEOUT` and `DEFAULT_PROBE_PORT`. They are floats or only matter to real
  sockets, and they are folded into the oracles.
- `expand_cidr`. It is a thin wrapper over `ipaddress.ip_network(...).hosts()`, library code that
  is not part of this model.
- The internals of `ipaddress.ip_address` on text and of `str()` on an address. They are the
  oracles `parse` and `render`, and where a property needs `render` to be injective, the lemma
  requires it.
- argparse, all printing, `main()` apart from the filter on line 36, and the `__main__` blocks,
  except the single-threaded CLI's `parse_ports`, which is modelled.
- `src/ipscanner/__init__.py`, which only re-exports names.
- Text.ParseInt: reads ASCII decimal digits only. Python's `int()` also accepts other Unicode
  decimal digits; these are not modelled, and a text holding them is rejected.
- Ordering.SortByKey: stability is not stated as a contract of its own. On the scan results it
  does not matter, because pairs with equal keys are equal (`Probes.VerdictsKeyFunctional`).
- `ScanPorts`, `ThreadedPortScan` and `ScanHostsParallel` take a list. The source accepts any
  iterable and turns it into a list first, or, in `scan_ports`, iterates it once.

## Findings

| source | as written | input that shows it | evidently intended | confidence | as-written member | corrected member |
|---|---|---|---|---|---|---|
| src/ipscanner/ipscanner.py:34-36 | Every value between the endpoints is turned back into an address with `ipaddress.ip_address(cur)`. That gives an IPv4 address for every value below 2^32, whatever the endpoints' family. | `expand_range("::1-::2")` gives `["0.0.0.1", "0.0.0.2"]` | `["::1", "::2"]`: the addresses between the endpoints, in the endpoints' family | not executed | IpScanner.SmallIpv6RangeTurnsIpv4 | IpScanner.CorrectedRangeKeepsFamily |

`IpScanner.ExpandRange` models the code as written, and `IpScanner.Expansion` is its
specification. `IpScanner.CorrectedExpansion` is the corrected definition, and
`IpScanner.CorrectedRangeKeepsFamily` proves the corrected range keeps the endpoints' family.
`IpScanner.CorrectedAgreesOnIpv4` shows the two agree on IPv4 ranges.
