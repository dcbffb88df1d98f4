# networktree — device identity and ledger, modelled in Dafny

networktree is a LAN scanner. It merges an ICMP sweep with the kernel
neighbour table (`ip neigh`), prints a per-/24 tree of hosts, and keeps a
JSON ledger of every hardware address it has ever seen. This project models
the pure core of that scanner as total Dafny functions, and proves what each
one promises.

The model covers three groups of code:

- **Identity helpers** (`extras.py`). MAC canonicalisation (`MacAddress.NormalizeMac`).
  Detection of locally administered ("randomised") addresses, via the U/L bit
  of the first octet as IEEE Std 802-2014 clause 8 defines it (`MacAddress.IsRandomMac`).
  The ordered keyword classifier (`Classifier`). The MAC-visibility zone heuristic (`Zone`).
- **The cross-scan ledger** (`json_memory.py`). `update_memory` is a fold of one
  scan into a MAC-keyed store (`Ledger.UpdateMemory`). The module also has the
  vendor-lookup guard and OUI key, `annotate_devices_with_new_flag`, and
  `find_offline_devices`.
- **The scan table** (blocks of `main.py`). Parsing `ip neigh` lines, the
  PING/ARP merge, /24 grouping, the Sparse/Heavy tag and the source label
  (`ScanTable`).

Python dicts are modelled as insertion-ordered sequences of key/value pairs
(`OrderedMap`), so "a later write wins" and iteration order can be stated.
Python `str` operations are modelled in `Text`: `lower`, `strip`, `split`,
`split(sep)`, `join`, `replace` and `in`. The vendor search (`grep` over the
OUI file) is a function parameter. The clock is an integer parameter `now`.
The iteration order of the ping set is a sequence parameter.

Points where the code's behaviour is easy to misread:

- There is no vendor cache. Every `lookup_vendor` call shells out to one search.
- `seen_count` grows once per device entry that carries the MAC, not once per
  scan. Two IPs showing one MAC in a single scan add 2.
- Phones outrank Apple. A vendor that matches a phone keyword and "apple" is a Phone.
- Ledger keys are raw MAC strings. Only `None`, `""` and the exact string
  `"unknown"` are skipped. Nothing is normalised before it is stored.
- `find_offline_devices` has no `return` (see Findings).

## Model

| member | source | states |
|---|---|---|
| MacAddress.NormalizeMac | extras.py:16-37 | The result is "unknown" or the canonical form: six lower-case hex pairs joined by colons. It is not "unknown" exactly when the lower-cased input holds twelve hex digits, and then its digits are those twelve, in order. |
| MacAddress.NormalizeMacIdempotent | extras.py:16-37 | Normalising twice gives the same result as normalising once. |
| MacAddress.NormalizeMacVariants | extras.py:28-37 | Two inputs with the same lower-cased hex digits normalise to the same string. |
| MacAddress.NormalizeMacSpellings | extras.py:17-23 | A twelve-digit address in any case, written bare, with colons or with dashes, normalises to its lower-case colon form. These are the docstring's three accepted spellings. |
| MacAddress.UniversalLocalBit | extras.py:53-58 | The `& 0b10` test on the first octet is set exactly when the octet's low hex digit, taken mod 4, is at least 2. |
| MacAddress.IsRandomMac | extras.py:43-58 | False whenever normalisation gives "unknown". Otherwise true exactly when bit 0b10 of the first octet is set. |
| MacAddress.IsRandomMacSpellings | extras.py:43-58 | For any twelve hex digits, written bare, with colons or with dashes, in any case, the address is random exactly when its second hex digit is one of 2, 3, 6, 7, a, b, e, f (either case). |
| MacAddress.IsRandomMacLocalExample | extras.py:57-58 | Every colon-separated address whose first octet is 02, such as 02:11:22:33:44:55, is locally administered. |
| MacAddress.IsRandomMacUniversalExample | extras.py:57-58 | No colon-separated address whose first octet is 00, such as 00:11:22:33:44:55, is locally administered. |
| MacAddress.IsRandomMacUnknownExample | extras.py:48-50 | The sentinel "unknown" is not a random address. |
| Classifier.MatchAnyIsContainment | extras.py:83-88 | `match_any` is plain substring containment. Every token of the cleaned vendor already occurs in it. |
| Classifier.ClassifyVendor | extras.py:79-165 | The keyword if-chain on a cleaned vendor. Its contract is Classifier.ClassifyVendorIsFirstMatch and Classifier.RulePriority. |
| Classifier.ClassifyVendorIsFirstMatch | extras.py:90-165 | The if-chain equals "the first list in the order Phone, Apple, Laptop/PC, Network, IoT that has a keyword in the vendor, else Device". |
| Classifier.RulePriority | extras.py:90-165 | For each label, both directions: that label is returned exactly when its list matches and no earlier list does. |
| Classifier.ClassifyDeviceType | extras.py:64-165 | "Random Device" exactly when the random flag is set, whatever the vendor. Otherwise the first-match label of the cleaned vendor; a missing vendor counts as empty. |
| Classifier.LenovoIsPhone | extras.py:91-130 | A vendor containing "lenovo", which is on both the phone and PC lists, is a Phone. |
| Classifier.AppleOutranksLaterLists | extras.py:110-112 | A vendor containing "apple" and no phone keyword is an Apple Device, whatever later lists it matches. |
| Classifier.ClassifyDevice | extras.py:200-204 | The unified classifier's result does not depend on the MAC argument. |
| Zone.CountVisible | extras.py:182-184 | At most the number of hosts, and zero exactly when no host has a MAC that normalises to something other than "unknown". |
| Zone.RatioBelowHalf | extras.py:186-191 | The float test `count / n < 0.5` holds exactly when `2 * count < n`. |
| Zone.DetectZone | extras.py:171-194 | L3-REMOTE for an empty list or for no visible MAC. L2-NEARBY exactly when some MAC is visible and fewer than half are. L2-LOCAL exactly when at least half are. |
| Zone.AddHostMonotone | extras.py:171-194 | Adding a host with a visible MAC never lowers the zone's rank, and adding one without never raises it. |
| Ledger.OuiKeyOfCanonical | json_memory.py:23 | For a canonical MAC, the grep key is its first three octets upper-cased, without colons. |
| Ledger.LookupVendor | json_memory.py:18-27 | Empty input and "unknown" give "unknown vendor" without a search. For any other MAC, a non-blank search result for its OUI key is returned stripped, and a blank one gives "unknown vendor". The result is never empty. |
| Ledger.UpdateMemory | json_memory.py:52-99 | The loop of `update_memory` as a fold over the scan. Its contract is stated by the UpdateMemory lemmas in the rows below. |
| Ledger.UpdateMemoryIgnoresUntracked | json_memory.py:67-70 | A scan whose devices carry only `None`, empty or "unknown" MACs leaves the store unchanged and reports no new MAC. |
| Ledger.UpdateMemoryKeys | json_memory.py:67-99 | The keys afterwards are the old keys plus the scan's tracked MACs. `new_macs` is exactly the keys after the call minus the keys before it. |
| Ledger.UpdateMemoryKeyOrder | json_memory.py:73-74 | No key is removed or reordered: the old keys are a prefix of the new key sequence. |
| Ledger.UpdateMemoryDistinct | json_memory.py:73-74 | The store stays a dict: no key occurs twice. |
| Ledger.UpdateMemoryRerun | json_memory.py:67-99 | Running the same scan again, at any later time, reports no new MAC. |
| Ledger.UpdateMemoryUntouched | json_memory.py:67-97 | A MAC the scan does not carry keeps its record unchanged, or stays absent. |
| Ledger.UpdateMemoryRecord | json_memory.py:73-89 | A MAC the scan carries has a record afterwards. Its last-seen time is now and its last IP is the last IP that showed it. First-seen and the stored MAC are kept from an existing record; a new record gets now and the key. |
| Ledger.UpdateMemorySeenCount | json_memory.py:73-94 | The count grows by the number of scan entries carrying the MAC. A missing record or count reads as 0, and creation counts as 1. |
| Ledger.Fresh | json_memory.py:91-92 | Reference for the appended IPs: an IP is in the result exactly when it is in the scan's list and not in the history, and no IP occurs twice. |
| Ledger.UpdateMemoryIps | json_memory.py:79-92 | The IP history afterwards is the history before followed by `Fresh` of the IPs that showed the MAC: those not yet in the history, in scan order, each once. So it gains exactly the scan's IPs for the MAC, and a duplicate-free history stays duplicate-free. |
| Ledger.UpdateMemoryVendor | json_memory.py:73-97 | A stored vendor other than None, "" and "unknown vendor" is kept. Otherwise the record ends with a fresh lookup of the MAC. |
| Ledger.UpdateMemoryWellFormed | json_memory.py:67-99 | A store with distinct keys and duplicate-free IP histories stays that way. |
| Ledger.AnnotateNew | json_memory.py:103-108 | Keys, order and every other field are unchanged. `is_new` is set on every device: true when its MAC is non-empty and in `new_macs`. |
| Ledger.AnnotateAfterUpdate | json_memory.py:103-106 | After `update_memory`, a device is flagged new exactly when it carries a tracked MAC the store did not hold before. |
| Ledger.FindOfflineDevices | json_memory.py:114-123 | The list holds a record exactly when some stored key for it is not a non-empty MAC of the scan, and it is no longer than the store. Store order and one entry per stored pair are fixed by Ledger.OfflineAmongOne and Ledger.OfflineAmongAppend. |
| Ledger.OfflineAmongOne | json_memory.py:119-123 | A single stored pair contributes its record exactly when its key is not a current MAC, and nothing otherwise. |
| Ledger.OfflineAmongAppend | json_memory.py:119-123 | The list for a store split into two parts is the first part's list followed by the second's: records appear in store order, once per stored pair. |
| Ledger.OfflineExactlyOne | json_memory.py:119-123 | When exactly one stored MAC is missing from the scan, the list is exactly that MAC's stored record. |
| Ledger.FindOfflineAfterUpdate | json_memory.py:114-123 | Folding a scan into the store does not change which records that scan reports offline. |
| Ledger.FindOfflineDevicesAsWritten | json_memory.py:114-123 | The function as written returns None for every input. |
| Ledger.MissingReturnHidesOffline | json_memory.py:114-123 | Take any store holding a MAC absent from the scan. The corrected list makes the scanner's `if offline_devices:` true, and the as-written result makes it false. |
| Ledger.MissingReturnExample | json_memory.py:114-123 | One stored device and an empty scan: the corrected list is that record, and the as-written result reports nothing. |
| ScanTable.PingIps | main.py:22-30 | The ping set is exactly the stripped non-blank lines. Every member is non-empty and already stripped. |
| ScanTable.IndexOf | main.py:56-57 | None exactly when the word is absent. Otherwise the first position holding it. |
| ScanTable.LinkAddress | main.py:55-59 | There is a MAC exactly when "lladdr" occurs and is not the last word. The MAC is the word after its first occurrence. |
| ScanTable.ParseNeighLine | main.py:39-73 | A line is accepted exactly when it is non-blank, its first word has no colon, its last word is not FAILED, it has a link address, and that address lower-cased is not all-zero or all-ones. An accepted entry holds the first word, that address and the last word. |
| ScanTable.ParseNeighLineRoundTrip | main.py:39-73 | Parsing a line printed as `IP dev IFACE lladdr MAC STATE` gives back IP, MAC and STATE. |
| ScanTable.ParseNeigh | main.py:37-73 | The parsing loop as a fold of accepted lines into the table. Its contract is ScanTable.ParseNeighLastWins and ScanTable.ParseNeighDistinct. |
| ScanTable.ParseNeighLastWins | main.py:37-73 | The parsed table maps each IP to the entry of the last accepted line for it. Only IPs of accepted lines are keys. |
| ScanTable.ParseNeighDistinct | main.py:72-73 | The parsed table has no IP twice. |
| ScanTable.MergeSources | main.py:86-102 | The two merge loops: ping entries first, then each neighbour entry. Its contract is ScanTable.MergeSourcesGet. |
| ScanTable.MergeSourcesGet | main.py:86-102 | For a neighbour table with distinct IPs, as every parsed table is: an IP has a record exactly when ping or the neighbour table saw it. Ping-only hosts have sources {PING} and no MAC or state. Neighbour-table hosts carry its MAC and state, with sources {PING, ARP} if ping saw them too and {ARP} if not. |
| ScanTable.MergeIgnoresPingOrder | main.py:86-88 | The iteration order of the ping set changes no host's record. |
| ScanTable.SourceLabel | main.py:241-246 | The label is always PING, ARP or PING+ARP; ScanTable.MergedSourceLabel says which for a merged host. |
| ScanTable.MergedSourceLabel | main.py:241-246 | A merged host's label is PING+ARP, PING or ARP, naming exactly the sources that saw it. |
| ScanTable.SubnetOf | main.py:167-172 | There is a key exactly when the IP has three dots. The key plus a dot is then a prefix of the IP, and the host part after it has no dot. |
| ScanTable.GroupBySubnet | main.py:164-177 | The grouping loop as a fold over the table. Its contract is ScanTable.GroupBySubnetGet. |
| ScanTable.GroupBySubnetGet | main.py:164-177 | Each subnet's group is exactly the table's devices in that subnet, in table order. A subnet with no device has no group. |
| ScanTable.SubnetTag | main.py:209-214 | Sparse exactly when the count is below 3, Heavy exactly when above 80, and empty exactly in between. |
| ScanTable.SubnetTagMonotone | main.py:209-214 | A larger group never gets a sparser tag. |

## Left out

- Shell and file I/O are not modelled: `run`, `load_memory`, `save_memory`, reading `alive_ping.txt`, `ip neigh` itself, gateway and Wi-Fi discovery, and `ping_latency`. The neighbour table and the ping file arrive as sequences of lines. A missing or unreadable ledger file gives `{}`, which is the empty store.
- `str.splitlines` is not modelled; the parser receives the lines.
- Ledger.LookupVendor: the grep pipeline is one function parameter from the OUI key to its output. The try/except around it cannot raise on a string MAC, so it is not modelled. `grep -i` matching and shell quoting of the key are outside the model.
- `time.time()` is a float in the source and an integer `now` here. The percentage (`main.py:207`), latency parsing and the offline age in minutes (`main.py:278`) are floats and are not modelled.
- MacAddress.NormalizeMac: the argument is a string, so a `None` MAC is not modelled. The source's `not mac` test sends it down the same path as the empty string, which gives "unknown".
- Text.Lower: models `str.lower` for ASCII and for the two non-ASCII characters that lower to ASCII letters (U+212A KELVIN SIGN and U+0130). Every other character is left unchanged. This decides hex filtering and keyword matching exactly, because both only look at ASCII.
- Text.UpperAscii: `str.upper` is modelled for ASCII letters only. The only use is the OUI key, which feeds the search parameter.
- Zone.DetectZone: the float ratio is modelled as the exact rational comparison. It equals the float one for any list shorter than 2^53 hosts.
- Loaded ledger records that lack a key the code reads with `entry[...]` (`ips_seen`) raise KeyError in the source. The model's record type always has every field. A `seen_count` of JSON null, which raises TypeError, is also not modelled; a missing count is `None`.
- All `print` rendering is left out: the tree, the YOU and NEW marks, the sampling and sorting for display, and the vendor shown per host.
- `network_tree.py` is an older standalone script and is not part of this model.

## Findings

| source | as written | input that shows it | evidently intended | confidence | as-written member | corrected member |
|---|---|---|---|---|---|---|
| json_memory.py:114-123 | `find_offline_devices` builds `offline` but has no `return`, so it returns None, and the scanner's `if offline_devices:` (main.py:271) always prints "No offline devices." | a store with one record and an empty scan | `return offline` after the loop | high; not executed | Ledger.FindOfflineDevicesAsWritten | Ledger.FindOfflineDevices |
