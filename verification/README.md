# kasa_scan in Dafny

A model of the decision logic in a small set of scripts that discover and control TP-Link Kasa smart plugs and bulbs on a local network. It covers three scripts:

- **`kasa_scan.py`**, the multi-command tool:
  - how a discovered device handle becomes an info record (`_safe`, `_clean_type`, the final sort of `discover_devices`);
  - the `--filter`/`--type` filter and the `--sort` order;
  - how `_find_device` turns the identifier given to `on`/`off`/`toggle` into one device, or into nothing;
  - which calls `control_device` issues on that device and how the command exits;
  - the comparison behind `diff` (`print_diff`).
- **`kasa_basic_scan.py`**, the stand-alone UDP broadcast scan:
  - the probes it sends, port by message;
  - how one datagram is decoded, either XOR-ed JSON with a `system.get_sysinfo` answer or plain JSON with a `result` answer;
  - how a round collects entries;
  - the comparison with the expected test device;
  - the text `main` prints.
- **`kasa_map_devices.py`**, which reads the stand-alone scan's printed table back into records and sorts them by name.

The modules follow that structure:

- **Core modules:** `Devices`, `Resolver`, `Control`, `BaselineDiff`, `Discovery` and `Listing`.
- **Python semantics they rely on:**
  - `TextOps` covers `str.lower`/`upper`, `in`, `split`, `split()`, `join`, `replace` and string order.
  - `Seqs` covers comprehensions with a condition.
  - `Sorting` covers the stable `sorted` with a string key.
  - `Wrappers` holds `Option` and `Result`.

Effects become inputs:

- **Network:** what the network returned is given as data. `Resolver.Resolve` takes the unicast probe's result and the broadcast round's candidates. `Discovery.DiscoverRound` takes the replies each probe received.
- **Failing device calls:** these are given as a set (`Control.Run`).
- **JSON parser:** `json.loads` is a function parameter (`Discovery.Parser`).
- **Row reader:** the row reader used by `Listing.MapDevices` is a parameter. The script as written uses `Listing.ParseRow`. The corrected reader is `Listing.ParseRowChecked` (see Findings).

## Model

| member | source | states |
|---|---|---|
| Devices.Safe | kasa_scan.py:45-51 | an attribute that exists, does not raise and is not None gives its value; a missing attribute, one whose getter raises, and None all give the default |
| Devices.SafeOpt | kasa_scan.py:45-51 | with no default, a value is returned exactly when the attribute holds a usable value |
| Devices.SafeIsSafeOptOrDefault | kasa_scan.py:45-51 | supplying a default is the same as replacing the None of the default-less form by it |
| Devices.CleanType | kasa_scan.py:54-56 | a type name without the enum prefix is returned unchanged, and one with it becomes strictly shorter |
| Devices.CleanTypeStripsEnumPrefix | kasa_scan.py:54-56 | `DeviceType.X` becomes exactly `X` |
| Devices.MakeRecord | kasa_scan.py:140-150 | the record keeps the discovery address; name, MAC address and model are the readable values or "Unknown"; the type is the readable type, or "Unknown", without its enum prefix; power state and brightness are present exactly when readable and then hold the value read; RSSI and firmware are passed through |
| Devices.DiscoverDevices | kasa_scan.py:132-162 | one record per discovered host, the same records as built, ordered by lower-cased name, with records of equal name in discovery order |
| Devices.TwoPassesAreOnePass | kasa_scan.py:358-370 | the name pass followed by the type pass keeps exactly the records that pass both active filters |
| Devices.FilterDevices | kasa_scan.py:358-370 | the result keeps input order, holds only records passing every active filter, holds every passing record as often as the input does, and with both filters off is the input |
| Devices.FilterDevicesIdempotent | kasa_scan.py:358-370 | filtering a filtered list again changes nothing |
| Devices.SortDevices | kasa_scan.py:373-374 | a permutation of the input, ordered by the lower-cased field, with records of equal key in input order |
| Devices.NameSortSkipIsSound | kasa_scan.py:162 | the discovered list, after filtering, is already what sorting by name would give, so the `scan` command may skip that sort |
| Sorting.SortByCharacterised | kasa_scan.py:374 | any key-ordered list that keeps each key's records in input order is the stable sort, so the stable sort is unique |
| Resolver.IpLiteralIffDottedQuad | kasa_scan.py:173-174 | an identifier is taken as an address exactly when it is four non-empty digit runs joined by dots |
| Resolver.OutOfRangeOctetsStillAddress | kasa_scan.py:173-174 | digit runs are not range-checked, so `999.1.1.300` is treated as an address |
| Resolver.ShortIdentifiersAreNames | kasa_scan.py:173-174 | anything shorter than seven characters is searched for by name |
| Resolver.IsIpLiteral | kasa_scan.py:173-174 | an identifier taken as an address holds only digits and dots |
| Resolver.Matches | kasa_scan.py:185-195 | an empty identifier matches every device, and a device without an alias matches only the empty identifier |
| Resolver.Resolve | kasa_scan.py:169-220 | an address gives the unicast result and disconnects nothing; a name gives a device from the round, or an ordered sub-list of the round when ambiguous |
| Resolver.ResolveNotFound | kasa_scan.py:205-207 | a name resolves to nothing exactly when no alias contains it, ignoring case |
| Resolver.ResolveFoundIffUnique | kasa_scan.py:209-220 | a name resolves to a device exactly when exactly one host matches, and then to that host |
| Resolver.ResolveAmbiguous | kasa_scan.py:209-218 | a name is ambiguous exactly when two distinct hosts match; the reported candidates are then all the matching hosts, in discovery order |
| Resolver.ResolveReleasesAllButReturned | kasa_scan.py:197-216 | on a name search every host of the round is disconnected exactly once, except the one returned, which is not disconnected |
| Control.Switch | kasa_scan.py:230-246 | only `on`, `off` and `toggle` switch anything; the device is turned off exactly for `off`, or for `toggle` when it is known to be on |
| Control.Run | kasa_scan.py:223-254 | without a device the command exits 1 and makes no calls; with one, the last call is always the disconnect |
| Control.DisconnectOnceAndLast | kasa_scan.py:250-254 | a resolved device is disconnected exactly once, whatever failed before |
| Control.SwitchingCalls | kasa_scan.py:230-246 | the device is switched on or off as the action and current state demand, never both |
| Control.UpdateOnlyAfterSuccess | kasa_scan.py:230-246 | the state is refreshed exactly when the switching call was made and succeeded |
| Control.ExitStatus | kasa_scan.py:223-249 | the command exits 0 exactly when a device was resolved and no call other than the disconnect failed |
| Control.ToggleInverts | kasa_scan.py:238-246 | toggling a device of known state inverts it; `on` and `off` reach their state from either state |
| Control.ToggleTwiceRestores | kasa_scan.py:238-246 | toggling twice restores the original state |
| BaselineDiff.Index | kasa_scan.py:398-399 | the MAC index holds exactly the MAC addresses present, each mapped to the last record carrying it |
| BaselineDiff.Diff | kasa_scan.py:397-412 | new and missing devices are exactly the MAC addresses on one side only; an address or name change is reported exactly when the paired last records differ in it, as a before/after pair |
| BaselineDiff.Compare | kasa_scan.py:401-412 | new, missing and shared MAC addresses partition all MAC addresses; changes concern shared ones only |
| BaselineDiff.DiffWithSelfIsEmpty | kasa_scan.py:418-420 | a list compared with itself reports no changes |
| BaselineDiff.NoChangesIff | kasa_scan.py:418-420 | "No changes detected" is printed exactly when both lists carry the same MAC addresses and every paired record keeps its address and name |
| BaselineDiff.DiffSwapped | kasa_scan.py:397-412 | swapping current and baseline swaps new and missing and reverses every change |
| BaselineDiff.RenamedAndMovedIsReportedTwice | kasa_scan.py:403-412 | a device that changed both address and name is reported under both kinds of change |
| BaselineDiff.LaterDuplicateWins | kasa_scan.py:398 | of two baseline records with the same MAC address the later one is compared |
| Discovery.Xor | kasa_basic_scan.py:45 | every byte is XOR-ed with 0xAB, the length is kept |
| Discovery.XorInvolution | kasa_basic_scan.py:45 | decoding twice gives back the bytes received |
| Discovery.LegacyEntryIffSysinfo | kasa_basic_scan.py:44-52 | the first scheme yields an entry exactly when the XOR-decoded reply parses to an object with a `system` object holding a `get_sysinfo` object, and takes alias and MAC from it with "Unknown" as fallback |
| Discovery.LegacyRaisesIff | kasa_basic_scan.py:44-53 | the first scheme raises, so the plain scheme is tried, exactly when the decoded reply does not parse or has the wrong shape for `in` and indexing |
| Discovery.PlainEntryIffResult | kasa_basic_scan.py:55-60 | the second scheme yields an entry exactly when the raw reply parses to an object whose `result` is an object; the entry carries the sender's address, the `device_alias` and `mac` of that object, each "Unknown" when absent |
| Discovery.Legacy | kasa_basic_scan.py:44-53 | a reply whose XOR-decoding does not parse raises a decode error, one that parses to a number or null raises a type error, and an entry carries the sender's address |
| Discovery.Plain | kasa_basic_scan.py:55-62 | a reply that does not parse raises a decode error, one that parses to a number or null raises a type error, and an entry carries the sender's address |
| Discovery.DecodeReply | kasa_basic_scan.py:43-62 | an entry decoded from a datagram carries the address that sent it |
| Discovery.DecodeReplyIff | kasa_basic_scan.py:43-62 | a datagram gives an entry exactly when the first scheme finds a sysinfo answer, or raises and the second finds a `result` answer |
| Discovery.EmptyLegacyAnswerHidesPlainAnswer | kasa_basic_scan.py:48-57 | a datagram whose XOR-decoding parses quietly is never tried as plain JSON, even when it carries a `result` answer |
| Discovery.Probes | kasa_basic_scan.py:18-33 | four probes, port outermost: each port with each of the two messages |
| Discovery.Received | kasa_basic_scan.py:39 | exactly the first 1024 bytes of a datagram are read, or all of it when shorter |
| Discovery.CollectReplies | kasa_basic_scan.py:37-62 | one receive loop adds at most one entry per datagram, in arrival order, each from the address that sent it |
| Discovery.DiscoverRound | kasa_basic_scan.py:29-67 | with the k-th attempt standing for what sending the k-th probe met, a round adds the entries of every probe in probe order, at most one per datagram, each from a host that replied, with no de-duplication |
| Discovery.Sightings | kasa_basic_scan.py:102-113 | exactly one sighting per listed entry whose printed MAC text matches the target, in list order, and none at all exactly when no entry matches |
| Discovery.Str | kasa_basic_scan.py:106-108 | `str` of a JSON string is the string itself, and the printed text is empty exactly for the empty string |
| Discovery.TargetMacIgnoresCase | kasa_basic_scan.py:112 | the MAC comparison ignores case but not separators |
| Discovery.TargetNameIgnoresCaseOnly | kasa_basic_scan.py:119 | the name check ignores case but not surrounding spaces |
| Discovery.DictItemsIsDict | kasa_basic_scan.py:46 | the dict `json.loads` builds from an object holds each key once, in the order the keys first appear, with the last value given to it, which is the value `Lookup` reads |
| Discovery.DictItemsOfDistinct | kasa_basic_scan.py:46 | an object without a repeated key becomes a dict holding its members as written, in document order |
| Discovery.StrShowsTheDict | kasa_basic_scan.py:106-107 | `str` of an object prints the dict it was loaded into, so printing depends only on that dict |
| Discovery.StrRepeatedKey | kasa_basic_scan.py:106-107 | the object `{"a":1,"a":2}` prints as `{'a': 2}` |
| Discovery.OnlyStringsMatchTarget | kasa_basic_scan.py:106-112 | a MAC value that is not a JSON string never matches the target |
| Listing.ParseRow | kasa_map_devices.py:22-35 | a record is read exactly from a non-blank line not starting with `-` with at least three tokens whose first is not "Unknown" and whose middle is not "None"; its MAC and IP are the first and last tokens and its name the single-spaced middle |
| Listing.ParseRowChecked | kasa_map_devices.py:22-35 | the corrected reader accepts exactly the records of the reader as written whose MAC text has the shape of a MAC address |
| Listing.ParseRowOfTokens | kasa_map_devices.py:23-35 | a row written as single-spaced words reads back as the record it was written from |
| Listing.ScanAppend | kasa_map_devices.py:17-21 | scanning two blocks of lines is scanning each, the second in list mode once the first held the header |
| Listing.NothingUpToFirstHeader | kasa_map_devices.py:17-21 | nothing is read up to and including the first header line |
| Listing.ScanRecordsFromRows | kasa_map_devices.py:17-35 | every record read comes from a non-header line the row reader accepts, and there are at most as many records as lines |
| Listing.ScanLines | kasa_map_devices.py:17-35 | the loop with its `in_device_list` flag reads exactly the records the scan defines |
| Listing.MapDevices | kasa_map_devices.py:13-38 | the device map is a permutation of the records read, ordered by lower-cased name, with equal names in reading order |
| Listing.RowReadBack | kasa_basic_scan.py:110 | a printed table row is read back by the corrected reader as its device, re-spaced, exactly when it has a MAC address and a name |
| Listing.MainLinesReadBack | kasa_basic_scan.py:98-126 | whatever preceded the table, the corrected reader recovers from `main`'s output exactly one record per printed device with a MAC address and a name, in printing order |
| Listing.MainLines | kasa_basic_scan.py:98-126 | `main` prints at least the blank line, the count, the column header and the rule and ends with a newline; when no listed device is the target, the last line printed is the "not found" banner |
| Listing.DeviceLines | kasa_basic_scan.py:105-123 | each device prints its table row; the target prints nine more lines, the "found" banner fourth and its name fifth |
| Listing.RowTokens | kasa_basic_scan.py:110 | the words of a printed row are the MAC address, the words of the name and the IP address |
| TextOps.SplitOfJoin | kasa_map_devices.py:13 | splitting joined text at newlines gives back the lines, when no line holds a newline |
| TextOps.TranslateNewlines | kasa_map_devices.py:9-10 | text-mode capture turns every carriage return, alone or before a newline, into one newline, and leaves text without carriage returns unchanged |
| Listing.SplitPrinted | kasa_map_devices.py:9-13 | the printed text, captured in text mode and split at newlines, gives back the printed lines, when the fields and the earlier lines hold neither a newline nor a carriage return |
| Listing.OutputReadBack | kasa_map_devices.py:9-35 | whatever the scan printed before the table, capturing its output in text mode, splitting it and reading it with the corrected reader recovers exactly one record per printed device with a MAC address and a name, in printing order |
| Listing.NotFoundIffNoSighting | kasa_basic_scan.py:103-126 | the "not found" banner is printed exactly when no discovered entry was sighted as the target |
| Listing.AsWrittenOutputMapsMissingBanner | kasa_map_devices.py:13-35 | when the scan lists no device, the script as written reads one device from its captured output, taken from the "not found" banner |
| Listing.AsWrittenReadsMissingLine | kasa_basic_scan.py:126 | the parser as written reads the "not found" banner as a device whose MAC address is the cross mark |
| Listing.AsWrittenReadsFoundBanner | kasa_basic_scan.py:115 | the parser as written reads the target banner as a device whose MAC address is the tick mark |
| Listing.AsWrittenReadsNameLine | kasa_basic_scan.py:116 | the parser as written reads the banner's name line of a name of two or more words as a device whose MAC address is "Name:", whose IP address is the last word of the name and whose name is the other words |
| Listing.Show | kasa_basic_scan.py:105-108 | a device is printed with the address it was discovered at, and a MAC address held as a JSON string is printed as that string |
| Listing.ShowAll | kasa_basic_scan.py:105-108 | one printed device per discovered entry, in list order |
| Listing.AsWrittenMapsMissingBanner | kasa_map_devices.py:22-35 | when the scan lists no device, the script as written still maps one, read from the "not found" banner |

## Left out

- Sockets, timeouts and the clock: the datagrams each probe received are given as data. The two-second receive window and `socket.timeout` only decide when a list of replies ends.
- The `kasa` library (`Discover.discover`, `discover_single`, `update`, `turn_on`/`turn_off`, `disconnect`) is foreign code. Its results are inputs, and its exceptions are a set of failing calls.
- `_get_rssi`, `_get_firmware` and `_get_energy`, together with the `--energy` columns: library attribute plumbing. The record carries RSSI and firmware as given values.
- Output formatting and persistence in `kasa_scan.py` are file I/O and text layout with no decisions in them: the table, JSON and CSV writers, the running CSV, `save_baseline`/`load_baseline`, and the printing in `print_diff`.
- `watch_loop`, the argument parser and `main` of `kasa_scan.py`: loop, terminal and CLI plumbing. The one decision the `scan` command takes, skipping the sort by name, is `Devices.NameSortSkipIsSound`.
- The `kasa` library fallback in the stand-alone scan's `main` (lines 75-96) calls foreign code. `main`'s printing is modelled from the list of devices onwards.
- `kasa_map_devices.py` lines 9-10 and 40-80: running the subprocess, and the JSON, CSV and text files it writes. The captured output is an input of `Listing.MapDevices`. Of the capture, only its text-mode newline translation is modelled (`TextOps.TranslateNewlines`).
- The other scripts in the repository (cloud API, other discovery variants): they are not part of this model.
- Case mapping and `isdigit` cover ASCII only. Python's Unicode case tables and Unicode digits are not modelled.
- `Discovery.Str`: `str` of a nested JSON string shows it between single quotes without Python's escaping. JSON floats are not modelled.
- BaselineDiff.Diff: states the content of the four change lists as maps keyed by MAC address, not the order in which `print_diff` prints them.
- Listing.MainLinesReadBack: requires every printed device to be `Listing.Printable`, meaning single-word MAC and IP text, an alias holding neither a newline nor a carriage return, and no field spelling the column header. Text-mode capture turns a carriage return into a newline, so either one splits the row. A MAC or IP text holding spaces shifts the tokens of its row, and the property does not hold for it. `Listing.OutputReadBack` states the same over the split captured text.
- Listing.OutputReadBack: requires the lines printed before the table to hold neither a newline nor a carriage return, so that each is one piece of the split text.
- Control.After: the state a device reaches after `turn_on` or `turn_off` is an assumption about the device (on, off), not code of the scripts. `Control.ToggleInverts` and `Control.ToggleTwiceRestores` rest on it.

## Findings

| source | as written | input that shows it | evidently intended | confidence | as-written member | corrected member |
|---|---|---|---|---|---|---|
| kasa_map_devices.py:22-35 | every line after the column header with at least three tokens, not starting with `-`, becomes a device | a scan that lists no device ends with "✗ Device with MAC 98:25:4A:5F:4E:6F not found", which is mapped as a device with MAC "✗"; a listed target adds "✓ FOUND TARGET DEVICE!" as a device with MAC "✓", its "  Name: …" line as a device with MAC "Name:" when the name has two or more words, and its verdict line as a device with MAC "✓" (IP "left'") when the name matches, or with MAC "!" when it does not | only table rows, whose first token is a MAC address, become devices | not executed | Listing.AsWrittenOutputMapsMissingBanner | Listing.OutputReadBack |
