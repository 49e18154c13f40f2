# OpenVAS Reporting exporters: shared summary logic, in Dafny

This project models the core that every exporter of OpenVAS Reporting
(`openvasreporting/libs/export.py`) shares.

**`_get_collections`**
- It sorts the vulnerability list in place: first by name, then, stably, by descending CVSS score.
- It then counts vulnerabilities per severity level and per family.
- It also counts, per level, the distinct host IPs affected by a vulnerability of that level.

**The small helpers the exporters apply to each row**
- the Excel row-height rule;
- the name of a vulnerability worksheet;
- the port label of the host exporters;
- the port and host-name cells of the host tables;
- the CVE text;
- the cap of ten hosts in the Excel host summary;
- the argument checks every exporter runs before writing.

**Files**
- `entities.dfy`: the finding records (levels, ports, occurrences, vulnerabilities) and the Python exceptions.
- `ordering.dfy`: the two sort keys as strict weak orders: Python string order on names, and descending CVSS.
- `stable_sort.dfy`: a generic stable sort (`list.sort` with a key).
  - It is an in-place method proved against a specification function.
  - Stability is stated by per-key-class order.
  - Uniqueness: two sorted lists with the same per-key-class order are equal, so insertion sort and Python's Timsort give the same list.
- `collation.dfy`: the two sorts together equal one stable sort by (CVSS descending, name ascending).
- `collections.dfy`: the counting loops of `_get_collections` as methods with loop invariants, proved against counting functions, and the properties of those counts.
- `text.dfy`: the Python string formatting used: `str(n)`, `"{:03X}"` (built on unpadded upper-case hexadecimal), ASCII `str.upper`, `str.count`, `sep.join`.
- `formatting.dfy`: row height, sheet name, port label and port cells, host-name cell, CVE text, host cap.
- `validation.dfy`: the order of the argument checks and which exception each raises.

**Representation choices**
- CVSS scores are integers in tenths. They are only compared.
- A Python `Counter` is a `map` read through `CountOf`, where a missing key reads as 0.
- The key order of the family counter (insertion order) is `FamilyOrder`.
- `_get_collections` sorts the caller's list in place (lines 55-56); it does not sort a copy. The model follows the code: `Collections.GetCollections` modifies the array it is given.

## Model

| member | source | states |
|---|---|---|
| StableSort.SortBy | openvasreporting/libs/export.py:55-56 | `list.sort` by a key: the result is a permutation of the input |
| StableSort.SortInPlace | openvasreporting/libs/export.py:55-56 | sorting the array in place leaves exactly `SortBy` of its old contents |
| StableSort.SortBySorted | openvasreporting/libs/export.py:55-56 | for a strict weak order, no later element sorts strictly before an earlier one |
| StableSort.SortByStable | openvasreporting/libs/export.py:55-56 | stability: elements with equal keys keep their input order |
| StableSort.SortByKeepsTies | openvasreporting/libs/export.py:55-56 | sorting a list already sorted by a second key leaves equal-key runs sorted by that key |
| StableSort.SortedUnique | openvasreporting/libs/export.py:55-56 | two sorted lists with the same order inside each key class are equal, so any stable sort gives this result |
| StableSort.SortByOfSorted | openvasreporting/libs/export.py:55-56 | sorting an already sorted list changes nothing |
| Ordering.NameLtTransitive | openvasreporting/libs/export.py:55 | Python's string order on names is transitive |
| Ordering.NameLtTotal | openvasreporting/libs/export.py:55 | two different names are ordered one way and only one way |
| Ordering.PrecedesIsStrictWeakOrder | openvasreporting/libs/export.py:55-56 | both sort keys (name ascending, CVSS descending) are strict weak orders, with ties exactly equal keys |
| Ordering.BeforeIsStrictWeakOrder | openvasreporting/libs/export.py:55-56 | the comparators handed to the sort are strict weak orders |
| Ordering.TiedIsSameKey | openvasreporting/libs/export.py:55-56 | two vulnerabilities are tied under a comparator exactly when their keys are equal |
| Collation.Collate | openvasreporting/libs/export.py:55-56 | the list after both sorts is a permutation of the input |
| Collation.SortVulnerabilities | openvasreporting/libs/export.py:55-56 | the two in-place sorts leave the array equal to `Collate` of its old contents |
| Collation.CollateIsSortByCvssThenName | openvasreporting/libs/export.py:55-56 | the two passes equal one stable sort by (CVSS descending, name ascending) |
| Collation.CollateOrdered | openvasreporting/libs/export.py:55-56 | the result has non-increasing CVSS, and names do not decrease within equal CVSS |
| Collation.CollateStable | openvasreporting/libs/export.py:55-56 | vulnerabilities with equal CVSS and equal name keep their original relative order |
| Collation.CollateIdempotent | openvasreporting/libs/export.py:55-56 | collating a collated list changes nothing |
| Collections.LevelCountsSum | openvasreporting/libs/export.py:64-65 | every vulnerability adds one to exactly one level, so the five counts sum to the list length |
| Collections.LevelCountsEmpty | openvasreporting/libs/export.py:57-65 | an empty list leaves every level counter at 0 |
| Collections.FamilyOrderSpec | openvasreporting/libs/export.py:73 | the family counter's keys, in insertion order, list each family present exactly once and nothing else |
| Collections.FamilyCountsSum | openvasreporting/libs/export.py:73 | each vulnerability adds exactly one to its family, however many hosts it has, so the family counts sum to the list length |
| Collections.IpsOfSpec | openvasreporting/libs/export.py:69-71 | an IP is collected from an occurrence list exactly when some occurrence has it |
| Collections.AffectedIpsSpec | openvasreporting/libs/export.py:69-71 | an IP is in level L's list exactly when some vulnerability of level L has an occurrence on it |
| Collections.AffectedIpsBound | openvasreporting/libs/export.py:69-77 | a level's host count is at most the number of distinct IPs in the input |
| Collections.NoDupCard | openvasreporting/libs/export.py:76-77 | the length of a list without duplicates is the number of distinct entries, so `len` of an IP list counts distinct IPs |
| Collections.CountersIgnoreOrder | openvasreporting/libs/export.py:55-77 | the level, family and host counts are the same for any permutation of the list, so sorting first does not change them |
| Collections.CollectIps | openvasreporting/libs/export.py:69-71 | the inner loop adds exactly the occurrences' IPs to the level's list, keeps it free of duplicates, and leaves the other lists alone |
| Collections.LengthsByLevel | openvasreporting/libs/export.py:76-77 | every one of the five levels gets the length of its IP list |
| Collections.Tally | openvasreporting/libs/export.py:64-77 | the counting loop yields exactly the per-level counts (keys only for levels present), per-level distinct-IP counts, per-family counts and family key order |
| Collections.GetCollections | openvasreporting/libs/export.py:41-79 | the array ends collated, and the counters describe the input list: the level counter has a key exactly for the levels present, every level gets a host count, and the family counter lists each family present |
| Text.DigitsRoundTrip | openvasreporting/libs/export.py:1180 | `str(n)`, and the hexadecimal digits `"{:03X}"` pads, use only digits of the base, have no leading zero, and read back as `n` |
| Text.Hex3Spec | openvasreporting/libs/export.py:282 | `"{:03X}"` reads back as the index, uses upper-case hex digits, and is exactly three characters up to 0xFFF |
| Text.Hex3Injective | openvasreporting/libs/export.py:282 | different indexes give different `"{:03X}"` strings |
| Text.UpperSpec | openvasreporting/libs/export.py:334 | `upper()` leaves no lower-case letter and is idempotent |
| Text.CountCharConcat | openvasreporting/libs/export.py:119 | the newline count of a concatenation is the sum of the counts |
| Text.JoinEmpty | openvasreporting/libs/export.py:333 | `", ".join` is empty exactly for no parts or one empty part |
| Formatting.RowHeight | openvasreporting/libs/export.py:118-119 | the height is a multiple of 15, at least 15, with one line more than the larger of the wrapped length and the newline count |
| Formatting.RowHeightMonotone | openvasreporting/libs/export.py:118-119 | appending text never lowers the row |
| Formatting.RowHeightBound | openvasreporting/libs/export.py:917-918 | a row is at most one line per character plus one |
| Formatting.StripForbidden | openvasreporting/libs/export.py:279 | the body keeps exactly the characters outside `[]\'"&@#():*?/` |
| Formatting.StripForbiddenConcat | openvasreporting/libs/export.py:279 | stripping works character by character: the kept characters of a concatenation are those of each part, in order and with repeats |
| Formatting.StripForbiddenChar | openvasreporting/libs/export.py:279 | a single character is kept exactly when it is not in the stripped set |
| Formatting.StripForbiddenIdempotent | openvasreporting/libs/export.py:279 | stripping twice is stripping once |
| Formatting.Shorten | openvasreporting/libs/export.py:280-281 | a body over 27 characters becomes its first 15, then `..`, then its last 10 (27 in all); shorter ones are kept |
| Formatting.SheetNameSpec | openvasreporting/libs/export.py:279-282 | the sheet name has no forbidden character and starts with the hex index and `_`; for indexes up to 0xFFF it is at most 31 characters |
| Formatting.SheetNameInjective | openvasreporting/libs/export.py:278-283 | different indexes never give the same worksheet name |
| Formatting.PortLabelSpec | openvasreporting/libs/export.py:1176-1180 | the label is `general` exactly for a missing port or port 0, otherwise the port number's decimal digits |
| Formatting.WordPortCellSpec | openvasreporting/libs/export.py:682-687 | the Word port cell is `No port info` exactly for a missing port, `-` exactly for port 0, and otherwise decimal digits that read back as the port number |
| Formatting.ExcelPortCellSpec | openvasreporting/libs/export.py:368-374 | the Excel port cell is empty text exactly for port 0, `No port info` exactly for a missing port, and otherwise the port number |
| Formatting.PortCellsAgree | openvasreporting/libs/export.py:369-375 | the Excel cell, the Word cell and the host label agree on when and which number is shown, and both tables mark a missing port |
| Formatting.HostNameCell | openvasreporting/libs/export.py:367 | the host-name cell is the name, or `-` when it is empty, so it is never blank |
| Formatting.CveTextSpec | openvasreporting/libs/export.py:333-334 | `No CVE` is shown exactly when there is no CVE id or only an empty one; otherwise the join, upper-cased |
| Formatting.MaxHosts | openvasreporting/libs/export.py:1006-1009 | at most 10 hosts, and all of them when there are fewer |
| Formatting.MaxHostsMonotone | openvasreporting/libs/export.py:1006-1009 | more hosts never mean fewer rows |
| Formatting.HostPortCellAsWrittenFailsWithoutPort | openvasreporting/libs/export.py:1176-1181 | as written, an occurrence without a port raises `AttributeError`, though the label rule chose `general` for it |
| Formatting.HostPortCellSpec | openvasreporting/libs/export.py:847-857 | the corrected port column raises only for an empty occurrence list, starts with the port label, and agrees with the code as written wherever that does not raise |
| Validation.CheckVulnsSpec | openvasreporting/libs/export.py:102-104 | the element loop accepts exactly lists whose every element is a vulnerability |
| Validation.CheckHostValuesSpec | openvasreporting/libs/export.py:903-905 | the registry loop accepts exactly registries whose every value is a host |
| Validation.CheckHostKeysSpec | openvasreporting/libs/export.py:1213-1215 | the CSV host loop, which iterates keys, accepts exactly registries whose every key is a host |
| Validation.CheckOutputFile | openvasreporting/libs/export.py:105-109 | a non-string name raises `TypeError`, an empty one `ValueError`, and only a non-empty string passes |
| Validation.CheckDataSpec | openvasreporting/libs/export.py:99-104 | the data check passes exactly for well-formed data of the exporter's kind |
| Validation.ValidateSpec | openvasreporting/libs/export.py:1280-1292 | passes exactly for good data, a non-empty name and an accepted template; bad data raises `TypeError` first; `ValueError` and `NotImplementedError` only when the earlier checks passed |
| Validation.ExcelByVulnIgnoresTemplate | openvasreporting/libs/export.py:99-111 | the Excel vulnerability exporter passes exactly for a list of vulnerabilities and a non-empty name; its template check is commented out, so any template is accepted |
| Validation.WordValidationSpec | openvasreporting/libs/export.py:407-425 | the Word exporters pass exactly with good data, a non-empty name and a template that is a string or none; any other template raises `TypeError` after the other checks; they never raise `NotImplementedError` |
| Validation.NoTemplateValidationSpec | openvasreporting/libs/export.py:710-722 | the CSV exporters and the Excel host exporter pass only without a template; a template raises `NotImplementedError` exactly when data and name have passed |
| Validation.HostDataSpec | openvasreporting/libs/export.py:786-791 | every host exporter's data check accepts exactly registries whose every value is a host |
| Validation.CsvByHostRejectsRegistry | openvasreporting/libs/export.py:1210-1222 | as written, a registry holding one host under a string key is refused by the CSV host exporter but accepted by the Excel one |
| Validation.CheckDataAsWrittenSpec | openvasreporting/libs/export.py:1213-1215 | as written, any non-empty registry keyed by strings raises `TypeError`; the other exporters' data checks are unaffected |

## Left out

- Rendering and I/O are not modelled:
  - xlsxwriter workbooks, formats and charts;
  - python-docx documents;
  - matplotlib figures;
  - temporary files;
  - CSV writing.

  These are foreign libraries and file output. Only the values written into cells are modelled.
- Floating-point formatting of CVSS scores (`"{:.1f}"`, `"{:.2f}"`, `str(cvss)`) is not modelled. Scores are compared only.
- Config (level names, colours, CVSS thresholds) lives in `config.py`, which is not part of this model.
  - `Config.levels()` is taken to be the five levels of `level_choices`.
  - `vuln.level.lower()` is taken to be one of them. A level outside the five cannot be represented. For such a level the source looks it up with `level_choices.get`, which gives `None`; indexing the IP lists with `None` (line 70) then raises `TypeError` if the vulnerability has any host occurrence, and a vulnerability without hosts is counted under that level's key and its family and adds no IP.
- `ResultTree.sorted_keys_by_rank`, `ResultTree.sortedbysumcvss`, `Host.nv` and `Host.nv_total` are not modelled. They live in `parsed_data.py`, which is not part of this model, so the host exporters' ranking and the per-host totals are left out.
- The regular expression of the sheet name is modelled as a character-set filter.
- `isinstance` is modelled by the constructor of an argument value.
- The exporter dispatch table `implemented_exporters` is a constant map and is not modelled.
- Python truthiness of `port` (Excel and Word host tables) and of `host_name`: a present port is taken to be truthy, and a host name is a string, so `None` names are not represented.
- Text.UpperSpec: `str.upper` is modelled on ASCII letters only; other Unicode case mappings are not modelled.
- Formatting.SheetNameSpec: the 31-character bound is stated only for indexes up to 0xFFF. From the 4096th vulnerability on, the prefix takes four or more hex digits and a name can be 32 characters long.
- Collections.Tally: the per-level IP lists are stated as de-duplicated sets of the affected IPs. The order in which IPs are appended is not stated, because only the lengths leave the function.
- StableSort.SortInPlace: Python's Timsort is modelled by a stable insertion sort. `StableSort.SortedUnique` shows that any stable sort gives the same list.

## Findings

| source | as written | input that shows it | evidently intended | confidence | as-written member | corrected member |
|---|---|---|---|---|---|---|
| openvasreporting/libs/export.py:847-857 | the port label picks `general` for a missing port, then reads `port.protocol` from `None` (same at lines 1176-1181) | a vulnerability whose first occurrence has no port | show the `general` label for a missing port | high; not executed | Formatting.HostPortCellAsWrittenFailsWithoutPort | Formatting.HostPortCellSpec |
| openvasreporting/libs/export.py:1213-1215 | the CSV host exporter type-checks `for x in resulttree`, i.e. the registry's keys, against `Host` | a registry holding one host under a string key | check each `resulttree[key]`, as the Word and Excel host exporters do | medium, assuming the registry iterates like a Python mapping; not executed | Validation.CsvByHostRejectsRegistry | Validation.ValidateSpec |
