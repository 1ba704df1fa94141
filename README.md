# ouioui — a verified model of the OUI ingestion and lookup pipeline

ouioui keeps a local table that maps IEEE MA-L prefixes (OUIs, the first
three octets of a MAC address) to organisation names. It builds the table from
the IEEE registry text and an optional list of user overrides, exports it as a
Kismet manufacturer file, and looks up addresses in it. This Dafny project
models the parts of the program that decide what ends up in the table and
what a lookup returns:

- **`parse_custom_oui`** (ouioui/utils.py). The strict override regex is
  written as an explicit matcher over strings (`Prefix.ParseHead`,
  `Utils.MatchStrict`). The loop that fills `valid_set` and the final
  `sorted` call are modelled as well.
- **The registry parse in `get_ieee_oui`** (ouioui/utils.py). The per-line
  regex is written out stage by stage: the hyphenated key, 1 to 10
  whitespace characters, `(hex)`, then 1 to 5 tabs. The tab count is
  backtracked, as the regex engine does. The dict comprehension, where the
  last record for a key wins, is also modelled. The download becomes a
  `Fetch` value: the response text, or a failure.
- **`App.update`** (ouioui/app.py). The override merge loop and the loop
  that builds the rows are methods. The truncate, bulk insert and timestamp
  write act on a `Store.Database` object. The object records its writes in a
  ghost log, so their order can be stated.
- **`App.package_for_kismet`**, up to the joined text. The text is paired
  with a reader that parses it back into the map.
- **`App.lookup`**. The lookup regex has an optional tail that may
  backtrack. It is written as `App.TailFrom`, followed by the prefix query.
- **`OUIManager.update` and `OUIManager.lookup`** (ouioui/ouioui.py), the
  older variant:
  - it reads the `(base 16)` lines;
  - it removes CR, LF and TAB from organisations;
  - it empties the table before it downloads;
  - its lookup only removes `.:-` and checks the length.

Modules follow the program. `Text`, `Prefix` and `Sorting` hold the Python
string operations and regex classes that the core depends on. `Utils`, `App`
and `Manager` mirror ouioui/utils.py, ouioui/app.py and ouioui/ouioui.py.
`Store` holds the two database tables.

Where the code and the design description disagree, the model follows the
code:

- **Download failure.** The design says a failed download yields an empty
  registry and the merge goes on with only the overrides. In the code,
  `get_ieee_oui` returns an empty `set()`. `App.update` and
  `package_for_kismet` then fail, either at `ieee_set[prefix] = manuf` or at
  `.items()`. Both happen before the table is touched. `App.Update` and
  `App.PackageForKismet` return `Err` in that case, and the table is left
  as it was.
- **Atomicity.** The design asks for an atomic replace. The code truncates
  and then bulk-inserts, with no transaction. The model states the order of
  the two writes and claims no atomicity.
- **Organisation text.** The design says stored organisations hold no CR,
  LF or TAB. In `App.update` they are stored as captured, which can include
  a trailing `\r` from the registry's CRLF line ends. Only
  `OUIManager.update` removes those characters. `package_for_kismet` strips
  whitespace only in the export.
- **Prefix format.** The design stores prefixes as `XX:XX:XX`.
  `OUIManager` stores six bare hex digits.

## Model

| member | source | states |
|---|---|---|
| Text.Upper | ouioui/app.py:129 | `addr.upper()`: same length, every character upper-cased, no lower-case ASCII letter left |
| Text.UpperIdempotent | ouioui/app.py:129 | upper-casing twice is upper-casing once |
| Text.UpperKeeps | ouioui/app.py:129 | text without lower-case letters is unchanged by `upper()` |
| Text.Strip | ouioui/app.py:105 | `strip()` never lengthens and leaves no whitespace at either end |
| Text.StripIsSlice | ouioui/app.py:105 | `strip()` returns a contiguous slice of its input, and everything cut away is whitespace |
| Text.Split | ouioui/utils.py:22-26 | the lines of the text: never an empty list, and no line holds the delimiter |
| Text.Join | ouioui/app.py:108 | `"\n".join(lines)` starts with the first line and ends with the last; with SplitJoin, splitting undoes it |
| Text.SplitJoin | ouioui/app.py:108 | splitting `"\n".join(lines)` gives back `lines` when no line holds a newline |
| Text.StrLessIrreflexive | ouioui/utils.py:49 | Python's `<` on `str` is irreflexive |
| Text.StrLessTransitive | ouioui/utils.py:49 | `<` on `str` is transitive |
| Text.StrLessTotal | ouioui/utils.py:49 | any two distinct strings are ordered by `<` |
| Sorting.SortSet | ouioui/utils.py:49 | `sorted(set)`: strictly ascending, exactly the set's elements, one entry per element |
| Sorting.SortedUnique | ouioui/utils.py:49 | two strictly ascending lists with the same elements are equal, so `sorted` has one outcome |
| Prefix.ParseHead | ouioui/utils.py:41 | the head `([0-9A-F]{2})[:-]?([0-9A-F]{2})[:-]?([0-9A-F]{2})`: on a match the key is canonical `XX:XX:XX` and the consumed text is the key written with the separators found |
| Prefix.ParseHeadComplete | ouioui/utils.py:41 | every written form of a canonical key matches the head, whatever follows, and the captures rebuild the key |
| Prefix.LayoutPieces | ouioui/utils.py:41 | in a written key followed by anything, the three pairs sit where the separators written put them, and each `[:-]?` reads back the separator written |
| Prefix.CanonicalIsLayout | ouioui/app.py:133 | `XX:XX:XX` is itself a written form of its key |
| Utils.MatchStrict | ouioui/utils.py:41-44 | an accepted override prefix yields a canonical key |
| Utils.StrictAcceptsExactly | ouioui/utils.py:41-44 | a prefix is accepted with key `k` if and only if `k` is canonical and the prefix is `k` written with at most one `:` or `-` at each pair boundary; mixed separators are allowed |
| Utils.StrictRefusesOtherLengths | ouioui/utils.py:41-45 | a prefix shorter than 6 or longer than 8 characters (such as a full MAC) is dropped, never truncated |
| Utils.Contribution | ouioui/utils.py:41-45 | one entry adds exactly its normalised pair, organisation verbatim, or nothing |
| Utils.Accepted | ouioui/utils.py:39-45 | the set of normalised pairs: every key in it is canonical; with AcceptedMembers, it holds exactly the pairs that some entry gives |
| Utils.AcceptedMembers | ouioui/utils.py:39-45 | a pair is in `valid_set` if and only if some entry normalises to its key and carries its organisation unchanged |
| Utils.AcceptedStep | ouioui/utils.py:39-45 | each loop iteration adds the contribution of its entry and nothing else |
| Utils.PairLessIsStrictTotalOrder | ouioui/utils.py:49 | `<` on `(prefix, org)` tuples is a strict total order |
| Utils.CustomOui | ouioui/utils.py:34-49 | the returned list is strictly ascending by `(prefix, org)`, so it has no duplicates, and it holds exactly the accepted pairs |
| Utils.CustomOuiIsTheSortedOrder | ouioui/utils.py:49 | any ascending, duplicate-free listing of the accepted pairs is the returned list |
| Utils.ParseCustomOui | ouioui/utils.py:34-49 | the loop and `sorted`: the result is the sorted accepted pairs, every prefix canonical, length at most the input's |
| Utils.SpaceRun | ouioui/utils.py:23 | the maximal run of whitespace at a position |
| Utils.TabRun | ouioui/utils.py:23 | the maximal run of tabs at a position |
| Utils.TryTabs | ouioui/utils.py:23 | `\t{1,5}(.{1,128})$` with backtracking: the greatest tab count up to the limit that leaves 1 to 128 characters, and no count exactly when none does |
| Utils.HexMarkerEnd | ouioui/utils.py:23 | `\s{1,10}\(hex\)` ends inside the line |
| Utils.OrgStart | ouioui/utils.py:23 | after 1 to 5 tabs the rest of the line is 1 to 128 characters |
| Utils.MatchRegistryLine | ouioui/utils.py:22-27 | a matched line gives a canonical key and an organisation of 1 to 128 characters |
| Utils.RegistryLineSound | ouioui/utils.py:22-27 | a matched line is exactly `AA-BB-CC`, 1 to 10 whitespace characters, `(hex)`, 1 to 5 tabs and the organisation, with key `AA:BB:CC` |
| Utils.RegistryLineComplete | ouioui/utils.py:22-27 | every such line matches under its key. The captured organisation is the record's own less the leading tabs the greedy `\t{1,5}` also takes (up to five tabs in all, keeping one character), so it is verbatim when it does not start with a tab |
| Utils.RegistryLineTooLong | ouioui/utils.py:23 | a line whose organisation exceeds 128 characters gives no record; it is not truncated |
| Utils.FindAll | ouioui/utils.py:22-26 | `re.findall` of a line-anchored pattern under `re.MULTILINE`: at most one capture per line |
| Utils.FindAllAppend | ouioui/utils.py:22-26 | the captures of two runs of lines are those of the first run followed by those of the second, so text order is kept and duplicates stay |
| Utils.FindAllOne | ouioui/utils.py:22-26 | a line contributes its captures when it matches and nothing otherwise |
| Utils.FindAllMembers | ouioui/utils.py:22-26 | a pair is captured if and only if some line matches with it |
| Utils.Records | ouioui/utils.py:22-26 | the `findall` of the registry pattern: every record has a canonical key and an organisation of 1 to 128 characters; FindAll gives the line order |
| Utils.BuildMapLastWins | ouioui/utils.py:27 | the map's keys are the records' keys, and each key keeps the organisation of its last record |
| Utils.BuildMapSize | ouioui/utils.py:27 | the dict comprehension has no more entries than records; BuildMapLastWins states which |
| Utils.BuildMapKeys | ouioui/utils.py:27 | a key is in the map if and only if some record has it |
| Utils.BuildMapValue | ouioui/utils.py:27 | each value of the map comes from a record with that key |
| Utils.BuildMapKeysCanonical | ouioui/utils.py:27 | records with canonical keys give a map with canonical keys |
| Utils.FindAllKeys | ouioui/utils.py:22-27 | the dict built from the captures holds a key if and only if some line matches with that key |
| Utils.FindAllLastWins | ouioui/utils.py:22-27 | each key of that dict holds the organisation of a line that matches with it, and no later line matches with that key |
| Utils.ParseRegistry | ouioui/utils.py:22-27 | every key of the parsed registry is canonical; ParseRegistryKeys and ParseRegistryLastWins say which keys and values there are |
| Utils.ParseRegistryKeys | ouioui/utils.py:22-27 | a key is in the parsed registry if and only if some line of the text matches with it |
| Utils.ParseRegistryLastWins | ouioui/utils.py:22-27 | each key holds the organisation of the last line of the text that matches with that key |
| Utils.MatchedOrgInLine | ouioui/utils.py:23 | the captured organisation is made of characters of its line |
| Utils.ParseRegistryNoNewline | ouioui/utils.py:22-27 | no organisation of the parsed registry holds a newline |
| Utils.GetIeeeOui | ouioui/utils.py:9-31 | no registry data exactly when the download failed, otherwise the parsed text |
| Store.OrgsWithPrefix | ouioui/app.py:138-140 | an organisation is returned if and only if some row whose prefix starts with the query holds it |
| Store.SelectOrgs | ouioui/ouioui.py:73-75 | the list query has at most one entry per row; SelectOrgsAppend and SelectOrgsOne say which entries |
| Store.SelectOrgsMembers | ouioui/ouioui.py:73-75 | an organisation is listed if and only if some row whose prefix starts with the query holds it |
| Store.SelectOrgsAppend | ouioui/ouioui.py:73-75 | the list over two runs of rows is the first run's list followed by the second's, so entries follow table order and repeated organisations are kept |
| Store.SelectOrgsOne | ouioui/ouioui.py:73-75 | one row gives its organisation, once, exactly when its prefix starts with the query, and nothing otherwise |
| Store.Database.constructor | ouioui/ouioui.py:13-18 | a database with the given rows and marker and no writes yet |
| Store.Database.GetOrCreateLastUpdate | ouioui/app.py:37 | the marker is kept if present and created as `"Never"` otherwise; rows untouched |
| Store.Database.TruncateTable | ouioui/app.py:60-62 | the table is emptied and the marker kept |
| Store.Database.BulkCreate | ouioui/app.py:66 | every row is appended in order, and the marker is kept |
| Store.Database.SetLastUpdate | ouioui/app.py:68-70 | the marker becomes the timestamp and the rows are kept |
| App.MergeOverrides | ouioui/app.py:43-52 | the loop `ieee_set[prefix] = manuf` yields the registry overlaid with the overrides, the later override winning |
| App.MergeOverrideWins | ouioui/app.py:43-52 | the merged keys are the registry keys plus the override prefixes; an overridden prefix holds its last override; other registry entries are unchanged |
| App.MergeSortedKeepsGreatest | ouioui/app.py:43-52 | since overrides arrive sorted, a prefix overridden twice keeps the greatest of its organisations |
| App.BuildRows | ouioui/app.py:55-58 | one row per merged entry and nothing else, no prefix twice, row count equal to the map size |
| App.MergedTable | ouioui/app.py:40-52 | every key of the merged table is canonical |
| App.OverrideKeysCanonical | ouioui/app.py:41-52 | every override that survives parsing has a canonical key |
| App.ReplaceTable | ouioui/app.py:60-70 | the old rows are gone, the table holds exactly the merged entries, and the timestamp is written after the insert |
| App.Update | ouioui/app.py:34-71 | on a failed download: an error, the table untouched, the marker created as `"Never"` if absent. Otherwise: truncate, insert one row per merged entry, then the timestamp |
| App.PackageForKismet | ouioui/app.py:91-108 | an error without registry data; otherwise the export text of the merged table |
| App.KismetText | ouioui/app.py:104-108 | the export text is empty exactly when the merged table is; KismetRoundTrip says what it reads back as |
| App.ExportText | ouioui/app.py:106-108 | the sorted lines joined by newlines are empty exactly when the map is; ExportRoundTrip reads them back |
| App.ReadKismetRecords | ouioui/app.py:104-108 | the reader that parses the export back: one record per readable line, in order |
| App.LineReadsBack | ouioui/app.py:105 | each line `prefix\torg` has no newline and reads back as its entry |
| App.StrippedExportable | ouioui/app.py:105 | stripping organisations keeps keys and map size, and adds no newline |
| App.KismetRoundTrip | ouioui/app.py:104-108 | the export's lines are strictly ascending, so it has no duplicates, they are exactly the `prefix\torg` lines of the stripped table, and reading it back gives each prefix its stripped organisation |
| App.MergedTableNoNewline | ouioui/app.py:40-52 | the merged table's organisations hold no newline when no override organisation does |
| App.PackageReadsBack | ouioui/app.py:91-108 | the text package_for_kismet compresses is ascending, its lines are exactly the `prefix\torg` lines of the merged table with stripped organisations, and it reads back as the merged table with stripped organisations, provided no override organisation holds a newline |
| App.ExportRoundTrip | ouioui/app.py:104-108 | the sorted, newline-joined lines of a map read back into that map |
| App.ExportLines | ouioui/app.py:104-108 | a non-empty export splits back into exactly its lines, ascending, with no trailing newline |
| App.ReadBackLines | ouioui/app.py:104-108 | the lines of a map, in any order, read back into the map |
| App.BuildMapCovering | ouioui/app.py:104-108 | records that agree with a map and cover its keys rebuild it |
| App.Normalize | ouioui/app.py:127-135 | an accepted address yields a canonical key |
| App.FullMatch | ouioui/app.py:127-131 | a full match yields a canonical key |
| App.TailFrom | ouioui/app.py:128 | the optional tail with backtracking: an accepted tail holds only separators and hex digits, and at most one character per separator item and two per pair item left; TailExactly says which tails |
| App.TailShape | ouioui/app.py:128 | an accepted tail is up to three optional `[:-]`, each followed by an optional hex pair |
| App.TailExactly | ouioui/app.py:128 | a tail is accepted if and only if it is one of the shapes of the tail group |
| App.NormalizeSound | ouioui/app.py:127-135 | an accepted address, upper-cased, holds only hex digits and `:`/`-`, 6, 8, 10 or 12 hex digits and at most five separators, and is a written form of its key followed by a tail shape. Everything else raises `ValueError` |
| App.FullMatchSound | ouioui/app.py:127-131 | the same facts for the full match of the upper-cased text |
| App.FullMatchExactly | ouioui/app.py:127-131 | the full match gives key `k` if and only if `k` is canonical and the text is a written form of `k` followed by a tail shape |
| App.NormalizeExactly | ouioui/app.py:127-135 | an address normalises to `k` if and only if `k` is canonical and the upper-cased address is a written form of `k` followed by a tail shape; every other address raises `ValueError` |
| App.TailCounts | ouioui/app.py:128 | the tail holds 0, 2, 4 or 6 hex digits and at most three separators |
| App.LayoutCounts | ouioui/app.py:128 | the head holds six hex digits and only the separators written |
| App.TailAccepts | ouioui/app.py:128 | every shape the tail describes is accepted |
| App.NormalizeComplete | ouioui/app.py:127-133 | every written form of a key followed by any tail shape normalises to the key |
| App.NormalizeIgnoresCase | ouioui/app.py:129 | lookup does not depend on the case of the address |
| App.NormalizeCanonical | ouioui/app.py:127-133 | normalising `XX:XX:XX` returns it unchanged |
| App.TestedFormats | tests/test_functions.py:33-41 | `AABBCC`, `AABBCC11`, `AA:BB:CC:11:22`, `AA-BB-CC-11` and the other tested forms all normalise to `AA:BB:CC` |
| App.TrailingSeparators | ouioui/app.py:128 | separators with no pair after them are accepted, such as `AA:BB:CC:::` |
| App.DanglingSeparator | ouioui/app.py:128 | a separator may end the address after a pair, such as `AABBCC-11:` |
| App.LookupAfterRebuild | ouioui/app.py:123-140 | after update, lookup gives the organisation of the normalised prefix, the empty set when it is unknown, and the error for an invalid address |
| App.Lookup | ouioui/app.py:123-140 | an error exactly for an invalid address; otherwise the organisations of exactly the rows whose prefix starts with the normalised key |
| App.OrgsOfRebuilt | ouioui/app.py:138-140 | on rebuilt rows, "starts with" a canonical key finds only that key's row |
| Manager.Base16LineSound | ouioui/ouioui.py:47 | a matched line is six upper-case hex digits, `     (base 16)\t\t` and 1 to 128 characters, which are the two captures |
| Manager.Base16LineComplete | ouioui/ouioui.py:47 | every such line matches with those captures |
| Manager.Base16LineTooLong | ouioui/ouioui.py:47 | an organisation over 128 characters makes the line fail; it is not truncated |
| Manager.MatchBase16Line | ouioui/ouioui.py:47 | a matched line gives six upper-case hex digits and an organisation of 1 to 128 characters |
| Manager.Sanitize | ouioui/ouioui.py:55 | the cleaned organisation holds no CR, LF or TAB and is no longer than the input; SanitizeOne and SanitizeAppend say which characters stay, in order |
| Manager.SanitizeOne | ouioui/ouioui.py:55 | a CR, LF or TAB is removed, and any other character is kept as it is |
| Manager.SanitizeAppend | ouioui/ouioui.py:55 | removal is piece by piece, so every other character stays, in order |
| Manager.SanitizeKeepsClean | ouioui/ouioui.py:55 | text is unchanged if and only if it holds no CR, LF or TAB |
| Manager.RemoveDashes | ouioui/ouioui.py:54 | no `-` remains |
| Manager.RemoveDashesOfHex | ouioui/ouioui.py:54 | on the captured hex digits the replace changes nothing |
| Manager.CollectRows | ouioui/ouioui.py:51-56 | one row per match, in order, prefix without dashes and organisation cleaned |
| Manager.Base16Rows | ouioui/ouioui.py:47-56 | no more rows than lines: one per matching `(base 16)` line, in text order |
| Manager.Base16RowsShape | ouioui/ouioui.py:47-56 | every stored prefix is six upper-case hex digits, and every organisation has at most 128 characters and no CR, LF or TAB |
| Manager.Update | ouioui/ouioui.py:27-63 | the table is truncated before the download. On failure it stays empty, the marker is kept or created as `"Never"`, and nothing is inserted. Otherwise the rows of all matches are inserted, then the timestamp is written |
| Manager.RemoveSeparators | ouioui/ouioui.py:67 | no `.`, `:` or `-` remains; RemoveSeparatorsAppend and RemoveSeparatorsOne say every other character stays, in order |
| Manager.RemoveSeparatorsAppend | ouioui/ouioui.py:67 | removal is piece by piece, so every other character stays, in order |
| Manager.RemoveSeparatorsOne | ouioui/ouioui.py:67 | a `.`, `:` or `-` is removed, and any other character is kept as it is |
| Manager.Lookup | ouioui/ouioui.py:65-75 | `False` exactly when fewer than six characters remain after the separators are removed; otherwise the list query for the cleaned, upper-cased text: one entry per matching row, in table order, repeats kept (by SelectOrgsAppend and SelectOrgsOne) |
| Manager.LookupResult | ouioui/ouioui.py:65-75 | `False` exactly when fewer than six characters remain; otherwise every row whose prefix starts with the cleaned, upper-cased query is listed, and no other |
| Manager.LookupLongQueryFindsNothing | ouioui/ouioui.py:67-73 | the query is not cut to six characters, so a longer query finds nothing among six-digit prefixes |
| Manager.NoRowStartsWithLonger | ouioui/ouioui.py:73 | no prefix starts with a longer query |
| Manager.LookupDoesNotCheckHex | ouioui/ouioui.py:67-73 | characters are not checked: `ZZ:ZZ:ZZ` is looked up like any other query |

## Left out

- Network access (`requests.get`): the download is a `Fetch` parameter, either the response text or a failure. HTTP status codes are not distinguished; `get_ieee_oui` does not check them either.
- gzip compression, UTF-8 encoding and writing `kismet_manuf.txt.gz`: the model stops at the joined text.
- The database engine: `db_init`, batching of 500 in `bulk_create`, and the lack of a transaction around truncate and insert. Only the order of the writes is stated.
- `datetime.now()`: the timestamp is a parameter.
- All logging, including the counts it reports.
- `App.update_custom`: it repeats the merge and discards the result, so it changes nothing that is stored.
- The command line, configuration loading and the package entry points.
- App.BuildRows: the order of the rows, which follows dict insertion order, is not stated; only which rows there are and how many.
- Store.OrgsWithPrefix: peewee's `startswith` is a SQL `LIKE`, which ignores the case of ASCII letters; the model compares exactly. Both lookups upper-case the query, and the rows the program stores hold upper-case prefixes only, so the two agree on those rows.
- Text.Upper: `str.upper` is modelled for ASCII letters only. Non-ASCII case mappings are not modelled, including those that change length.
- Text.IsSpace: the regex `\s` and `str.strip()` (so Text.Strip as well) are modelled for code points up to U+00A0.
- Utils.MatchRegistryLine: the registry text is scanned line by line. A `\s{1,10}` run that spans a newline is not modelled.

