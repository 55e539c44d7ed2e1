# mrinjamulcf-cli record logic in Dafny

This project models the record-handling core of `mrinjamulcf-cli`. The tool keeps a zone's DNS records in a local JSON file, validates and normalises that file (`fmt`), and reconciles it with the records the DNS provider holds (`sync`).

The model covers four parts.

- **`Models`** (`models.dfy`): the record shapes.
  - `Record` is a provider record.
  - `Records` is a file entry wrapping a record.
  - `ApiResult` is a record as the API returns it.
  - `Matcher` stands for the regular-expression match, which the model takes as a parameter.
- **`Utils`** (`utils.dfy`): the helpers of `utils/utils.go`.
  - Type filtering.
  - First-match lookup by name.
  - Name containment.
  - Conversion of API results.
  - The split of records into restricted and unrestricted names.
- **`Sync`** (`sync.dfy`): the `sync` command.
  - The settings update.
  - The in-place name/TTL/proxied normalisation of the local records.
  - The create/update classification against the remote records, and the delete classification.
  - The three apply loops gated by dry-run.
  - The whole command as one method.
- **`Fmt`** (`fmt.dfy`): the `fmt` command.
  - Check mode.
  - The in-place formatting pass with its `count` and `removeList`.
  - `removeRecords`.
  - The removal loop as written, and the corrected removal the command model uses.
- **`Version`** (`version.dfy`): `shortGitCommit`.

`Seqs` (`seqs.dfy`) holds `Collect`, the filter-and-convert behind the tool's filtering loops (the type filter, the restricted split, the create/update/delete classification and the corrected removal), together with its general facts: length, membership, order, disjointness and partition.

Each loop of the source that appends to a list or updates a slice in place is a method with a `while` loop. Its postcondition ties the result to a function on sequences, and lemmas state what the source promises about that function. The scans that return as soon as they find a match (`TypeContains`, `FindRecordByName`, `FindRecordID`, `RecordContain`, `RecordContains`, `IsRestricted`) are recursive functions instead. Slices the source updates in place are arrays:

- the local records in `sync`;
- the records in `fmt`.

Package-level settings that `sync` reassigns are fields of the class `Sync.Globals`. Reading files, calling the provider's API and prompting the user are outside the model: their results are parameters.

## Model

| member | source | states |
|---|---|---|
| Utils.TypeContains | utils/utils.go:148-155 | true exactly when the type is an element of the list |
| Utils.GetDNSRecords | utils/utils.go:158-170 | the filter loop returns exactly `EnabledRecords`: the records of the entries whose type is enabled, in file order |
| Utils.EnabledRecordsExact | utils/utils.go:164-168 | the filtered list is no longer than the entries; a record is in it exactly when its type is enabled and some entry carries it; filtering distributes over concatenation, so file order is kept |
| Utils.FindRecordByName | utils/utils.go:173-180 | returns the first record with the name; returns the all-empty record (empty ID) when none has it |
| Utils.FoundRecordHasName | utils/utils.go:173-180 | the result is a record of the list carrying the name, or else it is the empty record and no record carries the name |
| Utils.FindRecordID | utils/utils.go:183-190 | equals the ID of `FindRecordByName` for the same name; it is "" when no record has the name |
| Utils.RecordContain | utils/utils.go:193-200 | true exactly when some record has the same name; no other field is compared |
| Utils.RecordContains | utils/utils.go:203-210 | true exactly when every subrecord's name occurs among the records; true for no subrecords |
| Utils.ConcatOne | utils/utils.go:337-346 | each of the seven record fields is taken from the API result |
| Utils.ConcatOneOverwritesAll | utils/utils.go:337-346 | the result does not depend on the record it starts from |
| Utils.Concat | utils/utils.go:320-334 | the output is the input records unchanged, followed by each result converted, in order; the length grows by the number of results |
| Utils.IsRestricted | utils/utils.go:375-383 | true exactly when some pattern matches the name; false for an empty pattern list |
| Utils.RemoveRestrictedSubdomains | utils/utils.go:362-372 | the loop's two outputs are exactly `Unrestricted` and `Restricted` of the input |
| Utils.RestrictedPartition | utils/utils.go:362-372 | the outputs partition the input: their multisets add up to the input's, as do their lengths; a record is in the unrestricted output exactly when it is in the input and its name is not restricted, and in the restricted output exactly when it is |
| Utils.RestrictedPartitionOrder | utils/utils.go:362-372 | both outputs keep the input's relative order (each distributes over concatenation) |
| Sync.Globals.constructor | cmd/sync.go:21-31 | the domain starts as mrinjamul.in; the record types are the configured ones |
| Sync.Globals.PrepareSync | cmd/sync.go:42-49 | a non-empty domain flag replaces the domain, and an empty flag leaves it unchanged; an empty type list becomes A and CNAME, and any other list is unchanged; afterwards the type list is never empty |
| Sync.ForSync | cmd/sync.go:66-77 | TTL becomes 1; with `--proxied` proxied becomes true, otherwise it is unchanged; "@" becomes the domain and any other name `n` becomes `n.domain`; ID, type, content and proxiable are unchanged |
| Sync.FqdnInjective | cmd/sync.go:72-76 | two local names that qualify to the same name are equal |
| Sync.NormalizeLocal | cmd/sync.go:66-77 | after the in-place loop every element is `ForSync` of the element that was there |
| Sync.DecideCreate | cmd/sync.go:94-104 | a local record is created exactly when no remote record has its name, or when the first remote record with its name has an empty ID |
| Sync.DecideMatched | cmd/sync.go:94-100 | when the first remote namesake has an ID, its name equals the local name, so the name comparison never fires; the record is updated exactly when content or proxied differ, and the update carries the remote ID with every other field from the local record; otherwise it is left alone |
| Sync.DecideIgnoresTtl | cmd/sync.go:97 | changing a local record's TTL never changes the decision |
| Sync.Inspect | cmd/sync.go:94-104 | the loop's created and updated lists are exactly `Created` and `Updated`, in local order |
| Sync.CreatedUpdatedBound | cmd/sync.go:94-104 | the number created plus the number updated is at most the number of filtered local records |
| Sync.CreatedMembers | cmd/sync.go:94-104 | a record is in the created list exactly when it is a local record whose decision is Create |
| Sync.UpdatedMembers | cmd/sync.go:94-104 | a record is in the updated list exactly when it is the update decided for some local record |
| Sync.FindUnused | cmd/sync.go:144-150 | the loop's deleted list is exactly `Deleted` |
| Sync.DeletedMembers | cmd/sync.go:146-150 | a remote record is deleted exactly when no filtered local record carries its name; the list is no longer than the remote list |
| Sync.DeletedOrder | cmd/sync.go:146-150 | the deleted list keeps remote order (it distributes over concatenation) |
| Sync.UpdateAndDeleteExample | cmd/sync.go:94-150 | suppose one local record's remote namesake has other content and one remote record has no local namesake: the result is one update with the remote ID and one delete, and nothing is created |
| Sync.CreateOnlyExample | cmd/sync.go:94-150 | one local record and no remote records: it is created, and nothing is updated or deleted |
| Sync.Apply | cmd/sync.go:108-167 | a dry run issues no API call; otherwise one create per created record comes first, then one update per updated record (by the remote ID it carries), then one delete per deleted record, each group in list order |
| Sync.RunSync | cmd/sync.go:37-168 | the settings are updated as in `PrepareSync`; the created, updated, deleted and removed lists equal `SyncPlan`, which takes no dry-run input; a dry run issues no calls, otherwise the calls follow the apply order |
| Fmt.MissingField | cmd/fmt.go:54-65 | the first empty field among type, name and content, tested in that order; none when all three are set |
| Fmt.Check | cmd/fmt.go:34-107 | check mode fails on the first entry with an empty field and names that field; otherwise it fails with the restricted records of the six checked types when there are any; otherwise it passes with the entry count; the warning is set exactly when some A/AAAA/CNAME record is not proxied, and the result passes exactly when `CheckFails` is false |
| Fmt.CheckFailsIgnoresProxied | cmd/fmt.go:49-97 | changing any record's proxied flag never changes whether check mode fails: unproxied records only warn |
| Fmt.NoRestrictedIffNone | cmd/fmt.go:68-88 | the restricted check finds nothing exactly when no entry is a record of a checked type with a restricted name |
| Fmt.FormatRecord | cmd/fmt.go:122-138 | proxiable becomes true; for A/AAAA/CNAME, proxied becomes true and a TTL of 0 becomes 1; other types keep proxied and TTL; ID, type, name and content are unchanged |
| Fmt.FormatFields | cmd/fmt.go:121-138 | the loop body writes back `FormatRecord` of the record, and `flag` ends true exactly when the record needed proxied or TTL changed |
| Fmt.FormatPass | cmd/fmt.go:120-144 | after the in-place pass the array is `FormatAll` of the old one; `count` is the number of records needing a change; `removeList` is the restricted positions |
| Fmt.CountFlaggedBound | cmd/fmt.go:127-137 | the pass counts each record at most once, so `count` never exceeds the number of records |
| Fmt.FormatIdempotent | cmd/fmt.go:120-138 | a second pass changes nothing and counts nothing |
| Fmt.RestrictedIndicesSorted | cmd/fmt.go:139-142 | `removeList` is strictly increasing |
| Fmt.RestrictedIndicesMembers | cmd/fmt.go:139-142 | `removeList` holds exactly the positions whose record name is restricted |
| Fmt.RestrictedNamesKept | cmd/fmt.go:120-142 | formatting does not change which positions are restricted |
| Fmt.SwapRemove | cmd/fmt.go:184-187 | the length drops by one; position `i` gets the old last element; every other position below the new length is unchanged |
| Fmt.SwapRemoveMultiset | cmd/fmt.go:184-187 | what remains plus the element at `i` is exactly the old contents |
| Fmt.RemoveRecords | cmd/fmt.go:184-187 | on the array, the first `len - 1` slots become `SwapRemove` of the old first `len`, and only slot `i` is written |
| Fmt.RemoveListed | cmd/fmt.go:150-152 | the removal loop as written: the array prefix after the loop is what `RemoveEach` yields, and a panic is reported exactly when `RemoveEach` gives none |
| Fmt.StaleIndexPanics | cmd/fmt.go:139-152 | two restricted records give the remove list [0, 1], and the removal loop panics on it |
| Fmt.StaleLastIndexPanics | cmd/fmt.go:139-152 | whenever at least two records are restricted and the last record is one of them, the removal loop panics |
| Fmt.RemoveEachSameEntries | cmd/fmt.go:139-152 | when the removal loop as written does not panic, it leaves exactly the entries the corrected removal keeps, as a multiset |
| Fmt.SwapOrderExample | cmd/fmt.go:184-187 | with only the first of three entries restricted, the loop as written leaves the last and then the middle entry, while the corrected removal keeps the middle and then the last |
| Fmt.RemoveRestricted | cmd/fmt.go:146-154 | the corrected removal: the kept array prefix is exactly the unrestricted entries, in order |
| Fmt.KeptExact | cmd/fmt.go:139-154 | an entry is kept exactly when it is an entry with an unrestricted name; kept entries plus `removeList` entries account for every record |
| Fmt.RunFormat | cmd/fmt.go:120-154 | removal happens exactly when the prompt is answered yes and some record is restricted; the written records are the formatted records, minus the restricted ones when removed; `count` is the formatted count plus the number removed |
| Version.ShortGitCommit | cmd/version.go:28-35 | a hash of at least 7 characters gives its first 7 characters, and a shorter one gives ""; the result has length 0 or 7 and is always a prefix of the input |
| Version.ShortGitCommitIdempotent | cmd/version.go:28-35 | shortening a short hash changes nothing |

## Left out

- The provider's HTTP API is not modelled. This covers `CFFetch`, `CFPost` and `CFDelete` (utils/utils.go) and `GetRecords`, `CreateRecord`, `UpdateRecord` and `DeleteRecord` (cmd/sync.go).
  - The remote record list is an input.
  - Each call the sync would issue is an `ApiCall` value.
  - The API's responses are not modelled: the record the API returns, which only feeds a printed line, and the "failed to delete" message.
  - `CreateRecord`, `UpdateRecord` and `DeleteRecord` end the process when the API call fails (cmd/sync.go:218-221, 233-236 and 247-250). The calls `Sync.Apply` lists are the calls issued when every call succeeds; after a failure the rest of the list is not issued.
  - The paging loop in `GetRecords` never advances its page number; it is outside the model with the rest of the network code.
- Reading and writing files and JSON are not modelled: the records file, the configuration, the restricted-pattern file, `ExportRecords`, and `fmt`'s rewrite of the file.
  - Each command takes the already-parsed entries and patterns as parameters.
  - The failures of reading and parsing the records file and of `json.Marshal`, each of which ends the process, are not modelled.
  - `ReadRestrictedRecords` (utils/utils.go:386-400) does not end the process when the restricted-pattern file cannot be read or parsed: it prints the error and returns an empty list. `sync` and `fmt` then carry on with no patterns and find nothing restricted. The model covers this case when it is given `[]` as the patterns.
- The regular-expression engine is the `Matcher` parameter. The panic `regexp.MustCompile` raises on an invalid pattern is not modelled.
- The confirmation prompt is the `confirm` parameter of `Fmt.RunFormat`.
- Randomness and the clock are not modelled: `GenTips`, `RandomNumber` and `NewDate`.
- Command-line and environment plumbing is not modelled: cmd/main.go, the flag registrations, the `list` and `export` commands, and every printed line.
- Check mode's exits with status 1 become `Fmt.CheckOutcome` values.
- `Version.ShortGitCommit` counts characters, whereas the source counts bytes. A hash of multi-byte characters would be cut differently; commit hashes are ASCII.
- TTL and `count` are unbounded naturals; the source's unsigned integers never come near wrapping here.
- `Fmt.RemoveRecords`: a slice is modelled as an array plus a length. Sharing of the backing array with other slices is not modelled.
- `Fmt.Check` works on one list of entries. The source reads the file a second time for the restricted check, and that read's failure is not modelled.
- Fmt.RunFormat: removes restricted records with the corrected `Fmt.RemoveRestricted`, not with the loop as written. The loop as written can panic (see Findings). When it does not panic, it removes the same entries, but it moves the last entry into each hole, so the written file's order differs. For example, from `[x, y, z]` with only `x` restricted it writes `[z, y]` where the model writes `[y, z]`. `Fmt.RemoveEachSameEntries` and `Fmt.SwapOrderExample` state both facts.

Three behaviours of the code a reader may not expect (the model follows the code):

- A remote namesake with an empty ID leads to a create, not an update.
- Check mode stops at the first entry with an empty field.
- Check mode's restricted check looks only at records of types A, AAAA, CNAME, TXT, MX and SRV.

## Findings

| source | as written | input that shows it | evidently intended | confidence | as-written member | corrected member |
|---|---|---|---|---|---|---|
| cmd/fmt.go:150-152 | the indices in `removeList` are computed before any removal; each `removeRecords` moves the last element into the removed slot and shortens the slice, yet the later indices are used unchanged | two entries, both with restricted names: `removeList` is [0, 1]; the first removal leaves one entry, and the second indexes position 1, out of range, so the command panics | remove exactly the restricted entries and keep the others | not executed | Fmt.StaleLastIndexPanics | Fmt.RemoveRestricted |
