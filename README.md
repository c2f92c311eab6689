# Multipart secrets, modelled in Dafny

The repository is a small Go tool. It keeps one logical key-value secret in AWS Secrets
Manager, spread over several records, none larger than 50 KiB. Part 0 of a secret named
`base` is the record `base`, and part `n` is the record `base-n`.

To add keys, the tool does the following:
- lists the parts;
- merges their contents;
- adds the new pairs without overwriting any existing key;
- splits the result into size-bounded chunks over the sorted keys;
- writes chunk `i` to the i-th existing part, and any chunks left over to newly numbered parts.

There are two revisions of this engine:
- `main.go`, the command-line tool;
- `secrets_manager.go`, a `SecretManager` type written over a client interface.

This project models both revisions and proves properties of them.

Modules:

- `Wrappers`: `Option`, `Result` and `Outcome`.
- `GoStrconv`: Go's 64-bit `int`, with explicit wrap-around.
  - `%d` formatting, `fmt.Sscanf("%d")` and `strconv.Atoi`.
- `GoStrings`: `strings.TrimSpace`, `strings.Split`, `strings.HasPrefix` and `unicode.IsSpace`.
  - The UTF-8 byte length `len([]byte(s))`.
- `GoSort`: Go's byte-wise string order and `sort.Strings` as the sorted keys of a map.
  - `sort.Ints`, as a function and as an in-place insertion sort on an `array`.
- `Documents`: merging a sequence of maps, and the key-order and disjointness relations between them.
- `Store`: the secret store behind the AWS client.
  - A `Client` class holds the secrets, the log of successful writes and the number of calls made.
  - A failure oracle `failsAt` decides, by call number, which calls fail.
  - `Payload` is what a stored string decodes to: undecodable, JSON `null`, or an object.
- `Naming`: part names (`base` for 0, `base-n` otherwise).
  - The slot numbers chunks are written to.
  - The recognition of listed names, parameterised by the recognizer.
- `Cli`: `main.go`.
- `SecretsManager`: `secrets_manager.go`, with the `SecretManager` class over a `Client`.
- `RoundTrip`: what writing and then reading back gives.
  - `main.go`'s chunks, read back by `FetchAllSecretData`'s merge, give the original data.
  - `secrets_manager.go` loses a new secret's first part (see "## Findings").

The AWS calls have no body here. Each one is a step on the `Client`:
- an upsert of one record, counted as one call;
- a batch fetch of the records that exist among the requested names;
- a call that fails changes nothing but the call count, and the code stops at it.

`json.Marshal` is a parameter `marshal`; the size test measures the UTF-8 length of its result.

Where `main.go` uses a `map[string]string` that functions update in place, the model uses the class `Cli.KeyValues`. Where `RedistributeSecrets` sorts the caller's slice in place, the model takes an `array`.

The merge in `FetchAllSecretData` rejects a part that decodes to `null` (secrets_manager.go:147-149). A part that decodes to an empty object `{}` merges as no keys.

## Model

| member | source | states |
|---|---|---|
| Cli.IsNumeric | main.go:31-38 | true exactly when the string is non-empty and all ASCII digits |
| Cli.CleanSecretName | main.go:22-29 | accepts the trimmed name, or refuses with an error carrying the trimmed name |
| Cli.CleanSecretNameRefuses | main.go:22-29 | refused exactly when the trimmed name is some text, `-` and a non-empty run of digits |
| Cli.CleanSecretNameExamples | main.go:22-29 | "db-3" is refused; "db" and "db-" are accepted unchanged |
| Cli.MainPartNumber | main.go:57-65 | the number read off a listed name is non-negative; the base name is 0; a name neither the base name nor starting with `base-` is not a part |
| Cli.MainPartNumberRecognizes | main.go:57-65 | a listed name is recognized exactly when it is the base name or `base-` followed by digits |
| Cli.MainPartNumberOfDigits | main.go:59-64 | `base-d` with all-digit `d` yields the scanned value of `d`; when that overflows `int`, the scan fails and 0 is kept |
| Cli.MainPartNumberRoundTrip | main.go:57-65 | the name written for a non-negative part number is recognized as that number |
| Cli.MultipartNumbers | main.go:55-67 | the numbers of the listed names, in listing order, are those the recognizer assigns |
| Cli.MultipartNumbersFromListing | main.go:57-65 | every listed number is non-negative and is the number of some listed name |
| Cli.GetSecretSize | main.go:40-42 | the byte length lies between one and four bytes per character of the string |
| Cli.AddKeyValues | main.go:120-131 | fails exactly when an added key exists, and then changes nothing; otherwise the keys are the union and no existing value changes |
| Cli.SortDataAlphabetically | main.go:133-144 | the copy built in sorted key order equals the input map |
| Cli.ChunkDataIntoSecrets | main.go:179-224 | the loop returns exactly the greedy packing over the sorted keys, with an empty result when a pair alone is too large |
| Cli.ChunksRefuseLargePair | main.go:192-201 | when some pair alone encodes to more than 50 KiB, there are no chunks |
| Cli.ChunksPartition | main.go:186-223 | otherwise every chunk is non-empty and within 50 KiB, the chunks follow one another in key order and are pairwise disjoint, and their merge is the data |
| Cli.RedistributeSecrets | main.go:258-292 | fewer chunks than parts is refused with no call; otherwise the writes follow the plan up to the first failed call, which is reported by name |
| Cli.WriteChunks | main.go:269-292 | the writes, the store and the call count after the chunk loop, in terms of the plan and the first failing call |
| Cli.SortedNumbers | main.go:258 | the numbers in ascending order, as `sort.Ints` leaves them |
| Cli.MainPlanNames | main.go:269-286 | with distinct existing numbers and no overflow, all names differ; existing parts keep their names; the base name is used exactly for number 0 |
| Cli.MainPlanFreshSlots | main.go:277-286 | new part numbers increase and lie above every existing one; with no parts, the first chunk goes to the base name |
| Store.Client.Upsert | main.go:226-250 | a successful upsert stores the chunk under the name and logs it; a failed one changes only the call count |
| Store.Client.UpsertStep | main.go:287-291 | one write of a run that stops at its first failure either extends the run by this write or ends it |
| Store.Client.BatchGet | secrets_manager.go:89-99 | the existing secrets among the requested names, or a failed call |
| Store.SuccessesNext | main.go:287-291 | call `i` of the run fails exactly when the run stops after `i` writes |
| Store.AppliedLookup | main.go:287 | after writes to distinct names, each name holds what was written to it |
| Store.AppliedKeys | main.go:287 | after the writes, only secrets that existed before or were written exist |
| GoStrings.TrimSpace | main.go:23 | the infix left after removing leading and trailing white space, neither end of it white space |
| GoStrings.Split | main.go:24 | `strings.Split` gives at least one piece, no piece contains the separator, and more than one exactly when the separator occurs |
| GoStrings.JoinSplit | main.go:24 | joining the pieces of a split with the separator gives the string back |
| GoStrings.Utf8SizeConcat | main.go:40-42 | the byte length of a concatenation is the sum of the byte lengths |
| GoStrings.Utf8SizeAscii | main.go:40-42 | text of ASCII characters takes exactly one byte per character |
| GoStrconv.ScanDecimalCanonical | main.go:62-63 | `Sscanf("%d")` on digits without a leading zero, whose value fits in an `int`, gives a number whose `%d` text is those digits, so such a suffix names the part it was read as |
| GoStrconv.Atoi | secrets_manager.go:67 | `strconv.Atoi` accepts no empty text; a negative result needs a leading `-`; plain digits, leading zeros included, read as their value when it fits in an `int`, else fail |
| GoStrconv.AtoiAccepts | secrets_manager.go:67 | `strconv.Atoi` accepts only an optional `+` or `-` followed by one or more digits, so names such as `base-x1` are not parts |
| GoStrconv.AtoiSigned | secrets_manager.go:67 | a leading `+` reads as the digits alone; a leading `-` reads as their negation, failing below the smallest `int` |
| GoStrconv.AtoiFormatInt | secrets_manager.go:67 | `strconv.Atoi` reads back every `int` that `%d` writes |
| GoStrconv.ScanFormatInt | main.go:62-63 | `Sscanf("%d")` reads back every non-negative `int` that `%d` writes |
| GoStrconv.FormatIntInjective | main.go:104 | different numbers give different decimal texts |
| GoSort.SortedKeys | main.go:134-138 | the keys of a map collected in any order and sorted, which is the one strictly ascending enumeration of them |
| GoSort.SortIntsInPlace | secrets_manager.go:184 | the array afterwards holds its old contents in ascending order |
| GoSort.NonDecreasingUnique | secrets_manager.go:184 | a multiset has only one ascending enumeration, so the sort is determined |
| Naming.PartName | main.go:100-105 | the name of part `n` is the base name exactly for `n = 0`, and longer than `base-` for any other number; `Cli.MainPartNumberRoundTrip` and `SecretsManager.SmPartNumberRoundTrip` read those other names back as their numbers |
| Naming.PartNameInjective | main.go:100-105 | different part numbers name different secrets |
| Naming.SlotIndicesDistinct | main.go:269-286 | with distinct existing numbers and no overflow, every chunk gets its own part number |
| Naming.RecognizedMembers | secrets_manager.go:60-72 | a number is listed exactly when some listed name is recognized as it |
| Documents.MergeAllLookup | secrets_manager.go:141-145 | merging disjoint parts keeps each part's own value for each of its keys |
| Documents.OrderedIsDisjoint | main.go:213-218 | parts in key order share no key |
| SecretsManager.SmPartNumber | secrets_manager.go:63-71 | the number read off a name lies between 0 and 5, and is 0 exactly for the base name |
| SecretsManager.SmPartNumberRecognizes | secrets_manager.go:65-70 | another name is recognized as `n` exactly when it is `base-d` with `Atoi(d) = n` and 1 <= n <= 5 |
| SecretsManager.SmPartNumberRoundTrip | secrets_manager.go:63-71 | the name written for part `n` is read back as `n` for 0 to 5, and as nothing for any other number |
| SecretsManager.SmPartNumberLenient | secrets_manager.go:66-68 | `base-03` and `base-+3` are both recognized as part 3 |
| SecretsManager.SmBaseZeroUnlisted | secrets_manager.go:68 | `base-0` is not recognized as a part |
| SecretsManager.SmNumbersFromListing | secrets_manager.go:60-72 | every listed number is between 0 and 5 and is the number of some listed name |
| SecretsManager.SecretManager.GetMultipartNumbers | secrets_manager.go:60-72 | the numbers of the listed names, in listing order, are those the recognizer assigns |
| SecretsManager.SecretManager.BuildNames | secrets_manager.go:111-118 | the part names in the order of the numbers, 0 as the base name |
| SecretsManager.SecretManager.FetchAllSecretData | secrets_manager.go:105-152 | no numbers give the empty map with no call; otherwise one batch call, whose failure is reported, then the merge relation over the response; the store is unchanged |
| SecretsManager.MergeParts | secrets_manager.go:128-151 | the merge loop's result satisfies the merge relation: it stops at the first missing, undecodable or null part, or at a repeated key |
| SecretsManager.MergeInto | secrets_manager.go:140-146 | succeeds exactly when the part shares no key with the merge, and then lays it over; otherwise names a shared key and the part |
| SecretsManager.MergesSucceeds | secrets_manager.go:128-151 | the merge succeeds exactly when all parts are found and decode to objects with no key in common; it then holds every part's keys with that part's values, and no other keys |
| SecretsManager.MergesClean | secrets_manager.go:128-151 | clean parts sharing no key, with each other or with what was merged before, merge to their overlay and nothing else |
| SecretsManager.MergesDisjointParts | secrets_manager.go:128-151 | clean, key-disjoint parts merge to the merge of their contents and nothing else |
| SecretsManager.MergeErrorsGenuine | secrets_manager.go:129-149 | each reported error is genuine: a requested part missing from the response, a part undecodable or null, or a key found in the named part and in an earlier one |
| SecretsManager.SecretManager.CreateOrModifySecret | secrets_manager.go:155-179 | one upsert of the object under the name, or a failed call that changes nothing else |
| SecretsManager.SecretManager.RedistributeSecrets | secrets_manager.go:183-213 | sorts the caller's array; fewer chunks than parts is refused with no call; otherwise the writes follow the plan up to the first failed call |
| SecretsManager.SecretManager.WriteChunks | secrets_manager.go:192-211 | the writes, the store and the call count after the chunk loop, with `maxNum` advanced by one per new part |
| SecretsManager.FreshSlot | secrets_manager.go:201-204 | a new part is named `base-(maxNum + 1)` in Go's `int`, and that number becomes `maxNum` |
| SecretsManager.SmPlanNames | secrets_manager.go:188-204 | with distinct numbers and no overflow, all names differ; existing parts keep their names; new parts are numbered above all of them |
| SecretsManager.SmFirstChunkToBaseZero | secrets_manager.go:201-203 | with no parts, the first chunk is written to `base-0`, not to the base name |
| SecretsManager.SmFreshPartsUnlisted | secrets_manager.go:68 | a new part numbered above 5 is written but never recognized again |
| RoundTrip.MainWriteThenMerge | main.go:269-292 | key-disjoint chunks written by `main.go` and fetched back by part number merge exactly to the merge of the chunks |
| RoundTrip.MainChunksRoundTrip | main.go:179-292 | data chunked and written by `main.go`, then fetched back and merged, gives the data |
| RoundTrip.SmPlanIsMainPlan | secrets_manager.go:192-205 | when some part exists, both revisions write the same chunks to the same names |
| RoundTrip.SmFreshSecretUnreadable | secrets_manager.go:200-204 | on a secret with no parts, fetching the written parts by number fails, because no base record exists |

## Left out

- The AWS traffic itself is reduced to steps on `Store.Client`:
  - `ListSecrets` with its pagination and name filter is left out; the listing is the sequence of all listed names.
  - `BatchGetSecretValue` is a map lookup of the existing secrets.
  - `DescribeSecret` followed by `UpdateSecret` or `CreateSecret` is one upsert call.
  - Network errors beyond "this call fails" are not modelled.
- `GetSecretsData` (secrets_manager.go:84-101) is folded into `Store.Client.BatchGet`. Its error for an empty name list is not modelled, because `FetchAllSecretData` never calls it with one.
- `json.Marshal`, `json.MarshalIndent` and `json.Unmarshal` are library calls.
  - Encoding is the parameter `marshal`.
  - Decoding is the `Payload` of a stored secret.
  - The outputs are not modelled byte for byte, and the branches for a failing `json.Marshal` (main.go:194-197, main.go:209-212) are not modelled: a `map[string]string` always encodes.
- `parseJSONInput`, `main`, flag parsing, the tag list and the stderr messages are command-line glue around the core.
- `main.go`'s own per-record fetch, `getSecretData` and `fetchAllSecretData` (main.go:76-118), is outside the modelled core, although `main()` uses it at main.go:344.
  - It skips a null part silently (main.go:111) and lets a later part overwrite a repeated key (main.go:112-114), where the merge of secrets_manager.go refuses both.
  - The round-trip lemmas read `main.go`'s writes back with secrets_manager.go's merge, not with this fetch.
- Store.Client.Upsert: a successful upsert stores `JsonObject(data)`, so the record decodes back to exactly the map written.
  - The byte-level JSON encoding and decoding are not modelled.
  - Go's `json.Marshal` followed by `json.Unmarshal` gives this for a `map[string]string` of valid UTF-8.
  - Both round-trip lemmas rest on it.
- Go strings are modelled as sequences of Unicode scalar values. Invalid UTF-8 in a name or value is out of scope.
- `map[string]interface{}` values in secrets_manager.go are a type parameter `V`, whose JSON structure does not matter to the merge.
- Cli.GetSecretSize: its contract bounds the byte count between one and four bytes per character. The exact UTF-8 length is the `GoStrings.Utf8Size` function it returns.
- Cli.MainPlanNames, SecretsManager.SmPlanNames and RoundTrip.MainWriteThenMerge assume distinct existing part numbers and no `int` overflow.
  - Neither revision checks either.
  - Two listed names such as `db-3` and `db-03` can carry the same number.
- The order in which Go ranges over a map is not modelled.
  - The key loops of `addKeyValues` and the merge pick keys in any order.
  - Which shared key the merge reports is a relation (`SecretsManager.Merges`), not a function.

## Findings

| source | as written | input that shows it | evidently intended | confidence | as-written member | corrected member |
|---|---|---|---|---|---|---|
| secrets_manager.go:200-204 | a new part is always named `base-(maxNum + 1)`; with no existing parts, `maxNum` is -1, so the first chunk goes to `base-0` | `RedistributeSecrets` with `numbers = []` and one or more chunks | part 0 is the base record, as main.go:280-283 and the comment at secrets_manager.go:182 have it; otherwise a fetch by part numbers does not find part 0, and `GetMultipartNumbers` ignores `base-0` | medium, not executed | RoundTrip.SmFreshSecretUnreadable | RoundTrip.MainWriteThenMerge |
