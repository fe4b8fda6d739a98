# AppConfiguration-Sync core, modelled in Dafny

This project models the core of the Azure App Configuration sync action. The action is a GitHub action. It takes a flattened configuration object and reconciles an App Configuration store with it.

- `syncConfig` builds one entry per configuration property. Each entry takes the run's prefix, label, tags and content type.
- In strict mode it also lists the store entries within the run's scope. The scope is the keys behind the prefix that carry the run's label, or no label when none is given. It deletes every listed entry whose key the configuration does not have.
- It then issues every delete and every write, in that order. Each failure is caught and formatted as a message, and the loop goes on.
- At the end it classifies the run as synced, failed or partially succeeded.
- Two failure-message formatters are modelled: the current one (src/errors.ts) and the older one (src/util.ts).
- The input validators of src/input.ts are modelled too: format, connection string, separator, strict, depth and tags.

Modules, one per concern:

- `Wrappers`: `Option` and `Result`.
- `Strings`: the JavaScript string operations the code relies on. These are `startsWith`, `split` on a one-character separator, `join`, and `filter(e => e)` over optional parts. They also include `String(n)` for integers and `parseInt` with no radix (white space skipping, a sign, decimal digits, or hexadecimal after `0x`).
- `JsValues`: JavaScript values with truthiness.
- `Errors`: src/errors.ts.
- `UtilErrors`: src/util.ts.
- `Input`: src/input.ts.
- `ConfigStore`: src/configstore.ts.
- `StoreModel`: a store modelled as a map from (key, label) to value. It is used to state what strict mode achieves.
- `Scenarios`: test cases from the repository's suites, stated against the model.

The store is a pair of function parameters:

- `list` answers a listing filter with the entries it returns, already drained from the paged iterator, or with the error that draining it threw.
- `client` answers each delete or write request with success (`None`) or the error it threw.

Other collaborators are parameters too. `JSON.stringify` and `JSON.parse` are function parameters. The status-phrase table of the `statuses` package is a `map` parameter. `Errors.Rfc9110Phrases` holds its entries from section 15 of RFC 9110.

## Model

| member | source | states |
|---|---|---|
| ConfigStore.SyncConfig | src/configstore.ts:21-65 | The run fails with `ArgumentError("Provide auth method")` exactly when neither auth method is usable. In strict mode a listing that throws ends the run with that error before any request is sent; these are the only ways it fails. A run that proceeds uses the chosen auth method and writes exactly the desired entries. Only in strict mode does it list the store, once, with the scope's filter. Without strict mode nothing is deleted. It deletes exactly the listed entries whose key is not desired. Each failure list is what the store's answers produce, no longer than its requests. The run is synced, and nothing is reported, exactly when no message was logged; `ConfigStore.FailureSummary` models the final `core.setFailed` text. |
| ConfigStore.ChooseAuth | src/configstore.ts:28-38 | A service principal is used when asked for and an endpoint is truthy. Otherwise a truthy connection string is used. Otherwise the result is the `ArgumentError`, exactly when both are unusable. |
| ConfigStore.SettingsToAdd | src/configstore.ts:67-81 | There is one entry per property, in property order. Each key is the property name behind the prefix when the prefix is truthy. Each value is that of `getSettingValue`. Label and content type are kept only when truthy, and tags only when truthy. No entry carries an empty label. |
| ConfigStore.DesiredKeysDistinct | src/configstore.ts:67-81 | Distinct property names give distinct store keys. |
| ConfigStore.SettingValueKinds | src/configstore.ts:83-91 | Stated over `ConfigStore.SettingValue`, the model of `getSettingValue`. A string is stored as is, and arrays and objects as their JSON text. `null` and `undefined` become "". Booleans and numbers never become "". |
| ConfigStore.BoolValueReadsBack | src/configstore.ts:83-91 | The text stored for a boolean reads back as that boolean through the `strict` validator. |
| ConfigStore.NumberValueReadsBack | src/configstore.ts:83-91 | The text stored for an integer reads back as that integer through `parseInt`. |
| ConfigStore.FilterSelectsScope | src/configstore.ts:97-100 | Stated over `ConfigStore.BuildFilter`, the model of the filter construction. Read as the store reads a filter, the listing filter selects an entry exactly when its key starts with the prefix and its label is the run's label (no label when none is given). Under the run label "\0" it selects the entries without a label instead. |
| ConfigStore.DesiredInScope | src/configstore.ts:93-109 | The entries the run writes lie inside the scope it lists exactly when the run label is not "\0". Under "\0" none of them does. |
| ConfigStore.SettingsToDelete | src/configstore.ts:93-109 | The deletion set is never longer than the listing. |
| ConfigStore.DeletionMembership | src/configstore.ts:102-106 | An entry is deleted exactly when it was listed and its key is not among the desired keys. |
| ConfigStore.DeletionsAppend | src/configstore.ts:102-106 | Selection commutes with concatenation, so the deletion set keeps the listing's order and each entry's multiplicity. |
| ConfigStore.DeletionsNone | src/configstore.ts:102-106 | When every listed key is desired, nothing is deleted. |
| ConfigStore.DeletionsInScope | src/configstore.ts:97-106 | If the listing honours the filter, so does the deletion set. |
| ConfigStore.FailedRequests | src/configstore.ts:111-139 | A run reports at most one failure per request. |
| ConfigStore.Failures | src/configstore.ts:126-139 | One message per rejected request, in issue order. Each message opens with the description naming that request's key and label. No message is logged exactly when every request was accepted. |
| ConfigStore.FailuresOfOne | src/configstore.ts:114-121 | A request that succeeds logs nothing. A request that fails logs exactly its formatted message. |
| ConfigStore.FailedRequestsSound | src/configstore.ts:129-136 | Every reported failure is a request of the run, paired with the error the store answered it with. |
| ConfigStore.FailuresCount | src/configstore.ts:111-124 | No failure is reported exactly when every request succeeded. One failure per request is reported exactly when every request failed. |
| ConfigStore.FailedRequestsAppend | src/configstore.ts:44-45 | The failures of a run of requests are those of its first part followed by those of the rest. What happens to later requests does not depend on earlier failures. |
| ConfigStore.FailuresAppend | src/configstore.ts:44-45 | The messages of a run of requests are those of its first part followed by those of the rest. |
| ConfigStore.FailureMessageDescribes | src/configstore.ts:119-143 | Stated over `ConfigStore.FailureMessage` and `ConfigStore.Describe`, the models of the catch-block message and `getLabel`. A failure message opens with "Failed to delete/add key '<key>' with label '<label or empty>'.". |
| ConfigStore.FailureMessagesDescribe | src/configstore.ts:119-134 | Each logged message starts with the description of a request of the run that failed. |
| ConfigStore.OutcomeMeaning | src/configstore.ts:47-52 | Stated over `ConfigStore.Classify`, the model of the outcome test. Synced exactly when no request failed. "Failed" exactly when there was a request and every one failed. "Partially succeeded" exactly when at least one failed and at least one succeeded. |
| ConfigStore.DeletesBeforeAdds | src/configstore.ts:44-63 | Every delete is issued before every write. The error log is the failures of the whole request sequence, in issue order. |
| ConfigStore.RunOutcome | src/configstore.ts:47-55 | A run's outcome, stated over the store's answers to all its requests. |
| StoreModel.Step | src/configstore.ts:117-132 | An accepted delete removes exactly the target's (key, label) entry. An accepted write adds or replaces exactly its entry, with the written value. A rejected request changes nothing. No entry other than the target changes its value. |
| StoreModel.ApplySetsValues | src/configstore.ts:114-121 | After accepted writes of distinct entries, each written entry holds its value, and every other entry keeps the value it had. |
| StoreModel.ScopeAfterRun | src/configstore.ts:42-45 | Take an honest listing, delete the unwanted listed entries and write the wanted ones, with every request accepted. If the wanted entries lie in scope and the scope fixes the label, the filter afterwards selects exactly the written entries. |
| StoreModel.StrictRunReconciles | src/configstore.ts:10-21 | Strict mode makes the store match the configuration within the prefix and label. After a run whose requests are all accepted, every desired entry holds its configured value, and the scope holds exactly the desired entries. Under the run label "\0", and in a store that files a write under its literal label, the scope holds none of them. |
| StoreModel.ScopeKeysWanted | src/configstore.ts:93-109 | After an honest listing and an accepted run, every entry the filter selects has a desired key, whatever the label. |
| StoreModel.NulLabelDeletesUnlabelled | src/configstore.ts:97-106 | Under the run label "\0", a strict run deletes every unlabelled entry under the prefix whose key it does not write, while the entries it writes are labelled "\0". |
| StoreModel.SecondRunDeletesNothing | src/configstore.ts:93-109 | A second strict run with the same inputs, listing the store after the first, deletes nothing. |
| Errors.GetErrorMessage | src/errors.ts:23-44 | The result is never empty and a truthy description always leads. A plain `Error`, or a `RestError` without a truthy status, adds nothing and falls back to "An unknown error occurred.". The custom errors add their message after one space. A status adds "Status code: <s>" and the reason phrase when one is known. |
| Errors.StatusCodePrecedence | src/errors.ts:31-32 | A truthy `statusCode` wins over `code`. A zero `statusCode` falls through to `code`. |
| UtilErrors.GetErrorMessage | src/util.ts:12-25 | The description, or else the error's own message, leads. Only a `RestError` with a truthy status adds a suffix. The result is empty exactly when there is nothing to say. |
| UtilErrors.FormattersCompared | src/util.ts:12-25 | With a description the two formatters agree on plain and REST errors. Without one, src/errors.ts gives the fallback text where src/util.ts gives the error's own message. |
| Input.GetFormat | src/input.ts:63-75 | Accepted exactly for "json", "yaml" and "properties", as the named format. Anything else gives the "Format '<f>' is invalid." message. |
| Input.FormatRoundTrip | src/input.ts:63-75 | Every format is accepted under its own name. |
| Input.GetConnectionString | src/input.ts:77-106 | Accepted, unchanged, exactly when it splits on ';' into three segments that include ones starting with "Endpoint=", "Id=" and "Secret=". Otherwise "Connection string is invalid.". |
| Input.ScanFindsSegments | src/input.ts:88-96 | Stated over `Input.ScanSegments`, the model of the loop. The segment loop sets each flag exactly when some segment starts with its key. |
| Input.KeysExclusive | src/input.ts:89-95 | No segment starts with two of the keys, so the `else if` chain loses nothing. |
| Input.AcceptedSegmentsAreKnown | src/input.ts:83-99 | In an accepted connection string every segment is one of the three known ones. |
| Input.SegmentOrderIrrelevant | src/input.ts:80-99 | Reordering the segments does not change acceptance. |
| Input.GetSeparator | src/input.ts:108-117 | Accepted, unchanged, exactly when in the whitelist. Otherwise the message starts "Separator '<s>' is invalid.". |
| Input.GetStrict | src/input.ts:119-128 | true exactly for "true", false exactly for "false", and the "Strict '<s>' is invalid." message otherwise. |
| Input.StrictRoundTrip | src/input.ts:119-128 | `String(b)` reads back as `b`, and no other text does. |
| Input.GetDepth | src/input.ts:130-142 | No depth exactly when the input is absent or empty. Otherwise it is accepted exactly when `parseInt` gives a number of at least 1, and that number is the depth. The error carries the raw text. |
| Input.DepthOfNumber | src/input.ts:130-142 | The decimal text of an integer is accepted as that depth exactly when the integer is positive. |
| Input.DepthRejectsNonNumeric | src/input.ts:136-139 | Text without a decimal digit is rejected (NaN). |
| Input.NonStringKeys | src/input.ts:152-161 | Applied by `Input.GetTags` to `Input.OwnEntries`, the model of `Object.keys` with its values, which fails for `null` and `undefined`. No key is flagged exactly when every property value is a string. |
| Input.GetTags | src/input.ts:144-168 | No tags when the input is absent or empty. A JSON syntax error propagates. `null` fails as `Object.keys` does. An object or an array is accepted exactly when every property value (item) is a string. A string, boolean or number has no non-string properties and is accepted. A non-empty input that is accepted always yields the parsed value, unchanged, and never "no tags". Any other failure is "Tags are invalid. Tags should only contain string properties: <raw input>". |
| Input.ValidationMessageLostAsWritten | src/input.ts:119-128 | As written, a failed validation raises a plain `Error`, so the top-level report is always the unknown-error text. |
| Input.RaisedAsWritten | src/input.ts:119-128 | As written, a validation that does not throw hands its value on unchanged, and one that throws raises a plain `Error` carrying the validator's message. |
| Input.Raised | src/input.ts:119-128 | With the corrected class, a validation that does not throw still hands its value on unchanged. One that throws raises an `ArgumentError`, which is reported with the validator's own non-empty message. |
| Input.ValidationMessageReported | src/input.ts:119-128 | Raised as an `ArgumentError`, every validator's non-empty message is what the formatter reports. |
| Input.StrictTypoReport | src/input.ts:119-128 | A strict input of "True" is rejected. As written its message is lost. Corrected, it is reported. |
| Strings.JoinSplit | src/input.ts:80 | Joining the pieces of `split(';')` with ';' gives back the string. |
| Strings.SplitJoin | src/input.ts:80 | Splitting the join of separator-free pieces gives back the pieces. |
| Strings.CompactKeeps | src/errors.ts:39 | `filter(e => e)` keeps exactly the present, non-empty parts. |
| Strings.CompactAppend | src/errors.ts:39 | Filtering keeps order: the kept parts of a concatenation are those of each side, in turn. |
| Strings.ParseIntOfIntToString | src/input.ts:136 | `parseInt(String(i)) == i` for every integer. |
| Strings.ParseIntNeedsDigit | src/input.ts:136-137 | Without a decimal digit `parseInt` gives NaN. |
| Scenarios.TablePhrases | src/errors.ts:34 | The status table gives "Unauthorized" for 401 and "Conflict" for 409. |
| Scenarios.NumericStatusWithPhrase | tests/errors.test.ts:91-96 | A 401 `RestError` is reported as "Status code: 401 Unauthorized". |
| Scenarios.DescribedNumericStatus | tests/errors.test.ts:105-110 | With a description, a 401 is reported as "<description> Status code: 401 Unauthorized". |
| Scenarios.UnknownNumericStatus | tests/errors.test.ts:98-103 | A status the table does not know is reported without a phrase. |
| Scenarios.TextualStatus | tests/errors.test.ts:84-89 | A textual code stands in for a missing numeric status. |
| Scenarios.MessagesWithoutDescription | tests/errors.test.ts:14-61 | Without a description, a custom error shows its message, while a plain error or an empty message gives the fallback text. |
| Scenarios.UtilEmptyMessage | tests/util.test.ts:6-11 | The older formatter gives "" for a plain error without a message. |
| Scenarios.UtilNumericStatus | tests/util.test.ts:41-46 | The older formatter gives "<message> Status code: 401 Unauthorized". |
| Scenarios.StrictRunWithPrefix | tests/configstore.test.ts:175-191 | A strict run with a prefix lists with the filter `prefix*` and no label, deletes the stale entry and writes the prefixed key. |
| Scenarios.OneKeyStrictRun | tests/configstore.test.ts:82-98 | A strict run of one key against one stale entry deletes it, writes the key and classifies the run from the store's answers. |
| Scenarios.EveryCallFails | tests/configstore.test.ts:279-305 | When every call fails with 409, the delete's message and then the write's are logged, and the run "failed". |
| Scenarios.OnlyWritesFail | tests/configstore.test.ts:307-328 | When only the write fails, only its message is logged, and the run "partially succeeded". |
| Scenarios.ListingErrorAborts | src/configstore.ts:42-44 | A strict run whose listing throws fails with that error. Without strict mode the listing is never consulted and the run proceeds. |
| Scenarios.NonStrictRunListsNothing | tests/configstore.test.ts:19-30 | Without strict mode nothing is listed or deleted. A run whose writes succeed is synced. |

## Left out

- Client construction, credentials and the user-agent option (src/configstore.ts:22-34) are left out. Only the choice between the two auth methods and the missing-auth error are modelled.
- Asynchrony and paging are left out. The listing is an already drained sequence, or the error draining it threw; an error on a later page is the same error. Each request's answer is a function of the request.
- `core.info`, `core.error` and `core.setFailed` are not modelled as calls. What they would log is the run's `ErrorLog` and `FailureSummary`.
- The `statuses` package is a table parameter. `Errors.Rfc9110Phrases` lists the phrases of section 15 of RFC 9110. The package's own names can differ from these, for example for 413 and 422. The package itself is not part of this model.
- Numbers are integers. Floating-point values, their `String` forms and `parseInt` precision beyond 2^53 are not modelled.
- `JSON.stringify` and `JSON.parse` are function parameters, so their behaviour is not modelled.
- How the store interprets filters beyond a trailing `*` and the `\0` label (other wildcards, escaping, commas) is not modelled.
- `getInput`'s assembly of inputs, `core.getInput`'s trimming and its `required` check, and `getWorkspace` are left out. Each validator takes the raw text.
- src/configfile.ts and src/main.ts are not part of this model, except that main reports a thrown error through `getErrorMessage`. That use appears in the finding below.
- The per-key `core.error` lines of `getTags` are left out. `Input.NonStringKeys` gives the keys they would name.
- `logError` in src/util.ts prints an object dump and is left out.
- ConfigStore.SettingsToDelete: its own contract states only the length bound. Membership, order and the empty case are stated by `DeletionMembership`, `DeletionsAppend` and `DeletionsNone`.
- ConfigStore.FailedRequests: its own contract states only the length bound. Soundness and the all-or-nothing counts are stated by `FailedRequestsSound` and `FailuresCount`.
- Input.GetSeparator: the error's contract states its opening sentence, not the quoted list of allowed separators that follows.
- StoreModel.StrictRunReconciles: assumes an honest listing and a store that accepts every request. Concurrent writers and partial failure are outside its statement. It also assumes distinct property names, which every JavaScript object has.
- StoreModel.StrictRunReconciles: its ensures for the run label "\0" assumes that the store files a write labelled "\0" under that literal label, as `StoreModel.Step` does. How the service files such a write is not stated by the source.

## Notes on the source

- The tests and src/main.ts call `syncConfig(config, connectionString, strict, label, prefix, tags, contentType)`. The function is declared as `syncConfig(config, strict, authType, endpoint, connectionString, label, prefix, tags, contentType)` (src/configstore.ts:21). The model follows the declaration.
- No validator checks the `label` input, so a run label of "\0" is accepted. The requests then carry the label "\0", while the listing filter "\0" means "no label". A strict run therefore deletes the unlabelled entries under the prefix that it does not write; this follows from the filter alone. In the model's store, which files a write under its literal label, the run also never lists the entries it wrote. The source does not say how the service files a write labelled "\0", so that second consequence belongs to the store model. `ConfigStore.FilterSelectsScope`, `ConfigStore.DesiredInScope`, `StoreModel.StrictRunReconciles` and `StoreModel.NulLabelDeletesUnlabelled` state both cases.
- tests/input.test.ts expects `ArgumentError` from the validators, and a missing `strict` input to mean false. The code throws plain `Error`s and requires `strict`. The model follows the code. The first difference is the finding below.

## Findings

| source | as written | input that shows it | evidently intended | confidence | as-written member | corrected member |
|---|---|---|---|---|---|---|
| src/input.ts:126 | Every validator throws a plain `Error`. src/main.ts reports it through `getErrorMessage`, which gives the fixed text "An unknown error occurred." for a plain `Error` without a description. | strict input "True": the action fails with "An unknown error occurred." instead of "Strict 'True' is invalid. Allowed values are: true, false" | the validators throw `ArgumentError`, as tests/input.test.ts:66 expects, so the validation message is reported | medium; not executed | Input.ValidationMessageLostAsWritten | Input.ValidationMessageReported |
