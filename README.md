# Trash bin for Kubernetes resources, in Dafny

A model of the core of a Kubernetes operator that keeps deleted objects in
a trash bin, and of its kubectl plugin, with proofs about that model.

When a watched object (a Deployment, a Secret, a ConfigMap, ...) is
deleted, the operator serializes it, fills in its `kind` and `apiVersion`,
drops `metadata.managedFields`, and stores the YAML document in a
`TrashedResource` record. The record also carries a `keepUntil` deadline.
The plugin's `prune` command deletes records older than a duration, or
records with a given name. Its `restore` command re-creates the object a
record holds and then deletes the record.

The modules follow the program's files:

| module | file | form |
|---|---|---|
| `WatchedResources` (watched_resources.dfy) | internal/utils/watched_resources.go | functions: the kind registry, case-insensitive lookup, and the `kindsTobserve` tokenizer (Split, Join, Fields, TrimSpace) |
| `Dates` (dates.dfy) | internal/utils/dates.go | a `DateTime` datatype over integer nanoseconds, the Add helpers, the comparisons, and RFC 3339 rendering through an abstract `TimeFormat` |
| `Strconv` (strconv.dfy) | the `strconv.Atoi` the retention settings use | functions |
| `Manifest` (manifest.dfy) | makeBodyManifest in internal/domain/trashedresources/interactions.go | a value tree for decoded JSON and YAML; methods that edit the object map step by step, proved against `SanitizeTree` |
| `Records` (records.dfy) | the TrashedResource store behind the interactor and the client | `class RecordStore` over a sequence of records with unique keys |
| `Interactions` (interactions.dfy) | getTimetoKeepFromConfigMap and CreateOrUpdatedManifest | methods proved against `Deadline` and `Records.AddedRecord` |
| `Controller` (controller.dfy) | internal/controller/trashedresources_controller.go | the event filter, the capture, and the `SetupWithManager` loop over the configured kinds |
| `Cli` (cli.dfy) | cmd/kubectl-trashedresources/main.go | prune flag handling, the prune loop and restore, as methods over `RecordStore` and a `LiveStore` class |

The API server is modelled as follows:

- Its stores are classes.
- Every request may be refused for reasons outside the program, such as RBAC, admission or the network. The store methods choose that outcome nondeterministically, and their contracts say what each outcome leaves behind. The server authorizes a request before it looks the key up, so the refusal is drawn first: a missing key may come back refused rather than NotFound, and a taken name refused rather than AlreadyExists.
- Each store keeps a ghost log of the requests it refused. A contract that allows a failure names the log entry that failure leaves, so a method that skips a store call cannot meet it.
- `GenerateName` gets a nondeterministic five-character suffix. A name that collides is `AlreadyExists`.

The following are parameters:

- The clock, as integer nanoseconds since the Unix epoch.
- `time.ParseDuration`, as a partial function from text to nanoseconds.
- The RFC 3339 formatter and parser, as a `TimeFormat` that `IsRfc3339` requires to round-trip to the second for instants in years 0000 to 9999.
- The JSON and YAML codecs, as the partial functions of `Manifest.Codecs`.

Behaviour of the code that a reader may not expect:

- Records created by the controller are kept for a fixed 24 hours. Only the domain path reads `minutesToKeep` and `hoursToKeep`, with defaults of 60 minutes and 0 hours.
- A configuration that is read but has no `kindsTobserve` key gives the empty value, so no kind is watched. Only a failed read falls back to `Deployment;Secret;ConfigMap`. The configuration is read from namespace `system`.
- Negative retention settings are accepted and move the deadline before now.
- Restore reports an error when the record cannot be deleted, even though the object has been re-created.
- The controller keeps its own copies of the kind registry and of the manifest sanitizer, with the same contents and steps as the utils and domain versions. The model has one definition of each.
- internal/domain/trashedresources/interactions.go:58 calls `utils.GetKnownKindsToWatch`. That function is not part of this model; it is read as `GetKindsToWatch`, which returns the same table.

## Model

| member | source | states |
|---|---|---|
| WatchedResources.RegistryShape | internal/utils/watched_resources.go:19-33 | GetKindsToWatch returns the registry: exactly nine keys, all lower case, every entry at version v1 |
| WatchedResources.RegistryGroups | internal/utils/watched_resources.go:19-29 | deployment, statefulset and daemonset map to apps; job and cronjob to batch; ingress to networking.k8s.io; secret, configmap and service to the core group |
| WatchedResources.Resolve | internal/controller/trashedresources_controller.go:196-202 | a kind resolves exactly when its lower-cased form is a registry key, and then to that key's entry, whose version is not empty |
| WatchedResources.ResolveIgnoresCase | internal/controller/trashedresources_controller.go:197 | any spelling of a kind that lower-cases to a registry key resolves to that key's entry, at version v1 |
| WatchedResources.DefaultKindsResolve | internal/utils/watched_resources.go:42 | Deployment, Secret and ConfigMap resolve to apps/v1, v1 and v1 |
| WatchedResources.KindsToObserve | internal/utils/watched_resources.go:41-46 | a failed read gives "Deployment;Secret;ConfigMap"; a read without the kindsTobserve key gives "" |
| WatchedResources.Split | internal/utils/watched_resources.go:46 | strings.Split gives at least one part and no part holds the separator |
| WatchedResources.SplitThenJoin | internal/utils/watched_resources.go:46 | joining the parts of a split with the same separator gives the input back |
| WatchedResources.JoinThenSplit | internal/utils/watched_resources.go:46 | splitting a join gives the parts back when no part holds the separator |
| WatchedResources.JoinSplitReplaces | internal/utils/watched_resources.go:46-47 | split on ';' then joined with ' ' is the value with every ';' replaced by a space |
| WatchedResources.FieldsConcat | internal/utils/watched_resources.go:47 | the tokens of strings.Fields, concatenated in order, are the input without its white space |
| WatchedResources.FieldsTokens | internal/utils/watched_resources.go:47 | every token of strings.Fields is non-empty, has no white space, and is made of the input's characters |
| WatchedResources.FieldsOfJoin | internal/utils/watched_resources.go:47 | strings.Fields of space-joined tokens that hold no white space gives the tokens back |
| WatchedResources.KindsFromValueTokens | internal/utils/watched_resources.go:46-47 | every kind is a non-empty token free of ';' and white space; the kinds, in order, spell the value without separators; the list is empty exactly when the value holds only ';' and white space |
| WatchedResources.KindsOfJoinedList | internal/utils/watched_resources.go:46-47 | tokenizing a ';'-joined list of clean names gives the list back |
| WatchedResources.DefaultKinds | internal/utils/watched_resources.go:41-47 | a failed configuration read gives exactly ["Deployment", "Secret", "ConfigMap"] |
| WatchedResources.MissingKeyWatchesNothing | internal/utils/watched_resources.go:46 | a configuration read without the kindsTobserve key gives no kinds |
| WatchedResources.TrimSpaceOfToken | internal/controller/trashedresources_controller.go:191 | TrimSpace leaves a token without white space unchanged |
| Dates.WrapInt64 | internal/utils/dates.go:27 | the two's-complement int64 wrap-around of time.Duration products lands in the int64 range, differs from the exact product by a multiple of 2^64, and is the identity within the range |
| Dates.SaturateInt64 | internal/utils/dates.go:16 | time.Sub's result is in the int64 range, exact within it, and the nearer bound outside it |
| Dates.NowIsClock | internal/utils/dates.go:20-23 | Now is the clock reading: AddSeconds(0) adds nothing |
| Dates.AddUnitsAgree | internal/utils/dates.go:26-38 | AddHours(n) is AddSeconds(3600 n), AddMinutes(n) is AddSeconds(60 n), and AddSeconds(n) moves the instant by n seconds |
| Dates.AddMinutesHoursCommute | internal/utils/dates.go:26-33 | minutes then hours equals hours then minutes, which is t + 60 m s + 3600 h s |
| Dates.AddIsMonotone | internal/utils/dates.go:26-38 | a larger argument to AddHours, AddMinutes or AddSeconds never gives an earlier instant |
| Dates.AddHoursAsWrittenInRange | internal/utils/dates.go:26-28 | where hours times one hour fits in int64, Go's AddHours agrees with the unbounded one |
| Dates.AddHoursAsWrittenOverflows | internal/utils/dates.go:27 | Go's AddHours of 2562048 hours gives an instant before AddHours(0) |
| Dates.NowIsAfterOrEqualCompareDate | internal/utils/dates.go:40-43 | a date that does not parse compares as Go's zero time |
| Dates.TimeRemainingAgreesWithCompare | internal/utils/dates.go:14-17 | the time remaining, saturated to int64, is at most zero exactly when now is not before the date |
| Dates.CompareRenderedDate | internal/utils/dates.go:14-17 | a date of years 0000 to 9999 rendered by ToString compares as its instant truncated to the second, and its remaining time is that instant minus now, saturated to int64 |
| Dates.TruncateToSecondBounds | internal/utils/dates.go:7 | RFC 3339 text without a fraction loses less than a second and never moves an instant later |
| Strconv.Atoi | internal/domain/trashedresources/interactions.go:95 | a text parses exactly when it is an optional sign followed by one or more decimal digits whose signed value fits in int64, and the result is that value |
| Strconv.AtoiOfItoa | internal/domain/trashedresources/interactions.go:94-109 | every int64 written in decimal is read back as itself |
| Strconv.AtoiPlusSign | internal/domain/trashedresources/interactions.go:95 | a leading '+' is accepted and changes nothing |
| Manifest.FormatApiVersion | internal/domain/trashedresources/interactions.go:51-57 | the apiVersion is empty exactly when there is no version |
| Manifest.SlashIndex | internal/controller/trashedresources_controller.go:83 | the index found is the first '/' of the text, or its length when it has none; line 83 is where Go applies this parse to an object's apiVersion, and the model applies it to the restored object's apiVersion for the Create at cmd/kubectl-trashedresources/main.go:169-172 (Cli.ObjectKeyOf) |
| Manifest.ParseGroupVersion | internal/controller/trashedresources_controller.go:83 | reading an apiVersion back gives a group and version without '/': empty, the whole text as a core-group version, or the text split at its one '/'; line 83 is where Go applies this parse, and the model uses it for the group of the restored object in the Create at cmd/kubectl-trashedresources/main.go:169-172 (Cli.ObjectKeyOf) |
| Manifest.FormatApiVersionParsesBack | internal/domain/trashedresources/interactions.go:51-57 | a group and a non-empty version without '/' format to an apiVersion that reads back as that group and version |
| Manifest.ApiVersionOf | internal/domain/trashedresources/interactions.go:48-67 | the step-by-step apiVersion computation equals ResolveApiVersion |
| Manifest.ResolveApiVersionCases | internal/domain/trashedresources/interactions.go:50-67 | the object's own group/version wins; without a version a registered kind gets the registry's group at v1; otherwise the apiVersion is "" |
| Manifest.RegisteredKindHasApiVersion | internal/domain/trashedresources/interactions.go:58-67 | an object with a version or of a registered kind always gets a non-empty apiVersion |
| Manifest.SanitizeObjectMap | internal/domain/trashedresources/interactions.go:68-78 | the in-place edits of the object map give SanitizeTree |
| Manifest.SanitizeTreeKeys | internal/domain/trashedresources/interactions.go:68-78 | existing kind and apiVersion are never overwritten; each is added only when absent and non-empty; an object metadata loses managedFields and nothing else; every other key keeps its value |
| Manifest.SanitizedHasNoManagedFields | internal/domain/trashedresources/interactions.go:76-78 | no managedFields remain under an object metadata |
| Manifest.SanitizeIdempotent | internal/domain/trashedresources/interactions.go:68-78 | sanitizing a sanitized tree changes nothing |
| Manifest.MakeBodyManifest | internal/domain/trashedresources/interactions.go:36-87 | a JSON marshal or unmarshal error gives no manifest; otherwise the manifest is the YAML encoding of the sanitized tree |
| Records.Find | internal/domain/trashedresources/interactions.go:151-158 | a record is found exactly when its key is stored, and the found record has that key |
| Records.ListFilter | internal/domain/trashedresources/interactions.go:162-173 | a listing holds exactly the stored records in the namespace ("" for all) with the name ("" for any) |
| Records.Without | cmd/kubectl-trashedresources/main.go:221 | removing keys keeps only stored records, none with a removed key |
| Records.RecordStore.Get | internal/domain/trashedresources/interactions.go:151-158 | a success is the stored record with that key; NotFound only when the key is missing, and a missing key always fails; any other failure is a refusal, logged |
| Records.RecordStore.List | internal/domain/trashedresources/interactions.go:162-173 | a success returns ListFilter of the store; a failure is a refusal, logged |
| Records.RecordStore.Create | internal/domain/trashedresources/interactions.go:176-178 | on success one record is appended whose name is the prefix plus a server suffix, whose key was free, and which holds the namespace, data and deadline; AlreadyExists only when the generated name is taken, by a stored record in the namespace whose name the prefix can generate, and a taken name always fails; any other failure is a logged refusal; on failure the store is unchanged |
| Records.RecordStore.Delete | internal/domain/trashedresources/interactions.go:186-194 | on success exactly the key's record is gone; NotFound only when the key is missing, and a missing key always fails; any other failure is a logged refusal that leaves the store unchanged |
| Records.DeleteKeysAppend | cmd/kubectl-trashedresources/main.go:215-227 | a logged request adds its key to the refused delete keys exactly when it is a delete |
| Records.WithoutKeepsUnique | internal/domain/trashedresources/interactions.go:186-194 | deleting keeps keys unique |
| Records.KeysOfWithout | internal/domain/trashedresources/interactions.go:186-194 | removing keys removes exactly those keys from the store's key set |
| Records.WithoutWithout | cmd/kubectl-trashedresources/main.go:215-227 | removing one set of keys after another is removing both at once |
| Records.WithoutNothing | cmd/kubectl-trashedresources/main.go:215-227 | removing no key changes nothing |
| Records.ListWithoutOptionsIsAll | cmd/kubectl-trashedresources/main.go:190-199 | with no namespace and no name a listing returns every record |
| Records.ListFilterKeepsUnique | cmd/kubectl-trashedresources/main.go:199 | a listing has unique keys |
| Interactions.ConfigData | internal/utils/common_interactions.go:14-16 | a failed configuration read leaves neither retention key, so both defaults apply |
| Interactions.GetTimeToKeepFromConfigMap | internal/domain/trashedresources/interactions.go:89-111 | the returned text is the RFC 3339 rendering of now plus the configured minutes, then hours |
| Interactions.DefaultDeadline | internal/domain/trashedresources/interactions.go:90-91 | with neither key present the deadline is now plus 60 minutes |
| Interactions.UnreadableConfigDeadline | internal/domain/trashedresources/interactions.go:89-111 | with an unreadable configuration the deadline is now plus 60 minutes |
| Interactions.InvalidSettingIgnored | internal/domain/trashedresources/interactions.go:94-109 | a key whose value Atoi rejects behaves as if absent and leaves the other setting alone |
| Interactions.DeadlineOfWrittenSettings | internal/domain/trashedresources/interactions.go:110 | decimal settings m and h give now + m minutes + h hours |
| Interactions.DeadlineMonotone | internal/domain/trashedresources/interactions.go:110 | larger parsed settings never give an earlier deadline |
| Interactions.NegativeSettingAccepted | internal/domain/trashedresources/interactions.go:94-99 | minutesToKeep "-30" moves the deadline 30 minutes before now |
| Interactions.CreateOrUpdatedManifest | internal/domain/trashedresources/interactions.go:112-143 | a non-create action returns true and creates nothing; no manifest or a failed Create returns false with the store unchanged; a create with a manifest fails only after a logged refusal or when a stored name could collide; true after create means one record named "trashed-action-kind-name-" plus a suffix, in the object's namespace, with the manifest and the configured deadline |
| Interactions.ConfigMapCapture | internal/domain/trashedresources/interactions.go:58-78 | a ConfigMap without kind and apiVersion is stored with kind ConfigMap, apiVersion v1 and metadata without managedFields |
| Controller.CreateUpdatedOrDeletedManifest | internal/controller/trashedresources_controller.go:70-143 | a serialization error creates nothing; otherwise the store gains one record named "trashed-kind-name-" plus a suffix, with the sanitized manifest and a deadline 24 hours after now, or is unchanged after a logged refusal or a possible name collision |
| Controller.DeleteFunc | internal/controller/trashedresources_controller.go:179-185 | passes exactly when the object reports a kind; an object without one creates no record; a passing object with a manifest is captured as in CreateUpdatedOrDeletedManifest |
| Controller.EventFilter | internal/controller/trashedresources_controller.go:177-186 | updates never pass; deletions pass exactly when a kind is reported; only deletions can create a record, and a passing deletion with a manifest is captured |
| Controller.FilterCases | internal/controller/trashedresources_controller.go:177-186 | update events are dropped, deletions pass when a kind is reported, creations and generic events pass |
| Controller.WatchOf | internal/controller/trashedresources_controller.go:191-208 | a watch is of a non-empty registered kind with the registry's group and version |
| Controller.AddWatches | internal/controller/trashedresources_controller.go:190-213 | the loop adds exactly WatchedGVKs of the tokens, in order |
| Controller.SetupWithManager | internal/controller/trashedresources_controller.go:161-216 | the watches are those of the configured kinds followed by the record kind |
| Controller.WatchedGVKsAppend | internal/controller/trashedresources_controller.go:190-213 | the watches of two token lists are the watches of each, in order |
| Controller.WatchedGVKsMembers | internal/controller/trashedresources_controller.go:190-213 | a kind is watched exactly when some token asks for it |
| Controller.WatchedGVKsRegistered | internal/controller/trashedresources_controller.go:196-208 | there are no more watches than tokens, and each is of a registered kind with the registry's group at v1 |
| Controller.UnknownKindIgnored | internal/controller/trashedresources_controller.go:197-202 | a token naming an unregistered kind adds no watch |
| Controller.WatchOfRegisteredToken | internal/controller/trashedresources_controller.go:204-208 | a registered token is watched with the registry's group and version and the kind as written |
| Controller.DefaultKindsWatches | internal/controller/trashedresources_controller.go:190-213 | the default kinds give apps/v1 Deployment, v1 Secret and v1 ConfigMap, in that order |
| Controller.DefaultWatches | internal/controller/trashedresources_controller.go:167-173 | an unreadable configuration gives the three default watches followed by the record kind |
| Controller.MissingKeyWatchesOnlyRecords | internal/controller/trashedresources_controller.go:172 | a configuration without kindsTobserve gives only the watch on the record kind |
| Controller.KeepUntilIsADayLater | internal/controller/trashedresources_controller.go:133 | the controller's deadline is 24 hours after the clock, to the second |
| Cli.ParsePruneFlags | cmd/kubectl-trashedresources/main.go:78-104 | the flag handling, step by step, equals PruneWindowOf |
| Cli.PruneWindowCases | cmd/kubectl-trashedresources/main.go:78-104 | the only errors are a missing selector and an invalid duration; a missing selector exactly when both flags are empty; a duration is in force exactly when --older-than is given; without it the window is zero |
| Cli.MissingSelectorRejected | cmd/kubectl-trashedresources/main.go:78-80 | with neither flag the command fails before any store call |
| Cli.NameOnlyIgnoresAge | cmd/kubectl-trashedresources/main.go:81-85 | a name alone selects with a zero window and ignores age |
| Cli.DaySuffix | cmd/kubectl-trashedresources/main.go:92-96 | "Nd" that ParseDuration rejects is N hours times 24 |
| Cli.InvalidDurationRejected | cmd/kubectl-trashedresources/main.go:101-103 | a duration that does not parse and has no 'd' suffix is an error |
| Cli.PruneResources | cmd/kubectl-trashedresources/main.go:185-231 | a failed listing deletes nothing and is a logged refusal; otherwise the listing is ListFilter of the store, the eligible listed keys are exactly the deleted keys plus the keys of logged refused deletes, exactly the deleted keys are gone, and the count is the number of successful deletes, at most the number listed |
| Cli.PruneListed | cmd/kubectl-trashedresources/main.go:215-231 | over a listing of the store, the eligible keys are exactly the deleted keys plus the keys of logged refused deletes, exactly the deleted keys are gone, and the count is the number of successful deletes |
| Cli.DeleteEligible | cmd/kubectl-trashedresources/main.go:215-227 | the loop deletes only eligible keys, exactly those keys are gone, the count equals them, and every eligible stored key is deleted or its delete is a logged refusal |
| Cli.PruneTurn | cmd/kubectl-trashedresources/main.go:215-227 | one turn of the loop deletes the record, logs its refused delete, or needs neither, and keeps every eligible stored key seen so far deleted or refused |
| Cli.DeleteIfEligible | cmd/kubectl-trashedresources/main.go:217-225 | an ineligible record or a failed delete leaves the store as it was; a success removes one new key; an eligible stored record that stays was refused, and the refusal is logged |
| Cli.AccountStep | cmd/kubectl-trashedresources/main.go:215-227 | one more listed record keeps every eligible stored key deleted or refused |
| Cli.PrunedByLoop | cmd/kubectl-trashedresources/main.go:185-231 | the loop's bookkeeping over a listing of the store is a complete prune |
| Cli.ListedAreStored | cmd/kubectl-trashedresources/main.go:199-217 | every eligible listed key is a stored key |
| Cli.PruneCommand | cmd/kubectl-trashedresources/main.go:77-117 | a flag error leaves the store and the refusal log unchanged; otherwise the prune runs in the kubeconfig namespace ("" when it cannot be determined) with the selected window |
| Cli.PruneSelected | cmd/kubectl-trashedresources/main.go:106-117 | a flag error is reported before the store is touched; a window prunes |
| Cli.EligibleKeysBound | cmd/kubectl-trashedresources/main.go:215-227 | no more records are selected than listed, and only listed ones |
| Cli.EligibleKeysMembers | cmd/kubectl-trashedresources/main.go:217 | a key is selected exactly when a listed record with that key is eligible |
| Cli.IgnoreAgeSelectsAll | cmd/kubectl-trashedresources/main.go:194 | without a duration every listed record is selected |
| Cli.AgeIsStrict | cmd/kubectl-trashedresources/main.go:203-217 | a record created exactly at the cutoff is kept; with a zero window only records created before now go |
| Cli.LiveStore.Create | cmd/kubectl-trashedresources/main.go:169-175 | AlreadyExists only for an existing group, kind, namespace and name, and an existing one always fails; any other failure is a logged refusal; on success exactly that object is added; on failure nothing changes |
| Cli.RestoreResource | cmd/kubectl-trashedresources/main.go:142-183 | a missing record is NotFound or a logged refused fetch, and NotFound means the record is missing; a stored record that does not decode is DecodeFailed unless the fetch was refused; a fetch, decode or create error changes neither store; for a decodable record the object is reported as existing only when it is live, a live object is reported as existing or a logged refusal, and a non-live object is restored unless a refusal is logged; success re-creates the decoded object without uid and resourceVersion and deletes the record; a failed record delete is an error with the object already created |
| Cli.ClearIdentityEffect | cmd/kubectl-trashedresources/main.go:161-162 | uid and resourceVersion are removed from an object metadata, nothing else changes, and the object keeps its key |
| Cli.ClearIdentityIdempotent | cmd/kubectl-trashedresources/main.go:161-162 | clearing twice is clearing once |
| Cli.RestoredRecordIsGone | cmd/kubectl-trashedresources/main.go:178-181 | after a successful restore the record is gone, so a second restore cannot find it |

## Left out

- Logging, printing and `os.Exit`: side effects only.
- The cobra wiring, `getClient`, the scheme registration and the kubeconfig loader: CLI plumbing. A namespace the loader cannot determine is the parameter `None`, and means all namespaces.
- The controller-runtime builder, `Reconcile` and `Complete`: framework registration. The model keeps the event filter and the list of watches.
- Concurrency: the model is sequential. Events are handled one at a time, and prune and restore do not run alongside capture.
- Reading the configuration object: it is an `Option<map<string, string>>`. `None` is a failed read, whose data is replaced by the default kinds entry alone.
- time.Now, time.ParseDuration, and the RFC 3339 `Format` and `Parse`: parameters. The text layout of RFC 3339 (section 5.6 of RFC 3339) is not modelled; only its round trip to the second is assumed, through `IsRfc3339`.
- JSON and YAML encoding and decoding: possibly-failing functions over a value tree. Numbers in the tree are integers.
- The GenerateName suffix: a nondeterministic five-character string chosen by the server. The server truncates a prefix longer than 58 characters before adding it; the model keeps the whole prefix, so for long object names the record names promised by Records.RecordStore.Create, Interactions.CreateOrUpdatedManifest and Controller.Captured are longer than the real ones.
- The `Update` method of the interactor: nothing in the core calls it.
- `strings.ToLower`: only ASCII letters are folded, because Unicode case mapping is not modelled. A kind with non-ASCII capitals could resolve in Go and not in the model, but every registry key is ASCII.
- Cli.RestoreResource: `SetGeneration`, `SetCreationTimestamp`, `SetOwnerReferences` and `SetManagedFields` are called with the values they read back, and are taken to change nothing. How the unstructured library normalizes zero values is not modelled.
- Records.RecordStore.Get, Records.RecordStore.Delete, Records.RecordStore.Create, Cli.LiveStore.Create and Cli.RestoreResource: a missing key is not promised to be NotFound, nor a taken key AlreadyExists, because the server may refuse the request first; the refusal is then logged.
- Cli.ObjectKeyOf: the group and kind stand for the resource AlreadyExists is keyed by. The REST mapping from kind to resource is not modelled.
- Cli.PruneResources: the cutoff `time.Now().Add(-olderThan)` is unbounded `clock - olderThan`. The int64 wrap of negating the minimum Duration is not modelled.
- Dates.DateTime.AddMinutes: unbounded, like `AddHours`. The same int64 wrap as in the finding below applies to minutes beyond about 153 million.
- Cli.PruneWindowOf: has no postcondition of its own. Its properties are the lemmas `PruneWindowCases`, `MissingSelectorRejected`, `NameOnlyIgnoresAge`, `DaySuffix` and `InvalidDurationRejected`. The "Nd" form multiplies with int64 wrap-around, as written, so more than about 106751 days wraps.
- Interactions.GetTimeToKeepFromConfigMap: computes the deadline with the unbounded Add functions. The int64 wrap of the finding below is not carried into it.

## Findings

| source | as written | input that shows it | evidently intended | confidence | as-written member | corrected member |
|---|---|---|---|---|---|---|
| internal/utils/dates.go:27 | `time.Duration(hours) * time.Hour` is a signed 64-bit product, so a large hour count wraps around and the instant moves backwards | hours = 2562048 (an `hoursToKeep` of "2562048"): the product wraps to about -292 years, before AddHours(0) | adding more hours never gives an earlier instant | not executed | Dates.DateTime.AddHoursAsWritten, with Dates.AddHoursAsWrittenOverflows | Dates.DateTime.AddHours, with Dates.AddIsMonotone |
