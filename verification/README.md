# Verified model of the Vaultwarden ESO provider

The provider answers `POST /v1/resolve` for the External Secrets Operator: it authorizes a bearer
token, checks a selector against two policies, and looks the item up in a cached, decrypted
Bitwarden vault. A 404 makes the operator delete the Kubernetes secret. This project models the
decisions behind that answer and proves properties of them for all inputs and all interleavings.
`dafny verify dfyconfig.toml` checks everything.

How it is laid out:

- `Prelude.dfy` (`Prelude`, `Text`): results, and the text operations the sources use.
- `Errors.dfy`: the error types and their map to statuses.
- `EncryptedStrings.dfy` (`Base64`, `EncryptedStrings`): base64 of section 4 of RFC 4648 with
  canonical padding, and the `2.iv|data|mac` parser.
- `Ciphers.dfy`, `Lookup.dfy` (`Selectors`, `Lookup`): decryption as error propagation, the two
  ways of reading an item, selectors, and the lookup in one vault snapshot. The cipher primitives
  are arbitrary partial functions.
- `VaultCache.dfy`, `Refresh.dfy`, `RefreshProofs.dfy`, `RefreshTheorems.dfy`,
  `RefreshSequential.dfy`, `RefreshFailures.dfy`: the refresh protocol. `VaultCache.ApiClient` has the source's methods
  over its own fields, each tied to a function of the shared state; `Refresh` interleaves those
  same functions as the steps of any number of calls, with a monotone clock that ends, arbitrary
  fetch outcomes, and cancellation at every await; `RefreshSequential` shows that the method run
  alone is a run of that protocol. A log of attempts and a journal of returns exist only for the proofs.
- `PolicyFiles.dfy`, `SelectorPolicy.dfy` (`PolicyRules`, `Reloading`, `SelectorPolicy`): the
  policy-file grammar in Rust and in the Ruby checker, evaluation, the reload task and its gauges.
- `AuthPolicy.dfy` (`Bearer`, `AuthPolicy`): bearer headers (section 2.1 of RFC 6750), the policy
  builder, the scan and reload. The digest is an arbitrary function.
- `Admission.dfy`: the handler pipeline with permits, disconnects and reloads.
- `Deletion.dfy` (`AnswersExplained`, `Deletion`): the composition to "404 only when absent".
- `DepthTree.dfy`, `DepthTreeTheorems.dfy` (`TreeLines`, `DepthTree`, `DepthTreeTheorems`): the
  dependency-graph reconstruction and its inverse.
- `Lifecycle.dfy`: the shutdown broadcast.
- `Metrics.dfy`: labelled sample lines and a reader that inverts them.

Where a promise does not hold of the code as it is, the model keeps the code:

- `docs/decisions/0005-bounded-stale-cache.md` says that the retry interval bounds the login
  pressure during an outage. Two families of runs break that. A caller that leaves while its fetch
  is under way frees the mutex without starting the cooldown
  (`crates/bweso-bitwarden/src/api.rs:274-290`), so whatever the configuration any number of
  attempts can start at one instant (`DropsBreakTheRate`, `RateNeedsNoDrops`). And where `Instant::checked_add` overflows there is no cooldown at all
  (`OverflowBreaksTheRate`). `StartRateBound` bounds the attempts started in any window of any run
  by W / interval + 1 plus those that were dropped or succeeded, and `RateHoldsExactly` says that
  the promise holds of all outages without dropped fetches if and only if the clock can represent
  the window's end plus the interval.
- The coverage checker and the provider read some policy files differently: the checker splits a
  comment line at its commas first. `ParsersAgreeExactly` gives the exact condition,
  `CoveredButRefused` a family of files on which the checker calls a key covered that the provider
  refuses.
- A single read trims the key at its end. So a custom field whose name ends in white space is
  listed by the whole-item read under its own name, but asking for it alone reads the field with
  the trimmed name: nothing if there is none (`TrailingSpaceDisagrees`), and the other field's
  secret if there is one (`TrailingSpaceReadsAnother`; with fields `"a "` and `"a"`,
  `TrailingSpaceExample`). A field whose name is repeated by a valueless field is ambiguous alone
  only. `FieldReadsExactly` says for every item and key what a single read returns, and
  `CustomAgreesExactly` when it returns the document's entry.
- A package name that starts with a digit cannot be read back from a depth listing unless it is a
  single digit (`LineRoundTrip`).

## Model

| member | source | states |
|---|---|---|
| RefreshTheorems.ReusedOnlyWhenEligible | crates/bweso-bitwarden/src/api.rs:260-342 | in every interleaving a call that passes the refresh check without its own fetch does so on a vault that is fresh when judged (age below ttl, more than 30 s before token expiry), or within the stale window while the last finished attempt of the process failed with no response or with status 408, 429 or 500 to 599 |
| RefreshFailures.FailuresAreResolved | crates/bweso-bitwarden/src/api.rs:283-342 | conversely, in every run and under every schedule, a call whose fetch failed otherwise (401, 403, invalid JSON, crypto) ends in that error at its next turn; after a transient failure it has, three turns later, accepted the vault cached when the fetch failed if that was within the stale window at an instant since then, and passed the error on if not |
| Errors.TransientExactly | crates/bweso-bitwarden/src/api.rs:1079-1095 | the errors a stale vault may answer, exactly: no response, or status 408, 429 or 500 to 599 |
| RefreshInvariant.StepKeeps | crates/bweso-bitwarden/src/api.rs:260-349 | every step of every call, of the clock, of the upstream and every cancellation keeps the protocol invariant: mutex ownership, the sequential log, the cooldown as a function of the last finished attempt, what the holder knows, and where the cache came from |
| RefreshInvariant.Reachable | crates/bweso-bitwarden/src/api.rs:260-349 | the invariant holds in every reachable state |
| RefreshTheorems.SingleFlight | crates/bweso-bitwarden/src/api.rs:265-300 | at most one call is fetching, and only the last attempt of the log can be in flight |
| RefreshTheorems.CooldownRespected | crates/bweso-bitwarden/src/api.rs:270-296 | after a failed attempt whose deadline the clock can represent, no later attempt by anyone starts before the interval has passed |
| RefreshTheorems.FailureRateBound | crates/bweso-bitwarden/src/api.rs:265-296 | a window of length W sees at most W / interval + 1 attempts finish with a failure, however many callers there are |
| RefreshTheorems.StartRateBound | crates/bweso-bitwarden/src/api.rs:265-300 | in every run a window of length W sees at most W / interval + 1 attempts start, plus those of the window that were dropped by their caller or succeeded, while the clock can represent the window's end plus the interval |
| RefreshTheorems.RateHoldsExactly | crates/bweso-bitwarden/src/api.rs:270-290 | W / interval + 1 bounds the attempts of a window in all runs without dropped or successful fetches there, if and only if the clock can represent the window's end plus the interval |
| RefreshTheorems.RateNeedsNoDrops | crates/bweso-bitwarden/src/api.rs:265-290 | with dropped fetches that bound fails in every window, whatever the configuration |
| RefreshTheorems.DropsBreakTheRate | crates/bweso-bitwarden/src/api.rs:265-290 | for any configuration, instant and n there is a run in which n attempts start at that instant, each dropped by its caller |
| RefreshTheorems.FetchStartsExactly | crates/bweso-bitwarden/src/api.rs:270-276 | a call with nothing to reuse fetches if and only if the last finished attempt did not fail, its deadline overflowed, or the deadline has passed; otherwise it is throttled |
| RefreshTheorems.ChecksExactly | crates/bweso-bitwarden/src/api.rs:303-320 | each refresh check accepts the cached vault if and only if it is fresh, or within the stale window and deferred, in plain arithmetic over the settings and the fetch |
| RefreshTheorems.FetchesOnlyWhenNeeded | crates/bweso-bitwarden/src/api.rs:261-276 | while a call fetches, the cache holds nothing fresh and nothing that may be deferred, both in plain arithmetic |
| RefreshTheorems.OverflowNeverThrottles | crates/bweso-bitwarden/src/api.rs:285-290 | an interval beyond the clock's range leaves no retry deadline in any reachable state |
| RefreshTheorems.OverflowBreaksTheRate | crates/bweso-bitwarden/src/api.rs:285-290 | wherever the deadline overflows, any number of attempts can start and fail at one instant with nobody leaving |
| RefreshTheorems.CacheMovesForward | crates/bweso-bitwarden/src/api.rs:291-300 | once filled the cache stays filled and its vault is never replaced by an older one |
| RefreshTheorems.AnswersComeFromOneFetch | crates/bweso-bitwarden/src/api.rs:234-258 | every answer is the lookup applied to the key and the content of one completed fetch, no older than the vault the check accepted |
| RefreshTheorems.CacheNeverMissing | crates/bweso-bitwarden/src/api.rs:244-250 | `MissingCachedSync` is unreachable for every lookup that does not itself report it |
| Deletion.ClientNeverMissesItsCache | crates/bweso-bitwarden/src/api.rs:244-250 | the real lookup never reports it, so no call of any run ends in `MissingCachedSync` |
| RefreshTheorems.NoDeadlock | crates/bweso-bitwarden/src/api.rs:260-301 | while a call is unfinished some call, or the upstream of one, can move |
| RefreshCounters.RunBalanced | crates/bweso-bitwarden/src/api.rs:260-342 | the exact account of the four counters against returns, drops and fetches, in every reachable state |
| RefreshCounters.CountersAccountForEveryCall | crates/bweso-bitwarden/src/api.rs:265-342 | in every quiescent uncancelled run hits + stale serves + refreshes are the accepted calls, refreshes and failures are the completed fetches, and errors are throttled calls plus failures not answered stale |
| RefreshCounters.LoadedCountersAccount | crates/bweso-bitwarden/src/api.rs:653-682 | the loaded 64-bit counters still add up modulo 2^64 |
| VaultCache.FreshnessExpires | crates/bweso-bitwarden/src/api.rs:713-741 | time only takes freshness, stale eligibility and deferral away |
| RefreshTheorems.FreshExactly | crates/bweso-bitwarden/src/api.rs:698-724 | a vault that a fetch brought is fresh if and only if it is younger than the ttl and more than 30 seconds from a token expiry that the clock can represent |
| VaultCache.ReuseBounds | crates/bweso-bitwarden/src/api.rs:713-730 | the two eligibility tests, with their saturating and checked arithmetic, as plain bounds |
| VaultCache.DeferralLastsOneInterval | crates/bweso-bitwarden/src/api.rs:322-342 | a stale serve changes only the deferral, which then lasts exactly one retry interval within the stale window, or not at all if the deadline overflows |
| VaultCache.ApiClient.ReuseCachedSyncIfAvailable | crates/bweso-bitwarden/src/api.rs:303-320 | the method's whole new state is the protocol's reuse step |
| VaultCache.ApiClient.ServeStaleAfterError | crates/bweso-bitwarden/src/api.rs:322-342 | the method's whole new state is the protocol's stale step, taken exactly after no response or status 408, 429 or 500 to 599 |
| VaultCache.ApiClient.EnsureFreshCachedSync | crates/bweso-bitwarden/src/api.rs:260-301 | one uninterrupted call is the composition of the protocol's steps |
| RefreshSequential.UninterruptedCall | crates/bweso-bitwarden/src/api.rs:260-301 | at any clock readings and fetch outcome the protocol has a run of one call alone that ends in the shared state and result of that method |
| AnswersExplained.EveryAnswerExplained | crates/bweso-bitwarden/src/api.rs:234-301 | every finished call carries a refresh error, or the lookup of one completed fetch no older than the vault it accepted, which was its own fetch or younger than ttl plus stale window when judged |
| Deletion.OnlyMissingMapsTo404 | crates/vaultwarden-eso-provider/src/main.rs:1028-1090 | of all errors only a missing cipher maps to 404; no fetch error does, upstream 404 included |
| Errors.StatusesExactly | crates/vaultwarden-eso-provider/src/main.rs:1028-1090 | which errors each status stands for, exactly |
| Errors.KindsExactly | crates/vaultwarden-eso-provider/src/main.rs:1028-1090 | which errors each metric label stands for, exactly |
| Deletion.NotFoundOnlyWhenAbsent | crates/bweso-bitwarden/src/api.rs:234-258 | in every run a finished call answers 404 if and only if the item is absent from the completed fetch it consulted, which is no older than the recent vault it accepted; a refused call never does |
| Deletion.ReadingDecidesAbsence | crates/bweso-bitwarden/src/api.rs:244-258 | a call past the refresh check answers 404 if and only if the cached vault lacks the item |
| Deletion.HandlerAnswers404OnlyForMissing | crates/vaultwarden-eso-provider/src/main.rs:882-979 | no path of the handler answers 404 except relaying a missing cipher from the provider |
| Deletion.DeletionSignalIsGenuine | crates/vaultwarden-eso-provider/src/main.rs:954-978 | end to end: a request is answered 404 if and only if its item is absent from that consulted, recent fetch |
| Deletion.AbsentItemGets404 | crates/vaultwarden-eso-provider/src/main.rs:922-978 | conversely, under any schedule, a validated, permitted request that is not shed, for an item absent from the vault it reads, gets 404 |
| Lookup.NotFoundExactlyWhenAbsent | crates/bweso-bitwarden/src/api.rs:234-258 | a whole lookup reports a missing cipher if and only if no live cipher has the id, or nothing live is shared, everything live decrypts and nothing has the name |
| Lookup.NameScanExactly | crates/bweso-bitwarden/src/api.rs:384-418 | the scan returns c exactly when all live personal ciphers decrypt and c is the only match; both kinds of miss, each exactly; every other outcome is ambiguity or a decryption error |
| Lookup.NameErrorsExactly | crates/bweso-bitwarden/src/api.rs:384-418 | ambiguity if and only if some prefix decrypts and holds two matches; a decryption error if and only if its item is the first to fail with fewer than two matches before it |
| Lookup.NameScanPermuted | crates/bweso-bitwarden/src/api.rs:384-418 | any permutation of the vault leaves the verdict, except the choice between ambiguity and decryption errors |
| Lookup.OrderChoosesTheError | crates/bweso-bitwarden/src/api.rs:384-418 | that choice does depend on the order |
| Lookup.TrashInvisible | crates/bweso-bitwarden/src/api.rs:392-397 | inserting deleted items anywhere changes nothing |
| Lookup.FindByIdExactly | crates/bweso-bitwarden/src/api.rs:374-382 | the id lookup misses exactly when no live cipher has the id, and otherwise takes the first |
| Lookup.FirstWithIdDecides | crates/bweso-bitwarden/src/api.rs:362-382 | the first live cipher with the id decides: shared, decrypted, or its decryption error |
| Lookup.ServedFromLivePersonalItem | crates/bweso-bitwarden/src/api.rs:234-258 | whatever is returned was read from an item outside the trash that belongs to the account itself and has the id or the decrypted name in the key, and is that item's answer |
| Lookup.LookupAnswers | crates/bweso-bitwarden/src/api.rs:234-258 | the answer of every lookup: the error of finding the item; for one property its value under `value` and under the property's name, and nothing else; for the whole item exactly its entries; or the error of that read, a repeated key by its name |
| Lookup.AbsentExactly | crates/bweso-bitwarden/src/api.rs:351-418 | absent by id: no item outside the trash has it; absent by name: every item outside the trash belongs to the account, decrypts, and has another name or none |
| Lookup.PrefixDecidesLookup | crates/bweso-bitwarden/src/api.rs:351-360 | the prefix of the key chooses the lookup by id or by name, on everything after it |
| Lookup.ScanByName | crates/bweso-bitwarden/src/api.rs:384-418 | the loop over the vault computes the scan of the whole sequence |
| Selectors.SelectorAcceptedExactly | crates/bweso-bitwarden/src/lib.rs:180-221 | a reference is accepted exactly when it has no version, its trimmed key is `id:` or `name:` and an operand that is not blank, and its property is not blank; the selector is the two trimmed texts |
| Selectors.SelectorErrorsExactly | crates/bweso-bitwarden/src/lib.rs:180-221 | which error each refused reference gets, in the order of the checks |
| Selectors.KeysExactly | crates/bweso-bitwarden/src/api.rs:459-467 | a key selects by id exactly when it is `id:` and the operand, by name exactly when it is `name:` and the operand |
| Selectors.SelectorNormalForm | crates/bweso-bitwarden/src/lib.rs:180-221 | an accepted reference yields a normal form that validation leaves alone |
| Ciphers.DecryptsExactly | crates/bweso-bitwarden/src/cipher.rs:78-118 | a cipher decrypts exactly when it has a key of its own under which every string it carries parses, decrypts and is UTF-8; otherwise the error is the fault of the key or of the first such string, and nothing corrupt counts as absent |
| Ciphers.CipherKeyExactly | crates/bweso-bitwarden/src/cipher.rs:80-88 | that key is the account's, or the two halves of the 64 bytes which the account's key decrypts from the wrapped key; the three faults exactly |
| Ciphers.DecryptTextExactly | crates/bweso-bitwarden/src/cipher.rs:525-533 | a string reads as a text exactly when it parses and decrypts to bytes that spell it in UTF-8; the three faults exactly |
| Ciphers.PartsInPlace | crates/bweso-bitwarden/src/cipher.rs:78-118 | every part and custom field of a decrypted cipher is the text of the string in the same place, read under the cipher's own key |
| Ciphers.WholeItemExactly | crates/bweso-bitwarden/src/cipher.rs:338-379 | the whole-item read succeeds exactly when the entries are non-empty with distinct keys, and then holds exactly them; otherwise the error names the first key that repeats an earlier one |
| Ciphers.DocumentHoldsItsPlaintexts | crates/bweso-bitwarden/src/cipher.rs:338-361 | each conventional key of the document holds the text of its own ciphertext, read under the cipher's own key |
| Ciphers.ToSecretDocument | crates/bweso-bitwarden/src/cipher.rs:338-379 | the inserting loop computes that document |
| Ciphers.ConventionalAgrees | crates/bweso-bitwarden/src/cipher.rs:249-330 | every conventional entry of the document equals the single read of its key |
| Ciphers.EveryNameReadsItsField | crates/bweso-bitwarden/src/cipher.rs:258-298 | under each of its names, all aliases included, a single read returns the record's own field, or that it is missing |
| Ciphers.PropertyTrimmed | crates/bweso-bitwarden/src/cipher.rs:249-257 | white space around a property is ignored; it is blank, or of an attachment, exactly when it is only white space, or starts so after trimming |
| Ciphers.BareNameReads | crates/bweso-bitwarden/src/cipher.rs:288-330 | a bare name that is not reserved reads a value if and only if one field alone has that name, with that value |
| Ciphers.CustomPrefixReads | crates/bweso-bitwarden/src/cipher.rs:288-330 | the same for `custom.` plus any key, with the end-trimmed name |
| Ciphers.FieldPrefixReads | crates/bweso-bitwarden/src/cipher.rs:249-330 | `field.` plus any key reads the custom fields of that name without trailing white space; no reserved name captures it |
| Ciphers.FieldReadsExactly | crates/bweso-bitwarden/src/cipher.rs:300-330 | for every item and key, `field.` plus the key reads a value if and only if one field alone has the end-trimmed name, with that value |
| Ciphers.FieldErrorsExactly | crates/bweso-bitwarden/src/cipher.rs:300-330 | otherwise the name is reported as repeated if and only if two fields have it, and as missing if not |
| Ciphers.CustomAgreesExactly | crates/bweso-bitwarden/src/cipher.rs:249-330 | every custom entry equals its single read if and only if one field alone has the end-trimmed name and holds the entry's value; without trailing white space, if and only if no valueless field repeats the name |
| Ciphers.TrailingSpaceDisagrees | crates/bweso-bitwarden/src/cipher.rs:249-330 | an entry whose key ends in white space cannot be read back when no field has the trimmed name |
| Ciphers.TrailingSpaceReadsAnother | crates/bweso-bitwarden/src/cipher.rs:249-330 | if the trimmed name is another entry's key, the single read returns that entry's value although the document holds both |
| Ciphers.TrailingSpaceExample | crates/bweso-bitwarden/src/cipher.rs:249-330 | fields named `a` with and without a space after it, with any values, do that |
| EncryptedStrings.AcceptsExactly | crates/bweso-bitwarden/src/crypto.rs:76-130 | the parser accepts exactly a header that is numerically 2 with three parts that decode to 16, a positive multiple of 16, and 32 bytes, and returns those |
| EncryptedStrings.ParsePrinted | scripts/vaultwarden-smoke.py:47-56 | parsing what the printer wrote recovers iv, data and mac |
| EncryptedStrings.TypeTwoHeaders | crates/bweso-bitwarden/src/crypto.rs:139-152 | the headers for type 2, exactly |
| EncryptedStrings.ParseU8Exactly | crates/bweso-bitwarden/src/crypto.rs:139-152 | a header reads as n exactly when it is digits worth n, at most 255, or those after one plus sign |
| EncryptedStrings.LegacyExactly | crates/bweso-bitwarden/src/crypto.rs:79-91 | a string is refused as legacy if and only if it has no dot or its header is numerically 0 |
| EncryptedStrings.HeaderErrorsExactly | crates/bweso-bitwarden/src/crypto.rs:79-106 | the errors of the header and of the number of parts, each exactly |
| EncryptedStrings.PartErrorsExactly | crates/bweso-bitwarden/src/crypto.rs:108-110 | a part that is not canonical base64 is named: the first one of iv, data and mac |
| EncryptedStrings.SizeErrorsExactly | crates/bweso-bitwarden/src/crypto.rs:112-120 | canonical parts of wrong sizes: the IV is judged first, then the MAC, then the data, each reported with its length |
| EncryptedStrings.ParseIsInjectiveUpToHeader | crates/bweso-bitwarden/src/crypto.rs:76-130 | strings with equal parts differ only in how the 2 is written |
| EncryptedStrings.KeyFromBytes | crates/bweso-bitwarden/src/crypto.rs:194-213 | a key is 64 bytes split into its two halves, in order |
| Base64.DecodesExactlyEncodings | crates/bweso-bitwarden/src/crypto.rs:284-288 | decoding accepts exactly the canonical encodings and inverts them |
| Base64.GroupIsBigEndian | crates/bweso-bitwarden/src/crypto.rs:284-288 | a group of four characters is its three bytes read as one big-endian number |
| PolicyFiles.ReadPolicyFile | crates/vaultwarden-eso-provider/src/main.rs:490-520 | the nested loops read the entries of the whole text, or fail on an unreadable or oversized file |
| PolicyFiles.EntriesExactly | crates/vaultwarden-eso-provider/src/main.rs:490-520 | for every text: the provider reads an entry if and only if it is a trimmed, non-blank piece between commas of a line that does not start with `#` after trimming; the checker, if and only if it is such a piece of any line and does not start with `#` itself |
| PolicyFiles.ParsersAgreeExactly | scripts/eso-policy-coverage.rb:157-163 | the Rust and Ruby parsers give the same entries if and only if comment lines carry only blank or #-led pieces and no other line has a #-led piece |
| PolicyFiles.CheckerEntriesAreProviderEntries | scripts/eso-policy-coverage.rb:157-163 | clean comments alone make every checker entry a provider entry |
| PolicyRules.NormalizeEntries | crates/vaultwarden-eso-provider/src/main.rs:471-480 | the loop trims every entry, or refuses a list with a blank one |
| PolicyRules.AllowsExactly | crates/vaultwarden-eso-provider/src/main.rs:288-302 | a key is allowed if and only if everything is, or it equals a listed key, or it is a listed prefix followed by anything |
| SelectorPolicy.EvaluatesExactly | crates/vaultwarden-eso-provider/src/main.rs:333-357 | evaluation succeeds exactly when every configured file is readable and at most 4 MiB long and some entry exists; a key is then allowed if and only if an inline or file entry is that key or a prefix of it |
| SelectorPolicy.Evaluate | crates/vaultwarden-eso-provider/src/main.rs:333-357 | the imperative union computes that evaluation |
| SelectorPolicy.StartsExactly | crates/vaultwarden-eso-provider/src/main.rs:378-409 | the provider starts exactly when told to allow everything and given no entries, or given entries of which no inline one is blank and which evaluate |
| SelectorPolicy.ServesLastGood | crates/vaultwarden-eso-provider/src/main.rs:428-443 | after any run of reloads the rules are those of the last reading that evaluated, or the initial ones if none did |
| SelectorPolicy.GaugesTellTheTruth | crates/vaultwarden-eso-provider/src/metrics.rs:82-96 | after every cycle the gauges are the numbers of keys and prefixes served, and the counters say how many cycles ran and how many failed |
| SelectorPolicy.AllowAllOnlyWhenTold | crates/vaultwarden-eso-provider/src/main.rs:378-409 | at startup and after any reloads everything is allowed if and only if so configured; otherwise the list is non-empty, has no blank entry and refuses the empty key |
| SelectorPolicy.OnlySuccessChangesRules | crates/vaultwarden-eso-provider/src/main.rs:558-580 | the rules change exactly in the cycles counted as a success |
| SelectorPolicy.SelectorPolicy.Reload | crates/vaultwarden-eso-provider/src/main.rs:428-443 | the method's new rules and result, errors leaving the rules alone |
| SelectorPolicy.ReloadLoop | crates/vaultwarden-eso-provider/src/main.rs:547-581 | the loop of the reload task, over policy and metrics, is the run the theorems speak about |
| SelectorPolicy.Metrics.RecordPolicyReload | crates/vaultwarden-eso-provider/src/metrics.rs:82-96 | the counter of the outcome goes up by one and both gauges are replaced |
| SelectorPolicy.Metrics.RecordPolicyBaseline | crates/vaultwarden-eso-provider/src/metrics.rs:104-112 | the gauges are seeded without counting a cycle |
| SelectorPolicy.CoveredIsAllowed | scripts/eso-policy-coverage.rb:474-481 | with clean comments and one-line values, what the checker calls covered, from values and files, the provider allows |
| SelectorPolicy.CoveredExactlyWhenAllowed | scripts/eso-policy-coverage.rb:474-481 | if moreover no entry is #-led, the checker covers exactly what the provider allows |
| SelectorPolicy.CoveredButRefused | scripts/eso-policy-coverage.rb:157-163 | the condition on comments is needed: an entry after the comma of a comment is covered and refused |
| SelectorPolicy.CoversExactly | scripts/eso-policy-coverage.rb:474-481 | the checker's own test, set membership and `start_with?`, decides as the provider's does on the same entries |
| AuthPolicy.TryFrom | crates/vaultwarden-eso-provider/src/auth.rs:209-281 | the builder accepts exactly the acceptable policies, builds their capabilities, and every error names a fault that is there |
| AuthPolicy.AcceptableExactly | crates/vaultwarden-eso-provider/src/auth.rs:209-281 | what acceptable means, in numbers and characters: version 1, 1 to 1024 capabilities with distinct trimmed names, at most 4096 tokens with distinct digests, each of 32 to 4096 printable characters, and grants of which none is blank |
| AuthPolicy.TokenExactly | crates/vaultwarden-eso-provider/src/auth.rs:350-365 | a token is acceptable exactly when it is 32 to 4096 printable non-space ASCII characters |
| AuthPolicy.DigestTokens | crates/vaultwarden-eso-provider/src/auth.rs:244-252 | the token loop accepts exactly valid tokens with digests not seen before |
| AuthPolicy.DigestsAreUnique | crates/vaultwarden-eso-provider/src/auth.rs:223-252 | across an accepted policy every digest occurs in one place only |
| AuthPolicy.OnlyMatch | crates/vaultwarden-eso-provider/src/auth.rs:179-197 | the last match of the full scan is the only match |
| AuthPolicy.MatchCapability | crates/vaultwarden-eso-provider/src/auth.rs:179-197 | the full scan finds the last matching capability |
| AuthPolicy.ScopedAuthPolicy.AuthorizeSupplied | crates/vaultwarden-eso-provider/src/auth.rs:131-136 | the length gate and the scan grant what the specification grants |
| AuthPolicy.ListedTokenIsGranted | crates/vaultwarden-eso-provider/src/auth.rs:131-136 | "Bearer t" for a listed t passes every gate and yields exactly t's capability |
| AuthPolicy.ListedTokenReads | crates/vaultwarden-eso-provider/src/auth.rs:131-136 | from policy file to verdict: with a listed token a key may be selected if and only if, as trimmed, it is one of that capability's keys or one of its prefixes followed by anything |
| AuthPolicy.GrantedExactly | crates/vaultwarden-eso-provider/src/auth.rs:77-91 | a scope is granted if and only if one well-formed header carries a token whose digest that capability lists |
| AuthPolicy.LegacyExactly | crates/vaultwarden-eso-provider/src/auth.rs:80-85 | the single-token mode grants the global scope exactly to the configured digest |
| AuthPolicy.DisabledExactly | crates/vaultwarden-eso-provider/src/auth.rs:77-80 | which requests are granted without any token |
| AuthPolicy.ScopedAuthPolicy.Reload | crates/vaultwarden-eso-provider/src/auth.rs:142-155 | the rules become those of an acceptable file and otherwise stay |
| AuthPolicy.AuthServesLastGood | crates/vaultwarden-eso-provider/src/auth.rs:142-155 | over any reloads the rules are those of the last accepted file, and always come from an acceptable policy |
| Bearer.BearerExactly | crates/vaultwarden-eso-provider/src/auth.rs:367-381 | a token is read exactly from a single header of the scheme up to ASCII case, one space and printable non-space ASCII |
| Bearer.BearerInAnyCase | crates/vaultwarden-eso-provider/src/auth.rs:367-381 | the scheme is `bearer` letter by letter, in either case |
| Admission.PermitsConserved | crates/vaultwarden-eso-provider/src/main.rs:922-942 | available plus held permits is the limit, at most that many requests are at the provider, none is held while a body is read, and none leaks |
| Admission.MetricsCountAnswers | crates/vaultwarden-eso-provider/src/main.rs:887-978 | each status and kind is counted as often as requests were answered with it |
| Admission.AnswersAreFinal | crates/vaultwarden-eso-provider/src/main.rs:944-978 | the status recorded is the status returned |
| Admission.ProviderReachedOnlyIfAllowed | crates/vaultwarden-eso-provider/src/main.rs:944-963 | whatever reloads and disconnects happened, the provider is reached only with a validated key that the global rules of that moment grant, by a listed key or prefix, and so does the scope that an earlier step granted under the auth policy then in force |
| Admission.PermittedExactly | crates/vaultwarden-eso-provider/src/main.rs:959-963 | conversely a validated key passes the policy check if the rules and the scope grant it |
| Admission.OutcomesExactly | crates/vaultwarden-eso-provider/src/main.rs:887-978 | the statuses and labels of all outcomes, in numbers |
| Admission.RefusalsExactly | crates/vaultwarden-eso-provider/src/main.rs:887-963 | which refusal each failed check answers with |
| Admission.AdmittedRequestIsAnswered | crates/vaultwarden-eso-provider/src/main.rs:922-978 | under any schedule, a valid request that finds a permit and a permitted key at its own turns is at the provider after its third turn, and is answered with the provider's result |
| Admission.Handler.Resolve | crates/vaultwarden-eso-provider/src/main.rs:882-979 | one uninterrupted request: which status in which case, when the provider is called, one metric, the permit given back |
| DepthTree.RuntimeGraph | scripts/runtime_sbom.py:26-63 | the loops over packages, nodes and lines compute the specification's graph or error |
| TreeLines.LineRoundTrip | scripts/runtime_sbom.py:43-45 | a printed line reads back if and only if the name does not start with a digit or is one character |
| TreeLines.ParseLineExactly | scripts/runtime_sbom.py:43-45 | every line reads as its greedy decomposition into digits, name, version and annotation, and as nothing else |
| TreeLines.LineRefusedExactly | scripts/runtime_sbom.py:43-45 | a line is refused exactly when it has no decomposition at all |
| DepthTreeTheorems.RoundTrip | scripts/runtime_sbom.py:26-63 | printing a tree of declared normal dependencies and reading it back yields exactly its root, labels and edges |
| DepthTreeTheorems.AcceptedIsATree | scripts/runtime_sbom.py:38-63 | every accepted listing is the listing of one such tree, and the result is its graph |
| DepthTreeTheorems.AcceptsExactlyTrees | scripts/runtime_sbom.py:42-62 | a listing is accepted if and only if it lists an acceptable tree |
| DepthTreeTheorems.ListingDeterminesTree | scripts/runtime_sbom.py:42-62 | the listing determines the tree |
| DepthTreeTheorems.ElidedListingsAgree | scripts/runtime_sbom.py:26-63 | an elided listing is accepted if and only if the full one is, with the same root, edges and visited ids, and, if ids are distinct, the same graph altogether |
| DepthTreeTheorems.StackIsAlwaysAPath | scripts/runtime_sbom.py:42-62 | after every prefix the stack is a path of recorded edges from the root |
| DepthTreeTheorems.AcceptedGraphIsReachable | scripts/runtime_sbom.py:38-63 | every visited package is reachable from the root, and every edge stays inside and is a declared normal dependency |
| Lifecycle.NoLostWakeup | crates/vaultwarden-eso-provider/src/lifecycle.rs:26-47 | after a finished mark no parked waiter is left unnotified, and none returns before the flag is set |
| Lifecycle.ReturnsWhenScheduled | crates/vaultwarden-eso-provider/src/lifecycle.rs:37-47 | after a finished mark, under any interleaving, each turn takes a waiter forward until it has returned |
| Lifecycle.NeverBlockedAfterMark | crates/vaultwarden-eso-provider/src/lifecycle.rs:37-47 | and no undropped waiter is ever blocked |
| Lifecycle.Lifecycle.MarkShuttingDown | crates/vaultwarden-eso-provider/src/lifecycle.rs:26-29 | the flag store followed by the broadcast |
| Lifecycle.Lifecycle.ShutdownRequested | crates/vaultwarden-eso-provider/src/lifecycle.rs:37-47 | registers first and then parks only if the flag is not set |
| Metrics.LineRoundTrip | crates/vaultwarden-eso-provider/src/metrics.rs:739-768 | for label values over arbitrary characters the reader recovers names, values and sample value |
| Metrics.ReadsOnlyPrinted | crates/vaultwarden-eso-provider/src/metrics.rs:739-768 | conversely whatever the reader accepts is the printed line of what it returns |
| Metrics.LinesAreInjective | crates/vaultwarden-eso-provider/src/metrics.rs:739-757 | distinct samples give distinct lines |
| Metrics.ExactlyOneNewline | crates/vaultwarden-eso-provider/src/metrics.rs:739-768 | the only newline of a line is its last character |
| Metrics.BucketLineReads | crates/vaultwarden-eso-provider/src/metrics.rs:729-737 | the extra bucket label is read back after the others |
| Metrics.Output.AppendLabeledMetric | crates/vaultwarden-eso-provider/src/metrics.rs:739-757 | the pushing loop appends exactly the line |
| Metrics.Output.AppendEscapedLabelValue | crates/vaultwarden-eso-provider/src/metrics.rs:759-768 | the character loop appends exactly the escaped value |

## Left out

- HTTP, TLS, JSON and YAML decoding, command-line parsing, file access, signals and tracing: they
  appear only as arbitrary outcomes (`FetchOk`, `FetchErr`, `BodyRead`, `FileRead`, `PolicyRead`).
- AES, HMAC, HKDF, PBKDF2, Argon2, SHA-256 and UTF-8 decoding: `Primitives` and `digest` are
  arbitrary functions, so nothing is claimed about secrecy or collisions.
- Zeroization, redacted debug output and constant-time comparison: not functional properties.
- Memory ordering: the release store and acquire load of the shutdown flag and the relaxed
  counters are modelled as sequentially consistent; fairness of the scheduler is not modelled.
- Sections that hold the read/write lock of the cache or of a policy never await, so each is one
  step; waiting for such a lock is not a step of its own.
- Wall-clock timestamps and ages, histogram buckets and the other metric families: they are
  assignments, or loops over floating-point comparisons.
- The auth-policy gauges: they repeat the selector-policy gauges.
- Cipher fields that no decision reads (cipher type, field type, attachments' content).
- AuthPolicy.TryFrom: which of several faults of one policy is reported is not fixed; every
  reported fault is proved to be there.
- AuthPolicy.GrantedExactly: speaks of digests; that the token itself is listed needs a digest
  without collisions.
- PolicyFiles.ReadPolicyFile: a file over the limit is reported as too large; the code reports a
  read error instead when the cut at the limit splits a UTF-8 character.
- PolicyFiles.ParsersAgreeExactly: for texts whose white space both languages recognize; Ruby
  strips NUL and does not strip non-ASCII white space.
- SelectorPolicy.CoveredIsAllowed: starts from the environment values and file texts; how the
  checker finds them through containers, ConfigMaps and volumes is not modelled.
- DepthTreeTheorems.RoundTrip: starts from lines; the splitting of the text by `str.splitlines` is
  not modelled.
- RefreshTheorems.FailureRateBound: counts finished failures; `StartRateBound` counts starts. Both
  hold while the clock can represent the window's end plus the interval; beyond that
  `OverflowBreaksTheRate` shows that no bound holds.
- RefreshTheorems.ReusedOnlyWhenEligible: bounds the age when the vault is judged; the vault is
  read again, under the lock, when the answer is computed.
- Token expiry is measured from the completion of the fetch, as in the code; the server's own
  notion of expiry is not part of this model.
- KDF bound checks, body chunk limits, public error texts, endpoint joining, healthchecks, release
  and test scripts: one branch or one short loop settles them.
