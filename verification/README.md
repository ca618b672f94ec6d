# clippy clip store, modelled in Dafny

clippy is a clipboard history manager. A clipboard watcher pipes each new clip into a `store`
command. The clips live in a table keyed by the time they were taken. Commands list, recall,
remove and wipe clips, and a retention pass prunes duplicates and caps the table's size. A
daemon variant also keeps a registry of peer devices ("nodes") and sends them clips over TCP.

The repository holds several snapshots of the same store, and this project models each one
separately:

- the command-line tool on redb (`src/`);
- the app on native_db (`app/src/database`);
- the app's single-file redb entry point (`app/src/main.rs`, `app/src/utils/database`);
- the daemon on native_db (`daemon/`).

## Structure

**Shared pieces**

- `Machine`: 64-bit `usize`, `u64`/`i64`/`i32` ranges, and `CheckedSub`. `CheckedSub` is the
  unsigned subtraction that panics when overflow checks are on and wraps when they are off.
- `Wrappers`: `Option`, plus `Outcome` = `Ok`/`Err`/`Panic`. A Rust `panic!`, `unwrap` or
  `expect` becomes `Panic`.
- `ClipStore`: the clip table as a class `Table` over `entries: seq<Entry>`.
  - Its invariant is that keys strictly increase, so a primary-key scan is the order of the
    sequence.
  - Removals made through a transaction are committed at once, as `Without(entries, doomed)`.
  - `Put` is redb's overwriting insert. `Insert` is native_db's, which refuses a stored key.
- `Scan`: the iterator pipelines the retention passes build.
  - `FilterRepeats` models `filter(|e| !seen.insert(payload))`.
  - `DuplicatesBy` models itertools' `duplicates_by`.
  - Both are loops, proved against the functions `Repeats` and `SecondOccurrences`.
  - Characterisation lemmas cover ascending and descending cursors.
- `TestFixture`: the twenty clips that every retention test stores (daemon/src/database/testing.rs).
- `Utf8`: `str::from_utf8` and `String::into_bytes`, which the `text()` methods and the device
  key use.
- `TimeKey`: the `DateTime` primary key and its big-endian byte encoding.
- `Text`: `trim` and `truncate`, and the preview built from them.
- `StoreGuard`: the admission rule of `store`.
- `GreedyInt`: the clip-id argument and its three parsers.

**Retention, one module per snapshot**

Each retention module has the same parts:

- a declarative `IsRemoved`/`Removed` rule saying which positions a pass deletes;
- `RemovedByScan`, proving that the iterator pipeline deletes exactly those positions;
- the imperative `RemoveDuplicates`/`EnsureDbSize` methods;
- lemmas for what each snapshot's tests and doc comments promise.

The modules are `AppDb`, `DaemonDb`, `DaemonClipboardDb`, `CliDb` and `AppRedbDb`.

**Commands**

- `CliStore`, `AppStore`, `AppMain`: the `store` command of each snapshot. `AppMain` also
  covers the app's `main` dispatch and `wipe`.
- `RecallCommand`: `recall`.
- `AppRemove`: `remove`.

**Daemon sync**

- `ClipRecord`: the clip records and their queries.
- `Node`: the device identity and the node record.
- `Peers`: the node registry.
- `NodeSync`: connection order, length-prefixed framing, and what `send_clip`, `send_clips`
  and `sync` write.

**Inputs from the environment**

These are parameters to the model:

- the clock (`now`, `nowMillis`);
- the focused window's name;
- the results of the machine-id, MAC-address and hostname probes;
- whether a TCP connection to an address and port succeeds (`reachable`);
- the list of default ports;
- the message serializer;
- the clips stored on the daemon, when `sync` reads them.

Whether Rust's overflow checks are on (debug builds) or off (release builds) is the boolean
`overflowChecks`.

## Model

| member | source | states |
|---|---|---|
| Scan.FilterRepeats | daemon/src/database/mod.rs:50-82 | The `seen`-set filter loop yields exactly `Repeats(s, order)`: the scanned positions whose payload an earlier-scanned position already had. |
| Scan.RepeatsMember | daemon/src/database/mod.rs:50-82 | A position is a repeat exactly when it is scanned and an earlier-scanned position holds the same payload. |
| Scan.RepeatsAscending | app/src/database/mod.rs:55-66 | On an oldest-first cursor over `lo..hi`, the repeats are exactly the positions with an older copy in the window. |
| Scan.RepeatsDescending | app/src/database/mod.rs:67-73 | On a newest-first cursor, the repeats are exactly the positions with a newer copy in the window. |
| Scan.RepeatsFullCount | daemon/src/database/mod.rs:50-82 | A full scan meets `len - #distinct payloads` repeats, in either direction. |
| Scan.RemainingCount | daemon/src/database/mod.rs:50-82 | Removing a scan's repeats leaves `len - scanned + #payloads seen` entries. |
| Scan.KeepNewest | daemon/src/database/mod.rs:75-85 | Removing every entry that has a newer copy leaves distinct payloads and loses no payload. |
| Scan.KeepOldest | daemon/src/database/clipboard.rs:119-131 | Removing every entry that has an older copy leaves distinct payloads and loses no payload. |
| Scan.DuplicatesBy | src/utils/database.rs:34-37 | The `duplicates_by` loop yields exactly `SecondOccurrences`: each position where its payload is met for the second time. |
| Scan.SecondOccurrencesOnce | src/utils/database.rs:34 | `duplicates_by` reports each payload at most once, and its positions are distinct. |
| Scan.SecondAscending | src/utils/database.rs:27-34 | On an oldest-first window, a position is reported exactly when exactly one older copy lies in the window. |
| Scan.SecondDescending | src/utils/database.rs:26-34 | On a newest-first window, a position is reported exactly when exactly one newer copy lies in the window. |
| ClipStore.Table.Put | src/commands/store.rs:70-76 | redb's `insert` replaces the payload under an existing key and otherwise adds the key. The invariant holds and other keys are unchanged. |
| ClipStore.Table.Insert | app/src/commands/store.rs:61-65 | native_db's `insert` succeeds exactly when the key is new, adding one entry. Otherwise nothing changes. |
| ClipStore.Table.CommitRemovals | daemon/src/database/mod.rs:87-88 | A commit deletes exactly the doomed positions and keeps the rest in key order. |
| ClipStore.Table.TrimToLimit | daemon/src/database/clipboard.rs:144-164 | The intended size cap: exactly the newest `min(limit, len)` entries remain, and the table is unchanged when it already fits. |
| ClipStore.UpsertLookup | src/commands/store.rs:74 | After an upsert, the new key reads back the new payload and every other key reads back what it did before. |
| ClipStore.UpsertLength | src/commands/store.rs:74 | An upsert grows the table by one exactly when the key is new. |
| ClipStore.WithoutKeysIncreasing | daemon/src/database/mod.rs:87-88 | Deleting entries keeps keys increasing, so a later scan is still chronological. |
| TimeKey.ToKey | daemon/database/schema.rs:52-61 | The key is 8 bytes that decode to the nanosecond timestamp, or to the microsecond one when the nanoseconds overflow `i64`. |
| TimeKey.KeyOrder | app/src/database/schema.rs:28-37 | For times from 1970 to 2262, key byte order coincides with time order, in both directions. |
| TimeKey.NegativeKeysSortLast | daemon/database/schema.rs:52-61 | A pre-1970 time's two's-complement key sorts after every later time's key. |
| TimeKey.I64BytesRoundTrip | daemon/database/schema.rs:55-60 | `i64::from_be_bytes(to_be_bytes(v)) == v`. |
| TimeKey.FromToBytes | daemon/database/schema.rs:55-60 | Big-endian bytes of a value that fits read back as the value. |
| TimeKey.ToFromBytes | daemon/database/schema.rs:55-60 | Writing out the value of some bytes gives the same bytes. |
| TimeKey.TimestampNanosOpt | daemon/database/schema.rs:55 | `Some` exactly when the nanoseconds fit an `i64`, and then it holds them. |
| TimeKey.TimestampMicros | daemon/database/schema.rs:57 | The microsecond stamp is the nanoseconds rounded towards the past. |
| TimeKey.IntoInner | app/src/database/schema.rs:23-25 | Unwrapping and re-wrapping a `DateTime` gives it back. |
| Utf8.DecodeEncode | daemon/database/schema.rs:87-91 | Every string's UTF-8 bytes decode back to it. |
| Utf8.EncodeDecode | daemon/database/schema.rs:87-91 | `from_utf8` succeeds exactly on the encoding of some string, and re-encoding its result gives the input bytes. |
| Utf8.EncodeInjective | daemon/src/database/node.rs:132-135 | Distinct strings have distinct bytes. |
| ClipRecord.TextOf | daemon/database/schema.rs:87-91 | `text()` fails exactly when the payload is not UTF-8, and otherwise returns the string whose bytes are the payload. |
| ClipRecord.ContainsQuery | daemon/database/schema.rs:93-101 | `contains` holds exactly when a query is given, the payload is text, and the query occurs in it. |
| ClipRecord.FromApp | daemon/database/schema.rs:103-111 | `was_copied_from_app` holds exactly when a title is given and occurs in the application name, where an unknown name counts as empty. |
| ClipRecord.ContainsOccurs | daemon/database/schema.rs:96 | `str::contains` holds exactly when the query occurs at some position. |
| ClipRecord.EmptyTitleMatchesAll | daemon/database/schema.rs:103-111 | An empty title matches every clip, even one whose application is unknown. |
| ClipRecord.InvalidTextMatchesNothing | daemon/database/schema.rs:93-101 | A payload that is not UTF-8 matches no query, not even the empty one. |
| ClipRecord.NewClip | daemon/database/schema.rs:79-85 | `ClipEntry::new` holds the payload, the current time and the focused window's name. |
| ClipRecord.Text | daemon/database/schema.rs:87-91 | `ClipEntry::text` is `TextOf` of its payload. |
| ClipRecord.ClipContains | daemon/database/schema.rs:93-101 | `ClipEntry::contains`, with the same characterisation as `ContainsQuery`. |
| ClipRecord.WasCopiedFromApp | daemon/database/schema.rs:103-111 | `ClipEntry::was_copied_from_app`, with the same characterisation as `FromApp`. |
| ClipRecord.NewClipV1 | daemon/src/database/clipboard.rs:42-49 | `ClipEntryV1::new` holds the given id, the payload, the time and the focused window. |
| ClipRecord.TextV1 | daemon/src/database/clipboard.rs:51-53 | `ClipEntryV1::text` fails exactly on non-UTF-8 payloads, and inverts the encoding otherwise. |
| ClipRecord.ClipContainsV1 | daemon/src/database/clipboard.rs:55-60 | `ClipEntryV1::contains`: a query was given, the payload is text, and the query occurs in it. |
| ClipRecord.WasCopiedFromAppV1 | daemon/src/database/clipboard.rs:62-70 | `ClipEntryV1::was_copied_from_app`: a title was given and occurs in the application name. |
| AppDb.ScanOrder | app/src/database/mod.rs:39-59 | The cursor visits distinct positions of the table. |
| AppDb.RemovedByScan | app/src/database/mod.rs:36-77 | The positions the `seen` filter yields are exactly those the declarative rule removes, for every sign of `duplicates`. |
| AppDb.RemoveDuplicates | app/src/database/mod.rs:36-77 | The new table is the old one without the positions `Removed(old, duplicates)` names, with keys still increasing. |
| AppDb.EnsureDbSize | app/src/database/mod.rs:79-91 | Deletes the oldest `min(limit, len)` entries. |
| AppDb.NewestSurvives | app/src/database/mod.rs:173-196 | With `duplicates == 0`, exactly one entry per payload survives, it is the newest copy, and no payload is lost. |
| AppDb.NewestWindowOnly | app/src/database/mod.rs:42-53 | With `duplicates > 0`, the entries older than the newest `duplicates` are kept, in order. |
| AppDb.OldestWindowOnly | app/src/database/mod.rs:55-66 | With `duplicates < 0`, the entries newer than the oldest `abs(duplicates)` are kept, in order. |
| AppDb.FixtureNewest | app/src/database/mod.rs:160-171 | On the test fixture, `duplicates == 10` leaves 12 clips. |
| AppDb.FixtureOldest | app/src/database/mod.rs:147-158 | On the test fixture, `duplicates == -10` leaves 12 clips. |
| AppDb.FixtureAll | app/src/database/mod.rs:173-196 | On the test fixture, `duplicates == 0` leaves 3 clips with 3 distinct payloads. |
| DaemonDb.ScanOrder | daemon/src/database/mod.rs:50-82 | The cursor visits distinct positions of the table. |
| DaemonDb.RemovedByScan | daemon/src/database/mod.rs:46-89 | The `seen` filter removes exactly the declaratively described positions. |
| DaemonDb.RemoveDuplicates | daemon/src/database/mod.rs:46-89 | The new table is the old one without `Removed(old, duplicates)`, with keys still increasing. |
| DaemonDb.EnsureDbSize | daemon/src/database/mod.rs:91-103 | Deletes the oldest `min(limit, len)` entries. |
| DaemonDb.NewestSurvives | daemon/src/database/mod.rs:195-218 | With `duplicates == 0`, exactly one entry per payload survives, and it is the newest. |
| DaemonDb.SecondPassRemovesNothing | daemon/src/database/mod.rs:46-89 | Removing duplicates twice with 0 is the same as once. |
| DaemonDb.OldestWindowOnly | daemon/src/database/mod.rs:52-62 | With `duplicates > 0`, only the oldest `duplicates` entries are examined, and the rest are kept in order. |
| DaemonDb.NewestWindowOnly | daemon/src/database/mod.rs:63-74 | With `duplicates < 0`, only the newest `abs(duplicates)` are examined, and the older ones are kept in order. |
| DaemonDb.FixtureOldest | daemon/src/database/mod.rs:169-180 | On the test fixture, `duplicates == 10` leaves 12 clips. |
| DaemonDb.FixtureNewest | daemon/src/database/mod.rs:182-193 | On the test fixture, `duplicates == -10` leaves 12 clips. |
| DaemonDb.FixtureAll | daemon/src/database/mod.rs:195-218 | On the test fixture, `duplicates == 0` leaves 3 clips with distinct payloads. |
| DaemonClipboardDb.Cursor | daemon/src/database/clipboard.rs:118-128 | `all()` or `all().rev()` visits every position once. |
| DaemonClipboardDb.RemoveDuplicates | daemon/src/database/clipboard.rs:106-142 | `to_remove` takes precedence and scans forward, then `to_keep` scans in reverse. The first `amount` repeats are spared and the rest are deleted. |
| DaemonClipboardDb.EnsureDbSize | daemon/src/database/clipboard.rs:144-164 | `limit >= len` leaves the table as it was. Below that, `limit - len` panics with overflow checks, and without them it removes every entry (for tables of up to 2^63 entries). |
| DaemonClipboardDb.OnlyRepeatsRemoved | daemon/src/database/clipboard.rs:117-133 | Only positions with an earlier-scanned copy are removed, so the first copy in scan order survives. |
| DaemonClipboardDb.RemovedCount | daemon/src/database/clipboard.rs:117-141 | `max(0, (len - #distinct) - amount)` entries are removed, in either direction and for any key order. |
| DaemonClipboardDb.AllRepeatsRemoved | daemon/src/database/clipboard.rs:106-142 | With `amount == 0`, exactly one entry per payload survives and no payload is lost. |
| DaemonClipboardDb.FixtureSpareTen | daemon/src/database/clipboard.rs:174-198 | Sparing 10 repeats of the fixture leaves 13 clips, in any key order. |
| DaemonClipboardDb.FixtureAll | daemon/src/database/clipboard.rs:200-223 | Sparing none leaves 3 clips, in any key order. |
| CliDb.Window | src/utils/database.rs:25-33 | The window examined lies within the table: the newest `d` entries for `d > 0`, everything for 0, and the oldest `d as usize` entries for `d < 0`. |
| CliDb.ScanOrder | src/utils/database.rs:25-33 | The cursor visits distinct positions of the table. |
| CliDb.RemovedByScan | src/utils/database.rs:25-37 | `duplicates_by` yields exactly the window positions that are the second copy of their payload met by the scan. |
| CliDb.RemoveDuplicates | src/utils/database.rs:15-42 | The new table is the old one without `Removed(old, duplicates)`, with keys still increasing. |
| CliDb.TwiceIsRepeated | src/utils/database.rs:34 | The payloads the scan meets twice are those stored at least twice in the window. |
| CliDb.OneRemovalPerRepeatedPayload | src/utils/database.rs:34-37 | Only payloads stored at least twice in the window lose an entry, and each loses at most one per call. |
| CliDb.RemovedCount | src/utils/database.rs:15-42 | One pass removes as many entries as there are distinct payloads repeated in the window. |
| CliDb.NegativeMeansAll | src/utils/database.rs:32 | On a table of up to 2^63 entries, a negative `duplicates` is sign-extended to a huge `take`, so it acts like 0. |
| AppRedbDb.ScanOrder | app/src/utils/database/mod.rs:24-34 | The cursor visits distinct positions of the table. |
| AppRedbDb.DescendingRepeatsSet | app/src/utils/database/mod.rs:29-38 | A newest-first scan of `0..hi` removes exactly the positions with a newer copy below `hi`. |
| AppRedbDb.AscendingRepeatsSet | app/src/utils/database/mod.rs:29-38 | An oldest-first scan of `lo..len` removes exactly the positions with an older copy in that range. |
| AppRedbDb.RemovedByScan | app/src/utils/database/mod.rs:19-44 | The `seen` filter over the skipped cursor removes exactly the declaratively described positions. |
| AppRedbDb.RemoveDuplicates | app/src/utils/database/mod.rs:19-44 | `duplicates > len` panics with overflow checks, with the table unchanged. Otherwise the table loses exactly `Removed(old, duplicates)`. |
| AppRedbDb.EnsureDbSize | app/src/utils/database/mod.rs:46-62 | The table keeps exactly its newest `size` entries, or all of them when it holds no more than `size`. |
| AppRedbDb.NewestSurvives | app/src/utils/database/mod.rs:156-183 | With `duplicates == 0`, one entry per payload survives, the newest, and no payload is lost. |
| AppRedbDb.OldestWindowOnly | app/src/utils/database/mod.rs:29-33 | With `0 < duplicates <= len`, only the oldest `duplicates` entries are examined, and the newer ones are kept in order. |
| AppRedbDb.SkippedPrefixKept | app/src/utils/database/mod.rs:31-33 | With `duplicates < 0`, the skipped oldest `abs(duplicates)` entries are kept, in order, in front. |
| AppRedbDb.OversizedWindowRemovesNothing | app/src/utils/database/mod.rs:29-30 | Without overflow checks, `duplicates > len` removes nothing. |
| AppRedbDb.FixtureOldest | app/src/utils/database/mod.rs:122-137 | On the test fixture, `duplicates == 10` leaves 12 clips. |
| AppRedbDb.FixtureNewest | app/src/utils/database/mod.rs:139-154 | On the test fixture, `duplicates == -10` leaves 12 clips. |
| AppRedbDb.FixtureAll | app/src/utils/database/mod.rs:156-183 | On the test fixture, `duplicates == 0` leaves 3 clips with distinct payloads. |
| StoreGuard.SliceGuard | app/src/commands/store.rs:57 | Measuring the slice refuses exactly the payloads over 5,000,000 bytes or made only of whitespace. |
| StoreGuard.HeaderGuard | src/commands/store.rs:66 | Measuring the `Vec` measures its 24-byte header, so only all-whitespace payloads are refused. |
| AppStore.Store | app/src/commands/store.rs:56-67 | Details: AppStore.Store below. |
| AppStore.Execute | app/src/commands/store.rs:37-54 | Details: AppStore.Execute below. |
| AppStore.CapEmptiesSmallTable | app/src/commands/store.rs:44-46 | As written, a `Data` store into a table that then holds at most `keep` clips leaves the table empty. |
| AppStore.ExecuteCapped | app/src/commands/store.rs:37-54 | `Store::execute` with the cap keeping the newest `keep` clips: the same outcomes as `Execute`, and a successful `Data` store leaves the capped table. |
| AppStore.NewClipKept | app/src/commands/store.rs:44-46 | With the corrected cap, a clip stored under the latest time survives as the newest entry (for `duplicates >= 0`), and at most `keep` clips remain. |
| AppStore.StoreAllInOrder | app/src/commands/store.rs:56-67 | Storing clips with ever later keys appends them in order. |
| CliStore.Store | src/commands/store.rs:65-79 | A refused payload leaves the table unchanged. Otherwise the table is the upsert of `(now, payload)`, and the key reads back the payload. |
| CliStore.Execute | src/commands/store.rs:40-62 | Details: CliStore.Execute below. |
| CliStore.LargePayloadsStored | src/commands/store.rs:66 | A payload over 5 MB that is not all whitespace is still stored. |
| AppMain.Store | app/src/main.rs:43-60 | A refused payload leaves the table unchanged. Otherwise the table is the upsert of `(now, payload)`, readable under that key. |
| AppMain.Wipe | app/src/main.rs:83-95 | Details: AppMain.Wipe below. |
| AppMain.Dispatch | app/src/main.rs:21-41 | Details: AppMain.Dispatch below. |
| AppMain.ListLabel | app/src/main.rs:73-74 | `list` labels each entry with a number from 1 to the entry count. |
| AppMain.ListLabelsBijective | app/src/main.rs:62-81 | The labels strictly decrease from `count` (oldest) to 1 (newest), so each number labels one entry. |
| GreedyInt.LeadingDigits | app/src/commands/mod.rs:73-83 | The parser reads the maximal prefix of ASCII digits. |
| GreedyInt.FromStrChecked | app/src/commands/mod.rs:64-91 | The digit loop succeeds exactly when the leading digits exist and fit a `usize`, with their value. It reports the matching error otherwise and never panics. |
| GreedyInt.FromStrUnwrap | src/commands/mod.rs:41-54 | The same value, but a panic wherever the checked parser reports an error. |
| GreedyInt.FromStrMapped | src/commands/recall.rs:54-65 | The same value, with every failure mapped to the one parse error. |
| GreedyInt.TrailingIgnored | app/src/commands/mod.rs:73-83 | Text after the digits is ignored, and a leading zero changes nothing. |
| GreedyInt.ParseExamples | app/src/commands/mod.rs:64-91 | "12abc" is 12 and "007" is 7. "abc" and "" have no digits. |
| GreedyInt.DecimalValueGrows | app/src/commands/mod.rs:76-79 | A prefix of the digits never has a larger value. This is why the loop may stop at the first overflow. |
| GreedyInt.FromUsize | src/commands/mod.rs:56-66 | `usize::from(GreedyInt::from(n)) == n`. |
| GreedyInt.Sub | app/src/commands/mod.rs:99-105 | Exact when `k <= value`. Otherwise it panics with overflow checks and wraps modulo 2^64 without them. |
| Text.Position | app/src/utils/formatting.rs:6-9 | The first non-whitespace byte, with only whitespace before it, or `None` when every byte is whitespace. |
| Text.RPosition | app/src/utils/formatting.rs:10 | The last non-whitespace byte, with only whitespace after it, or `None` when every byte is whitespace. |
| Text.Trim | app/src/utils/formatting.rs:4-12 | `trim` is a contiguous part of the input with only whitespace cut off on either side. When non-empty it starts and ends with a non-whitespace byte. It is empty exactly for all-whitespace input, and never longer than the input. |
| Text.TrimBounds | src/utils/text.rs:1-9 | `trim` is the slice between the first and last non-whitespace bytes, with only whitespace cut off. |
| Text.TrimIdempotent | app/src/utils/formatting.rs:4-12 | The result has no edge whitespace, is no longer than the input, and trimming again changes nothing. |
| Text.Truncate | src/utils/text.rs:12-17 | The result is the first `min(len, max_chars)` characters. |
| Text.TruncateFits | app/src/utils/formatting.rs:15-20 | A string comes back unchanged exactly when it fits. Otherwise the cut-off tail completes it. |
| Text.TruncateZero | app/src/utils/formatting.rs:15-20 | A width of 0 empties every non-empty string. |
| Text.PreviewTruncate | app/src/commands/list.rs:26 | Width 0 keeps the string whole. Any other width keeps the first `width` characters. |
| Text.Preview | app/src/utils/formatting.rs:22-33 | Details: Text.Preview below. |
| RecallCommand.RecallCli | src/commands/recall.rs:30-43 | Details: RecallCommand.RecallCli below. |
| RecallCommand.RecallApp | app/src/commands/recall.rs:25-42 | Details: RecallCommand.RecallApp below. |
| RecallCommand.CliRecallMissesLabel | src/commands/recall.rs:37 | Recalling the label `list` prints beside the oldest clip yields the newest clip. |
| RecallCommand.RecallByLabel | src/commands/list.rs:54-55 | Recall by label: label `id` names entry `len - id`, which exists exactly for `1 <= id <= len`. |
| RecallCommand.RecallByLabelInvertsList | src/commands/list.rs:50-57 | Every label `list` shows recalls the clip shown beside it. |
| RecallCommand.AppListLabel | app/src/commands/list.rs:47-49 | The app's `list` prints each entry's 0-based position. |
| RecallCommand.AppRecallShiftedByOne | app/src/commands/recall.rs:38 | Recalling the number printed beside entry `i` panics for `i == 0` and yields entry `i - 1` otherwise. |
| RecallCommand.RecallByPosition | app/src/commands/list.rs:44-49 | Recall by printed position: the entry exists exactly for `id < len`. An empty table gives the message. |
| RecallCommand.RecallByPositionInvertsList | app/src/commands/list.rs:44-49 | Every printed position recalls the clip printed beside it. |
| AppRemove.WithoutOne | app/src/commands/remove.rs:30-36 | Removing one position leaves the entries before it and after it, in order. |
| AppRemove.Remove | app/src/commands/remove.rs:19-39 | Details: AppRemove.Remove below. |
| Node.FirstOk | daemon/src/database/node.rs:48-58 | The first successful attempt, or `None` exactly when all of them fail. |
| Node.NewDeviceIdentifier | daemon/src/database/node.rs:48-58 | Details: Node.NewDeviceIdentifier below. |
| Node.DeviceKey | daemon/src/database/node.rs:132-135 | The key is the identity's UTF-8 bytes and decodes back to it. |
| Node.DeviceKeyInjective | daemon/src/database/node.rs:132-135 | Distinct devices have distinct keys. |
| Peers.Added | daemon/src/sync/node_manager.rs:26-35 | `add_node`: an equal stored record means no change. Another record with the same id means a duplicate-key error. Otherwise the node is appended. |
| Peers.AddedUniqueKeys | daemon/src/sync/node_manager.rs:26-35 | Adding keeps device ids unique. |
| Peers.AddedIdempotent | daemon/src/sync/utils.rs:34-43 | `join` twice is `join` once, and the node is then stored exactly once. |
| Peers.OnlyCopy | daemon/src/sync/node_manager.rs:20-24 | In a registry with unique ids, every stored record occurs once. |
| Peers.ChangedRecordRejected | daemon/src/sync/node_manager.rs:26-35 | A record that changed since it was stored, such as a new `last_seen`, is refused with a duplicate key. |
| Peers.Registry.GetNodes | daemon/src/sync/node_manager.rs:20-24 | Returns every stored node. |
| Peers.Registry.Insert | daemon/src/sync/node_manager.rs:30-32 | Fails exactly when the id is stored, leaving the registry unchanged. Otherwise it appends. |
| Peers.Registry.AddNode | daemon/src/sync/node_manager.rs:26-35 | Its outcome and new state are those of `Added`. |
| NodeSync.Attempts | daemon/src/database/node.rs:187-194 | One connection attempt per default port, succeeding exactly where the port is reachable. |
| NodeSync.FirstReachable | daemon/src/database/node.rs:187-194 | The first reachable port of the list, or `None` exactly when none is reachable. |
| NodeSync.AttemptConnection | daemon/src/database/node.rs:187-194 | The loop over the ports connects to `FirstReachable`, and fails exactly when it is `None`. |
| NodeSync.StreamOrder | daemon/src/database/node.rs:196-216 | Details: NodeSync.StreamOrder below. |
| NodeSync.GetStream | daemon/src/database/node.rs:196-216 | Connects exactly as `StreamFor` says, and fails when it finds nothing. |
| NodeSync.LengthPrefix | daemon/src/database/node.rs:227-228 | 4 bytes holding the length modulo 2^32. |
| NodeSync.Frame | daemon/src/database/node.rs:227-229 | The prefix followed by the unchanged body. |
| NodeSync.FrameRoundTrip | daemon/src/database/node.rs:227-229 | For a body under 4 GiB, parsing a frame followed by anything gives back the body and the rest. |
| NodeSync.FrameLengthWraps | daemon/src/database/node.rs:227-229 | For a body of 4 GiB or more, the prefix wraps and the parsed body is shorter than the body sent. |
| NodeSync.Wire.WriteAll | daemon/src/database/node.rs:228-229 | Each `write_all` appends one write to the log. |
| NodeSync.SendClip | daemon/src/database/node.rs:219-232 | No stream gives an error and writes nothing. Otherwise the prefix and then the body of the serialized `NewClip` are written. |
| NodeSync.SendClips | daemon/src/database/node.rs:234-245 | The same for the serialized clip list. |
| NodeSync.BareListIsNotSyncResponse | daemon/src/database/node.rs:234-245 | For any injective serializer, the bare list `send_clips` writes differs from a `SyncResponse` message. |
| NodeSync.SyncSelection | daemon/src/database/node.rs:250-258 | Nothing is selected without a previous sync. Otherwise exactly the clips taken after it are selected. |
| NodeSync.SyncSelectionMonotone | daemon/src/database/node.rs:250-258 | Selecting is idempotent, and a later sync time selects no more clips. |
| NodeSync.Sync | daemon/src/database/node.rs:247-264 | Details: NodeSync.Sync below. |

### Contract details

The rows whose third cell reads "Details" have longer contracts, stated here.

- **AppStore.Store**
  - A refused payload panics, with the table unchanged.
  - A payload under a stored key fails, with the table unchanged.
  - Otherwise the new entry is added.
- **AppStore.Execute**
  - `Data` stores, removes duplicates and caps the size.
  - `Sensitive` panics.
  - Any other state returns `Ok` without a write.
- **CliStore.Execute**
  - `Nil` and `Clear` return `Ok` without a write.
  - `Sensitive` panics.
  - `Data` stores the clip and then runs the duplicate removal on the result.
- **AppMain.Wipe** borrows the table twice, so it removes nothing. It returns `Ok` exactly on an
  empty table and panics otherwise.
- **AppMain.Dispatch**
  - The states "sensitive" and "clear" write nothing.
  - `list` and `wipe` leave the table unchanged.
  - `remove` panics.
  - `store` stores the clip and then removes duplicates, or panics with the stored clip kept.
- **Text.Preview**
  - It panics exactly when the trimmed payload is not UTF-8.
  - Otherwise the trimmed payload is the UTF-8 encoding of a string `t`, and the preview is
    exactly the first `min(width, |t|)` characters of `t`.
- **RecallCommand.RecallCli**
  - It succeeds exactly for `1 <= id <= len`, with entry `id - 1` in key order.
  - Every other id panics.
- **RecallCommand.RecallApp**
  - An empty table gives the message.
  - Otherwise it succeeds exactly for `1 <= id <= len`, with entry `id - 1`.
  - Every other id panics.
- **AppRemove.Remove**
  - An empty table returns `Ok` unchanged.
  - An id outside `1..=len` panics, with the table unchanged.
  - Otherwise exactly entry `id - 1` is deleted and the others keep their order.
- **Node.NewDeviceIdentifier**
  - It returns the machine id, else the MAC address, else the fallback.
  - It returns `None` exactly when all three fail.
- **NodeSync.StreamOrder**
  - `last_ip` does not change the outcome.
  - A reachable local address wins.
  - Otherwise the public address is tried.
  - It returns `None` exactly when neither address is reachable on any port.
- **NodeSync.Sync**
  - It always returns `Ok`.
  - With a stream, it writes one frame holding the stored clips taken after `last_sync`.
  - Without a stream, it writes nothing.

## Left out

- I/O is not modelled: reading stdin, writing stdout, and the text `list`, `search` and
  `completions` print. The `?` propagation of database, file and socket errors is left out
  too: every such call is taken to succeed.
- The date half of `format_entry` (the `%c` rendering) is not modelled. `list` itself appears
  only as the labels it prints.
- The snapshot is read through a second write transaction, and the model treats it as a
  separate read snapshot.
  - src/utils/database.rs:17-18 and app/src/utils/database/mod.rs:47-48 open two redb write
    transactions at once.
  - redb allows one write transaction at a time, so the second `begin_write` waits for the
    first. That wait is not modelled.
- `keep` is not passed to the duplicate removal. src/commands/store.rs:58 and app/src/main.rs:29
  call the two-parameter `remove_duplicates` with a third argument, and the model drops it.
  app/src/main.rs:29 also passes the database path where app/src/utils/database/mod.rs:19 takes
  an open `Database`. The model runs the removal on the table that `store` has just written.
- The app's `ClipEntry` (app/src/database/schema.rs:50) holds its payload as `String`, while
  app/src/commands/store.rs:63 passes `&[u8]`. The model stores bytes.
- Timestamps, UUIDv7 ids, the focused window and the OS probes are not computed. This covers
  machine id, MAC address and the blake3 hash of the host name. They are parameters, and so is
  the `is_self` check.
- The serializer (bincode / rmp) and the value of `DEFAULT_PORTS` are parameters. So are
  whether a port is reachable and the clips that `sync` reads from its database.
- `Peers.Registry`: the stored nodes are kept in insertion order, not native_db's key order.
  Only the set of stored records and their unique ids are claimed.
- The pairing code, `can_store` routing, the clipboard watcher tasks, the networking loop of
  daemon/src/sync/connection.rs and the database path resolution (`get_db`) are not modelled.
- `RecallCommand.RecallCli` requires a table of at most `usize::MAX` entries.
  `RecallCommand.RecallApp` and `AppRemove.Remove` require the same.
- `DaemonClipboardDb.EnsureDbSize`: the claim that everything is removed needs a table of at
  most 2^63 entries. Past that, only the general wrapped-amount formula is stated.
- `CliDb.NegativeMeansAll` requires a table of at most 2^63 entries.
- `TimeKey.KeyOrder` is stated for 1970 to 2262. `TimeKey.NegativeKeysSortLast` states what
  happens before 1970. The microsecond fallback outside 1677 to 2262 has no order claim.
- daemon/src/database/mod.rs:91-103 holds the same `ensure_db_size` as the app's, modelled as `DaemonDb.EnsureDbSize`; no caller of it is part of this model.
- `AppMain.Dispatch` requires fewer than 2^64 - 1 entries, so the `u64` length never overflows.
- A test and the code disagree. The `clipboard.rs` tests (daemon/src/database/clipboard.rs:174-198)
  expect 12 clips after sparing 10 repeats of the fixture, but the code leaves 13.
  `DaemonClipboardDb.FixtureSpareTen` states the 13 the code gives.

## Findings

| source | as written | input that shows it | evidently intended | confidence | as-written member | corrected member |
|---|---|---|---|---|---|---|
| daemon/src/database/clipboard.rs:144-164 | `ensure_db_size` computes `limit - len` after returning early when `limit > len` | a table of 3 clips and `limit` 1: a debug build panics; a release build removes all 3 | remove the oldest `len - limit` clips, keeping the newest `limit` | high; not executed | DaemonClipboardDb.EnsureDbSize | ClipStore.Table.TrimToLimit |
| app/src/database/mod.rs:79-91 | `ensure_db_size(limit)` deletes the first `limit` entries in key order; `Store::execute` (app/src/commands/store.rs:46) calls it with `keep` after every store | a table of 5 clips and `keep` 1000: storing a sixth clip leaves the table empty | keep the newest `keep` clips, as the option's doc says ("Amount of clips to keep in database", app/src/cli.rs:24) | high; not executed | AppStore.CapEmptiesSmallTable | AppStore.ExecuteCapped |
| src/commands/recall.rs:37 | `recall id` takes entry `id - 1` in key order, but `list` (src/commands/list.rs:54-55) labels entry `i` as `count - i` | 2 different clips: `list` shows the oldest as 2, and `recall 2` prints the newest | `recall id` prints the entry `list` labelled `id`, i.e. entry `count - id` | medium; not executed | RecallCommand.CliRecallMissesLabel | RecallCommand.RecallByLabel |
| app/src/commands/recall.rs:38 | `nth(id - 1)`, while the app's `list` (app/src/commands/list.rs:47-49) prints positions from 0 | `recall 0` for the clip printed as 0 panics; `recall 1` prints the clip printed as 0 | `recall id` prints the clip printed as `id` | medium; not executed | RecallCommand.AppRecallShiftedByOne | RecallCommand.RecallByPosition |
| app/src/utils/formatting.rs:15-20 | `truncate(s, 0)` returns the empty string | `list -w 0` over a clip "abc" previews "" | as documented at app/src/commands/list.rs:26 and src/commands/list.rs:30: width 0 retains the original width | high; not executed | Text.TruncateZero | Text.PreviewTruncate |
