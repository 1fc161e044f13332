# SMS monitor service: change detection, relay and fallback stores

A Dafny model of the background service of the forward-sms-app Android application
(`SmsMonitorService.kt`) and the properties proved about it. The service watches the
system SMS table, hands each new row to the Flutter side over a method channel, and
also writes every hand-off to a key-value preferences store as a fallback. It keeps:

- a **cursor** (`lastSmsId`): the high-water mark over the table's `_ID` column. It is
  set at startup to the newest id, then moved to each row's id right after that row
  is handed off;
- a **method channel**, which may be absent. It is taken lazily once the Flutter
  engine is in the engine cache;
- the **primary store** (namespace `sms_data`). Each hand-off is encoded as
  `sender=…|message=…|timestamp=…|received_at=…`, added to a set, and the set is
  trimmed to the 20 records with the largest `received_at`;
- the **debug store** (namespace `sms_debug_logs`, key `debug_logs`). It holds lines
  `<millis>: <message>`, trimmed to the 50 with the largest leading time.

Files and modules:

| file | module | contents |
|---|---|---|
| wrappers.dfy | Wrappers | `Option`, for Kotlin's nullable values |
| text.dfy | Text | `split`, `joinToString`, `startsWith`, `find`, `Long.toString`, `toLongOrNull` |
| sorting.dfy | Sorting | `sortedBy`, with `takeLast(n)` and `DESC LIMIT n` cuts |
| sms_provider.dfy | SmsProvider | the SMS table, its three queries, cursor lemmas |
| bounded_store.dfy | BoundedStore | record and debug-line encodings, the trim, the two store writes |
| sms_monitor_service.dfy | SmsMonitor | class `SmsMonitorService`, one method per modelled Kotlin method, plus the loop helpers `HandOffRow`/`HandOffAll` |

How the model represents the platform:

- The content provider is a value `Provider`. It is either `Available(rows)`, with rows
  in any order, or `Unavailable`. `Unavailable` covers a query that throws and one that
  returns a null cursor.
- Each preferences namespace is a `map<string, PrefValue>` field of the class.
  Strings and string sets share one key space.
- Loading a set from a key that holds a string throws `ClassCastException` on the
  platform, and the surrounding `try` drops the whole write. In the model
  `GetStringSet` returns `None` and the write leaves the map as it was.
- A `HashSet<String>` is a duplicate-free sequence in its iteration order. The model
  fixes that order to insertion order. The trim lemmas hold for any order.
- Some inputs are decided outside the service: the wall clock
  (`System.currentTimeMillis()`), whether the engine cache holds the `main` engine,
  and whether `invokeMethod` throws. Each is a parameter of the entry point: `now`,
  `engineCached` and `invokeOk`.
- Ghost fields record what the consumer saw:
  - `delivered`: every call of `sendSmsToFlutter`;
  - `liveCalls`: the `onSmsReceived` calls that went through;
  - `liveDebugLogs`: the `debugLog` calls that went through.

Three behaviours of the code are easy to miss:

- **The primary store accumulates only by aliasing.** `writeSmsToSharedPrefs` loads
  its set from `sms_messages` but writes the joined string to `sms_messages_json`, a
  different key; nothing in this service puts `sms_messages`.
  - When `sms_messages` is absent, the loaded set is a fresh empty default, so every
    write starts again from nothing. The trim to 20 (the "Keep only last 20 SMS" step,
    SmsMonitorService.kt:397) then never acts: after 21 writes the store holds one
    record, the last (`WriteSmsKeepsOnlyLatest`, and `WriteRowsKeepsOnlyLast` for a
    whole scan).
  - When `sms_messages` holds a set, `getStringSet` hands back the namespace's own
    set, and `existingSms.add` (line 393) changes it in place; the commit at line 418
    stores it with the rest of the namespace. That set then grows by one record per
    write without bound and the JSON string holds the newest 20 of it
    (`WriteSmsGrowsLoadedSet`, `WriteSmsAccumulates`, `WriteRowsGrowsSet`). The
    model follows this in-memory behaviour of the platform's preferences store.
- **The debug line is always persisted.** `sendDebugLogToFlutter` writes the line to
  the debug store whether or not it made the channel call.
- **The sort key can be forged.** Fields are joined with `|` and nothing is escaped.
  A message body containing `|received_at=<n>` decides the record's sort key
  (`MessageCanForgeReceivedAt`). The key round trip `ReceivedAtRoundTrip` holds only
  when sender, message and timestamp are free of `|`.

## Model

All source paths are `android/app/src/main/kotlin/com/example/forward_sms_app/SmsMonitorService.kt`.

| member | source | states |
|---|---|---|
| Wrappers.Option.GetOr | android/app/src/main/kotlin/com/example/forward_sms_app/SmsMonitorService.kt:180-181 | `x ?: d`: the value when present, the default when null |
| Text.Split | android/app/src/main/kotlin/com/example/forward_sms_app/SmsMonitorService.kt:400 | `split` on one delimiter gives at least one piece, and no piece holds the delimiter |
| Text.JoinSplit | android/app/src/main/kotlin/com/example/forward_sms_app/SmsMonitorService.kt:400 | joining the pieces of a split with the same delimiter gives the string back |
| Text.SplitJoin | android/app/src/main/kotlin/com/example/forward_sms_app/SmsMonitorService.kt:389 | splitting a join gives back the parts, when no part holds the delimiter |
| Text.SplitWithoutDelimiter | android/app/src/main/kotlin/com/example/forward_sms_app/SmsMonitorService.kt:400 | a string without the delimiter splits into itself alone |
| Text.SplitAtFirst | android/app/src/main/kotlin/com/example/forward_sms_app/SmsMonitorService.kt:460 | splitting at the first delimiter: the part before it is the first piece |
| Text.SplitAtDelimiter | android/app/src/main/kotlin/com/example/forward_sms_app/SmsMonitorService.kt:400 | a string holding the delimiter splits into at least two pieces, so `get(1)` is defined |
| Text.FirstCharRules | android/app/src/main/kotlin/com/example/forward_sms_app/SmsMonitorService.kt:400 | a string whose first character differs from the prefix's does not start with it |
| Text.FindPrefixed | android/app/src/main/kotlin/com/example/forward_sms_app/SmsMonitorService.kt:400 | `find { startsWith(p) }`: a found part is the first with the prefix; `None` means no part has it |
| Text.DigitChar | android/app/src/main/kotlin/com/example/forward_sms_app/SmsMonitorService.kt:374 | each decimal digit of `toString()` is a character `0`–`9` |
| Text.NatToString | android/app/src/main/kotlin/com/example/forward_sms_app/SmsMonitorService.kt:374 | `toString()` of a number has at least one character |
| Text.NatToStringDigits | android/app/src/main/kotlin/com/example/forward_sms_app/SmsMonitorService.kt:374 | `toString()` of a non-negative number is all decimal digits |
| Text.FormatLong | android/app/src/main/kotlin/com/example/forward_sms_app/SmsMonitorService.kt:188 | `Long.toString()` has at least one character |
| Text.FormatLongChars | android/app/src/main/kotlin/com/example/forward_sms_app/SmsMonitorService.kt:374 | `Long.toString()` holds only digits and `-`, so never `\|`, `=` or `:` |
| Text.NatToStringValue | android/app/src/main/kotlin/com/example/forward_sms_app/SmsMonitorService.kt:374 | the digits of `toString()` denote the number |
| Text.ParseFormatLong | android/app/src/main/kotlin/com/example/forward_sms_app/SmsMonitorService.kt:400 | `toLongOrNull` of `Long.toString()` gives the number back |
| Text.ParseLongAccepts | android/app/src/main/kotlin/com/example/forward_sms_app/SmsMonitorService.kt:400 | `toLongOrNull` gives a number only for non-empty text whose part after an optional sign is one or more decimal digits |
| Text.ParseLongOfDigits | android/app/src/main/kotlin/com/example/forward_sms_app/SmsMonitorService.kt:400 | conversely, an optional sign and one or more digits parse to exactly their signed value when it fits in a Long, and to null when it does not |
| Text.ParseLongRejects | android/app/src/main/kotlin/com/example/forward_sms_app/SmsMonitorService.kt:460 | `toLongOrNull` gives null on empty text, a lone sign and trailing non-digits, and accepts `+7` and `-0` |
| Sorting.ConsSorted | android/app/src/main/kotlin/com/example/forward_sms_app/SmsMonitorService.kt:399-401 | an element no larger than any element of a sorted list can go in front of it |
| Sorting.InsertSpec | android/app/src/main/kotlin/com/example/forward_sms_app/SmsMonitorService.kt:399-401 | one insertion step of `sortedBy` keeps the list sorted and adds exactly one element |
| Sorting.SortBySpec | android/app/src/main/kotlin/com/example/forward_sms_app/SmsMonitorService.kt:399-401 | `sortedBy(key)` is in ascending key order and is a permutation of its input |
| Sorting.MultisetSplit | android/app/src/main/kotlin/com/example/forward_sms_app/SmsMonitorService.kt:402 | cutting a list splits its elements between the two parts |
| Sorting.SortedSplitBound | android/app/src/main/kotlin/com/example/forward_sms_app/SmsMonitorService.kt:402 | in a sorted list, nothing before a cut has a larger key than anything after it |
| Sorting.LargestBySpec | android/app/src/main/kotlin/com/example/forward_sms_app/SmsMonitorService.kt:399-402 | `sortedBy(key).takeLast(n)`: `min(n, size)` elements of the input, sorted, none evicted with a larger key than one kept |
| Sorting.SmallestBySpec | android/app/src/main/kotlin/com/example/forward_sms_app/SmsMonitorService.kt:241 | `take(n)` after an ascending sort: `min(n, size)` elements, sorted, none left out with a smaller key than one kept |
| Sorting.DistinctCounts | android/app/src/main/kotlin/com/example/forward_sms_app/SmsMonitorService.kt:402 | a duplicate-free list holds each element at most once |
| Sorting.DistinctPermutation | android/app/src/main/kotlin/com/example/forward_sms_app/SmsMonitorService.kt:402 | a sub-multiset of a duplicate-free list is duplicate-free, so `toSet()` after `takeLast` loses nothing |
| Sorting.DistinctSubPermutation | android/app/src/main/kotlin/com/example/forward_sms_app/SmsMonitorService.kt:402 | the same, assuming the larger list is duplicate-free |
| Sorting.DistinctCardinality | android/app/src/main/kotlin/com/example/forward_sms_app/SmsMonitorService.kt:398 | a set enumerated without duplicates has as many elements as the list, so `size` is the list length |
| SmsProvider.DescendingIds | android/app/src/main/kotlin/com/example/forward_sms_app/SmsMonitorService.kt:130 | `ORDER BY _ID DESC` is an ascending sort on the negated id: ids do not increase along the result |
| SmsProvider.NewerThan | android/app/src/main/kotlin/com/example/forward_sms_app/SmsMonitorService.kt:162 | the selection `_ID > last` keeps each row with a larger id as often as it occurs, and no other row |
| SmsProvider.QueryNewer | android/app/src/main/kotlin/com/example/forward_sms_app/SmsMonitorService.kt:154-165 | the newer-rows query is null exactly when the table cannot be queried |
| SmsProvider.QueryNewerSpec | android/app/src/main/kotlin/com/example/forward_sms_app/SmsMonitorService.kt:154-165 | the newer-rows query returns exactly the rows with a larger id, in ascending id order |
| SmsProvider.QueryNewest | android/app/src/main/kotlin/com/example/forward_sms_app/SmsMonitorService.kt:231-242 | `DESC LIMIT k` returns `min(k, rows)` rows, or null when the table cannot be queried |
| SmsProvider.QueryNewestSpec | android/app/src/main/kotlin/com/example/forward_sms_app/SmsMonitorService.kt:267-278 | `DESC LIMIT k` returns table rows in descending id order, and no row left out has a larger id |
| SmsProvider.NegatedBound | android/app/src/main/kotlin/com/example/forward_sms_app/SmsMonitorService.kt:130 | a bound on negated ids is the reverse bound on ids |
| SmsProvider.LatestSmsId | android/app/src/main/kotlin/com/example/forward_sms_app/SmsMonitorService.kt:122-142 | the largest id in the table, which is one of its ids; -1 when the table is empty or cannot be queried |
| SmsProvider.Normalize | android/app/src/main/kotlin/com/example/forward_sms_app/SmsMonitorService.kt:179-182 | a null address becomes `Unknown` and a null body becomes the empty string |
| SmsProvider.NormalizeTimestamp | android/app/src/main/kotlin/com/example/forward_sms_app/SmsMonitorService.kt:182-188 | the timestamp handed off (`date.toString()`) parses back to the row's `DATE` |
| SmsProvider.NormalizeAll | android/app/src/main/kotlin/com/example/forward_sms_app/SmsMonitorService.kt:178-192 | the loop hands off one message per row |
| SmsProvider.NormalizeAllAt | android/app/src/main/kotlin/com/example/forward_sms_app/SmsMonitorService.kt:178-192 | the `i`-th hand-off of a scan is the `i`-th row, normalised |
| SmsProvider.NormalizeAllSnoc | android/app/src/main/kotlin/com/example/forward_sms_app/SmsMonitorService.kt:178-192 | handing off one more row appends exactly that row's message |
| SmsProvider.CheckAdvancesCursor | android/app/src/main/kotlin/com/example/forward_sms_app/SmsMonitorService.kt:178-192 | after a check the cursor has not gone back and is the largest id handed off; a second query from it on the same table finds nothing |
| SmsProvider.CursorIsLargest | android/app/src/main/kotlin/com/example/forward_sms_app/SmsMonitorService.kt:191 | along ascending rows newer than the cursor, the cursor ends at the largest id |
| SmsProvider.NothingNewer | android/app/src/main/kotlin/com/example/forward_sms_app/SmsMonitorService.kt:162 | no row is newer than a cursor that bounds every newer row found |
| SmsProvider.StartupSkipsExisting | android/app/src/main/kotlin/com/example/forward_sms_app/SmsMonitorService.kt:88 | the startup cursor leaves every row already in the table behind: the first check finds no new row |
| BoundedStore.SplitEncoded | android/app/src/main/kotlin/com/example/forward_sms_app/SmsMonitorService.kt:389 | a record splits on `\|` into its four `key=value` fields when no value holds `\|` |
| BoundedStore.FindReceivedAtField | android/app/src/main/kotlin/com/example/forward_sms_app/SmsMonitorService.kt:400 | of the four fields, the first one starting with `received_at=` is the last |
| BoundedStore.ReceivedAtFieldValue | android/app/src/main/kotlin/com/example/forward_sms_app/SmsMonitorService.kt:400 | the value after the `=` of a `received_at=` field is the text that follows it |
| BoundedStore.ReceivedAtRoundTrip | android/app/src/main/kotlin/com/example/forward_sms_app/SmsMonitorService.kt:374-400 | the sort key parsed from a stored record is the time it was stamped with, when no value holds `\|` |
| BoundedStore.MessageCanForgeReceivedAt | android/app/src/main/kotlin/com/example/forward_sms_app/SmsMonitorService.kt:389-400 | a message holding `\|received_at=<n>` makes `n` the record's sort key, whatever the time of writing |
| BoundedStore.ForgedSplit | android/app/src/main/kotlin/com/example/forward_sms_app/SmsMonitorService.kt:389-400 | such a record splits into five fields, the forged one before the real one |
| BoundedStore.ForgedJoin | android/app/src/main/kotlin/com/example/forward_sms_app/SmsMonitorService.kt:389 | such a record is the join of those five fields |
| BoundedStore.ForgedFieldsClean | android/app/src/main/kotlin/com/example/forward_sms_app/SmsMonitorService.kt:389 | none of the five fields holds `\|` |
| BoundedStore.JoinCons | android/app/src/main/kotlin/com/example/forward_sms_app/SmsMonitorService.kt:389 | joining adds the first element and a separator in front of the rest |
| BoundedStore.JoinMerge | android/app/src/main/kotlin/com/example/forward_sms_app/SmsMonitorService.kt:389 | a separator inside a part joins the same as a separator between parts |
| BoundedStore.DebugKeyRoundTrip | android/app/src/main/kotlin/com/example/forward_sms_app/SmsMonitorService.kt:456-460 | the sort key parsed from a stored debug line is the time it was written |
| BoundedStore.AddToSetSpec | android/app/src/main/kotlin/com/example/forward_sms_app/SmsMonitorService.kt:393 | `add` makes the members the old ones plus the new entry, keeps the set duplicate-free, and drops nothing |
| BoundedStore.TrimSpec | android/app/src/main/kotlin/com/example/forward_sms_app/SmsMonitorService.kt:398-410 | within capacity the set is kept as is; above it exactly 20 (or 50) remain, drawn from it, none evicted newer than one kept, still duplicate-free |
| BoundedStore.TrimKeepsLargest | android/app/src/main/kotlin/com/example/forward_sms_app/SmsMonitorService.kt:459-461 | an entry newer than every other entry survives the trim |
| BoundedStore.GetStringSet | android/app/src/main/kotlin/com/example/forward_sms_app/SmsMonitorService.kt:385 | `getStringSet(key, mutableSetOf())`: empty when the key is absent, an error exactly when the key holds a string |
| BoundedStore.LoadedSetDistinct | android/app/src/main/kotlin/com/example/forward_sms_app/SmsMonitorService.kt:455 | a set loaded from the preferences holds each string once |
| BoundedStore.WriteSms | android/app/src/main/kotlin/com/example/forward_sms_app/SmsMonitorService.kt:385-418 | a failed load leaves the namespace as it was; otherwise `sms_messages_json` holds a string (the loaded set, when stored, gets the new record in place) |
| BoundedStore.WriteSmsFrame | android/app/src/main/kotlin/com/example/forward_sms_app/SmsMonitorService.kt:385-418 | a primary-store write changes no key but `sms_messages` and `sms_messages_json`, never creates `sms_messages`, and keeps every stored set duplicate-free |
| BoundedStore.WriteSmsWellFormed | android/app/src/main/kotlin/com/example/forward_sms_app/SmsMonitorService.kt:385-418 | the set a primary-store write puts back is still duplicate-free |
| BoundedStore.WriteSmsGrowsLoadedSet | android/app/src/main/kotlin/com/example/forward_sms_app/SmsMonitorService.kt:385-393 | when `sms_messages` holds a set, the write leaves under that key the set with the new record added |
| BoundedStore.WriteSmsAccumulates | android/app/src/main/kotlin/com/example/forward_sms_app/SmsMonitorService.kt:385-418 | over a stored set, two writes leave both records in it |
| BoundedStore.WriteSmsKeepsOnlyLatest | android/app/src/main/kotlin/com/example/forward_sms_app/SmsMonitorService.kt:385 | with `sms_messages` absent, the write loads a fresh default set each time, so two writes leave what the second alone leaves |
| BoundedStore.WriteSmsStoresRecord | android/app/src/main/kotlin/com/example/forward_sms_app/SmsMonitorService.kt:385-418 | on a namespace with no `sms_messages` set, a write stores the one new record as the whole string |
| BoundedStore.WriteAllSnoc | android/app/src/main/kotlin/com/example/forward_sms_app/SmsMonitorService.kt:385-418 | one more write extends the in-order fold of writes by that write |
| BoundedStore.WriteAllKeepsOnlyLast | android/app/src/main/kotlin/com/example/forward_sms_app/SmsMonitorService.kt:385-418 | with `sms_messages` absent, a run of writes leaves what its last write alone leaves, and `sms_messages` stays absent |
| BoundedStore.AddAllSpec | android/app/src/main/kotlin/com/example/forward_sms_app/SmsMonitorService.kt:393 | adding a run of records to a set yields exactly the old members and the records |
| BoundedStore.WriteAllGrowsSet | android/app/src/main/kotlin/com/example/forward_sms_app/SmsMonitorService.kt:385-418 | with `sms_messages` holding a set, a run of writes leaves under that key the set with every record of the run added |
| BoundedStore.SmsKeptBounded | android/app/src/main/kotlin/com/example/forward_sms_app/SmsMonitorService.kt:397-410 | at most 20 records are kept, each from the loaded set or the new record |
| BoundedStore.WriteDebugLog | android/app/src/main/kotlin/com/example/forward_sms_app/SmsMonitorService.kt:452-466 | a failed load leaves the namespace as it was; otherwise `debug_logs` holds a set |
| BoundedStore.WriteDebugLogSpec | android/app/src/main/kotlin/com/example/forward_sms_app/SmsMonitorService.kt:459-465 | a debug write keeps at most 50 lines, changes no other key, and keeps every set duplicate-free |
| BoundedStore.DebugSetSizeBounded | android/app/src/main/kotlin/com/example/forward_sms_app/SmsMonitorService.kt:459-465 | the debug set stored after a write has at most 50 members, counting the set itself, not only the sequence that lists it |
| BoundedStore.DebugLogAccumulates | android/app/src/main/kotlin/com/example/forward_sms_app/SmsMonitorService.kt:463-464 | below capacity the debug store keeps all earlier lines and the new one, and nothing else |
| BoundedStore.NewestDebugLineKept | android/app/src/main/kotlin/com/example/forward_sms_app/SmsMonitorService.kt:456-462 | a line stamped later than every stored line is kept by the trim |
| SmsMonitor.SmsMonitorService.constructor | android/app/src/main/kotlin/com/example/forward_sms_app/SmsMonitorService.kt:23-25 | a fresh service has cursor -1, no channel, and the preferences left by earlier runs |
| SmsMonitor.SmsMonitorService.SetupMethodChannel | android/app/src/main/kotlin/com/example/forward_sms_app/SmsMonitorService.kt:62-80 | a channel is held afterwards exactly when one was held before or the engine is in the cache |
| SmsMonitor.SmsMonitorService.StartSmsMonitoring | android/app/src/main/kotlin/com/example/forward_sms_app/SmsMonitorService.kt:82-120 | the cursor becomes the newest id in the table, and the first check hands off nothing, writes nothing and leaves the channel as it was |
| SmsMonitor.SmsMonitorService.WriteSmsToSharedPrefs | android/app/src/main/kotlin/com/example/forward_sms_app/SmsMonitorService.kt:368-428 | the namespace afterwards is `WriteSms` of the one before, applied to the record stamped with `now` |
| SmsMonitor.SmsMonitorService.WriteDebugLogToSharedPrefs | android/app/src/main/kotlin/com/example/forward_sms_app/SmsMonitorService.kt:452-471 | the debug namespace afterwards is `WriteDebugLog` of the one before, applied to `now: message` |
| SmsMonitor.SmsMonitorService.SendDebugLogToFlutter | android/app/src/main/kotlin/com/example/forward_sms_app/SmsMonitorService.kt:430-450 | `SERVICE: message` reaches the consumer only when a channel is held and the call succeeds. The line persisted is `SERVICE ERROR: ` and the error text exactly when the channel call throws, and `SERVICE: message` otherwise |
| SmsMonitor.SmsMonitorService.SendSmsToFlutter | android/app/src/main/kotlin/com/example/forward_sms_app/SmsMonitorService.kt:302-366 | takes a channel if none is held and the engine is cached; the consumer gets the message only over a held channel whose call succeeds; the record is written to the primary store in every case; the cursor is untouched |
| SmsMonitor.SmsMonitorService.CheckForNewSms | android/app/src/main/kotlin/com/example/forward_sms_app/SmsMonitorService.kt:144-204 | every row newer than the cursor is handed off once, in ascending id order; the cursor ends at the last one's id; the primary store is the fold of the writes of those rows in order; nothing changes when the table cannot be queried |
| SmsMonitor.SmsMonitorService.HandOffRow | android/app/src/main/kotlin/com/example/forward_sms_app/SmsMonitorService.kt:178-192 | one iteration: the row's message is handed off, then the cursor moves to its id |
| SmsMonitor.SmsMonitorService.HandOffAll | android/app/src/main/kotlin/com/example/forward_sms_app/SmsMonitorService.kt:178-192 | the scan hands off the rows in order; cursor, channel and live calls are as after the last row, and the primary store is the fold of the rows' writes |
| SmsMonitor.SmsMonitorService.CheckRecentSms | android/app/src/main/kotlin/com/example/forward_sms_app/SmsMonitorService.kt:227-261 | the count==0 fallback reads at most the 5 newest rows, in descending id order, and changes nothing |
| SmsMonitor.SmsMonitorService.CheckAllRecentSms | android/app/src/main/kotlin/com/example/forward_sms_app/SmsMonitorService.kt:263-300 | the 10 newest rows are handed off again, newest first, over a held channel when the call succeeds, and written to the primary store in that order; the cursor does not move, and nothing changes when the table cannot be queried |
| SmsMonitor.WriteRowsSnoc | android/app/src/main/kotlin/com/example/forward_sms_app/SmsMonitorService.kt:178-192 | one more row of a scan extends the fold of its writes by that row's write |
| SmsMonitor.SmsRecordsAt | android/app/src/main/kotlin/com/example/forward_sms_app/SmsMonitorService.kt:178-192 | the `k`-th record a scan writes is the record of its `k`-th row |
| SmsMonitor.WriteRowsIsWriteAll | android/app/src/main/kotlin/com/example/forward_sms_app/SmsMonitorService.kt:178-192 | a scan's primary store is the record-level fold over the records the scan writes |
| SmsMonitor.WriteRowsKeepsOnlyLast | android/app/src/main/kotlin/com/example/forward_sms_app/SmsMonitorService.kt:178-192 | with `sms_messages` absent, a whole scan leaves in the primary store only what its last row's write alone leaves |
| SmsMonitor.WriteRowsGrowsSet | android/app/src/main/kotlin/com/example/forward_sms_app/SmsMonitorService.kt:178-192 | with `sms_messages` holding a set, a scan leaves under that key the set with all its rows' records added, so every row's record is in it |

## Left out

- Service lifecycle (`onCreate`, `onBind`, `onDestroy`), the foreground notification and its channel (lines 29-36, 58-60, 473-511): platform glue with no state the relay depends on.
- `onStartCommand` (lines 38-56): it only dispatches to `CheckForNewSms`, `CheckAllRecentSms` or a debug line, which are modelled; intents are not.
- Registration of the `ContentObserver` (lines 93-107): the model assumes registration succeeds, and each change notification is one call of `CheckForNewSms`.
- The debug lines written while checking and relaying: the `sendDebugLogToFlutter` calls inside `setupMethodChannel`, `startSmsMonitoring`, `checkForNewSms`, `checkRecentSms`, `checkAllRecentSms`, `sendSmsToFlutter` and `writeSmsToSharedPrefs`. The model gives those methods no effect on the debug store, and their contracts say nothing about it. None of those calls can throw past its own `catch`, so control flow is unchanged. A single line is modelled by `SendDebugLogToFlutter` and `WriteDebugLogToSharedPrefs`.
- `getLatestSmsId` inside `checkForNewSms` (line 150): its value only feeds a debug line. It is the same function as `LatestSmsId`.
- `Log.*` calls, `printStackTrace` and the text of every log line, including the 20- and 30-character truncation of bodies in the recent-row logs. `CheckRecentSms` returns the rows it reads, as normalised messages.
- The wall clock: one `now` per entry-point call, shared by every write in it. On the device each write reads the clock again.
- The Flutter engine cache, the channel transport and whatever the consumer does with a call: engine presence and call success are the parameters `engineCached` and `invokeOk`, fixed for one entry-point call.
- Exceptions other than an unavailable provider, a failing channel call and a set loaded from a string key (for example, I/O errors inside `SharedPreferences.apply`).
- SmsMonitor.SmsMonitorService.SendDebugLogToFlutter: the error text of a throwing channel call is the parameter `errorText`.
- `toLongOrNull` on non-ASCII decimal digits: the model accepts ASCII `0`–`9` only.
- Sorting.SortBySpec: stability of `sortedBy` (equal keys keep their order) is not proved; the insertion sort keeps it, but no property of the model depends on it.
- The iteration order of the platform's `HashSet`: fixed to insertion order. The trim lemmas hold for every order.
- Concurrency: the observer handler, `onStartCommand` and the UI thread are taken to run one at a time.
- Changes to the table or its availability between the queries of one entry point: every entry point takes one `Provider` value, so `getLastSmsId` (lines 122-142) and the first `checkForNewSms` (line 114) see the same table. StartSmsMonitoring's "first check hands off nothing" rests on that. On the device, a startup query that fails while the next one succeeds leaves the cursor at -1, and the first check then re-delivers the whole table. The model shows that case only across two entry-point calls.
- SmsReceiver.kt and MainActivity.kt are not part of this model.
