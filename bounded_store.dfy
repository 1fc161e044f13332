/**
 * The two fallback stores kept in the platform's key-value preferences:
 * the primary SMS store (namespace "sms_data", capacity 20) and the debug
 * log store (namespace "sms_debug_logs", capacity 50). Each write loads a
 * set of strings, adds one entry and, above capacity, keeps the entries
 * with the largest timestamps parsed back out of the strings.
 */
module BoundedStore {
  import opened Wrappers
  import opened Text
  import opened Sorting

  const SMS_CAPACITY: nat := 20
  const DEBUG_CAPACITY: nat := 50

  /** The key the primary store loads its set from. */
  const SMS_SET_KEY: string := "sms_messages"
  /** The key the primary store writes its joined records to. */
  const SMS_JSON_KEY: string := "sms_messages_json"
  /** The key the debug store both loads from and writes to. */
  const DEBUG_KEY: string := "debug_logs"

  const FIELD_SEPARATOR: char := '|'
  const RECORD_SEPARATOR: string := "|||"
  const RECEIVED_AT_PREFIX: string := "received_at="

  // ---- encoding of one SMS record ----

  /** The `key=value` fields of a record, in the order of the map literal that builds them. */
  function SmsFields(sender: string, message: string, timestamp: string, receivedAt: Long): seq<string>
  {
    ["sender=" + sender, "message=" + message, "timestamp=" + timestamp, RECEIVED_AT_PREFIX + FormatLong(receivedAt)]
  }

  /** A record as stored: its fields joined by `|`. */
  function EncodeSms(sender: string, message: string, timestamp: string, receivedAt: Long): string
  {
    JoinWith(SmsFields(sender, message, timestamp, receivedAt), [FIELD_SEPARATOR])
  }

  /**
   * The sort key of a stored record: the value of its first field starting
   * with `received_at=`, up to the next `=`, read as a `Long`; 0 when there is
   * no such field or the value does not parse.
   */
  function ReceivedAtKey(entry: string): int
  {
    match FindPrefixed(Split(entry, FIELD_SEPARATOR), RECEIVED_AT_PREFIX)
    case None => 0
    case Some(field) =>
      assert field[..|RECEIVED_AT_PREFIX|] == RECEIVED_AT_PREFIX;
      assert field[11] == RECEIVED_AT_PREFIX[11] == '=';
      SplitAtDelimiter(field, '=', 11);
      ParseLong(Split(field, '=')[1]).GetOr(0)
  }

  /** The fields of a record come back out of a split, provided none holds the separator. */
  lemma SplitEncoded(sender: string, message: string, timestamp: string, receivedAt: Long)
    requires FIELD_SEPARATOR !in sender && FIELD_SEPARATOR !in message && FIELD_SEPARATOR !in timestamp
    ensures Split(EncodeSms(sender, message, timestamp, receivedAt), FIELD_SEPARATOR)
            == SmsFields(sender, message, timestamp, receivedAt)
  {
    var fields := SmsFields(sender, message, timestamp, receivedAt);
    FormatLongChars(receivedAt);
    assert FIELD_SEPARATOR !in FormatLong(receivedAt);
    assert forall i :: 0 <= i < |fields| ==> FIELD_SEPARATOR !in fields[i];
    SplitJoin(fields, FIELD_SEPARATOR);
  }

  /** Of the four fields, only the last starts with `received_at=`. */
  lemma FindReceivedAtField(sender: string, message: string, timestamp: string, receivedAt: Long)
    ensures FindPrefixed(SmsFields(sender, message, timestamp, receivedAt), RECEIVED_AT_PREFIX)
            == Some(RECEIVED_AT_PREFIX + FormatLong(receivedAt))
  {
    var fields := SmsFields(sender, message, timestamp, receivedAt);
    FirstCharRules(fields[0], RECEIVED_AT_PREFIX);
    FirstCharRules(fields[1], RECEIVED_AT_PREFIX);
    FirstCharRules(fields[2], RECEIVED_AT_PREFIX);
    assert fields[3][..|RECEIVED_AT_PREFIX|] == RECEIVED_AT_PREFIX;
    assert FindPrefixed(fields, RECEIVED_AT_PREFIX) == FindPrefixed(fields[1..], RECEIVED_AT_PREFIX);
    assert FindPrefixed(fields[1..], RECEIVED_AT_PREFIX) == FindPrefixed(fields[2..], RECEIVED_AT_PREFIX);
    assert FindPrefixed(fields[2..], RECEIVED_AT_PREFIX) == FindPrefixed(fields[3..], RECEIVED_AT_PREFIX);
  }

  /** The value of a `received_at=` field is the text after the `=`, when that holds no `=`. */
  lemma ReceivedAtFieldValue(value: string)
    requires '=' !in value
    ensures |Split(RECEIVED_AT_PREFIX + value, '=')| >= 2
    ensures Split(RECEIVED_AT_PREFIX + value, '=')[1] == value
  {
    assert RECEIVED_AT_PREFIX + value == "received_at" + ['='] + value;
    SplitAtFirst("received_at", value, '=');
    SplitWithoutDelimiter(value, '=');
  }

  /**
   * Parsing a stored record gives back the time it was received, provided
   * sender, message and timestamp hold no field separator.
   */
  lemma ReceivedAtRoundTrip(sender: string, message: string, timestamp: string, receivedAt: Long)
    requires FIELD_SEPARATOR !in sender && FIELD_SEPARATOR !in message && FIELD_SEPARATOR !in timestamp
    ensures ReceivedAtKey(EncodeSms(sender, message, timestamp, receivedAt)) == receivedAt
  {
    SplitEncoded(sender, message, timestamp, receivedAt);
    FindReceivedAtField(sender, message, timestamp, receivedAt);
    var digits := FormatLong(receivedAt);
    FormatLongChars(receivedAt);
    assert '=' !in digits;
    ReceivedAtFieldValue(digits);
    ParseFormatLong(receivedAt);
  }

  /**
   * Without escaping, a message whose text holds `|received_at=` and a number
   * decides the record's sort key, whatever the time it was received: the
   * round trip above needs its precondition.
   */
  lemma MessageCanForgeReceivedAt(sender: string, head: string, timestamp: string, forged: Long, receivedAt: Long)
    requires FIELD_SEPARATOR !in sender && FIELD_SEPARATOR !in head && FIELD_SEPARATOR !in timestamp
    ensures ReceivedAtKey(EncodeSms(sender, head + [FIELD_SEPARATOR] + RECEIVED_AT_PREFIX + FormatLong(forged),
                                    timestamp, receivedAt)) == forged
  {
    var forgedField := RECEIVED_AT_PREFIX + FormatLong(forged);
    var parts := ForgedFields(sender, head, timestamp, forged, receivedAt);
    ForgedSplit(sender, head, timestamp, forged, receivedAt);
    FirstCharRules(parts[0], RECEIVED_AT_PREFIX);
    FirstCharRules(parts[1], RECEIVED_AT_PREFIX);
    assert parts[2][..|RECEIVED_AT_PREFIX|] == RECEIVED_AT_PREFIX;
    assert FindPrefixed(parts, RECEIVED_AT_PREFIX) == FindPrefixed(parts[1..], RECEIVED_AT_PREFIX);
    assert FindPrefixed(parts[1..], RECEIVED_AT_PREFIX) == Some(forgedField);
    FormatLongChars(forged);
    assert '=' !in FormatLong(forged);
    ReceivedAtFieldValue(FormatLong(forged));
    ParseFormatLong(forged);
  }

  /** The five fields a record with a forged message splits into. */
  function ForgedFields(sender: string, head: string, timestamp: string, forged: Long, receivedAt: Long): seq<string>
  {
    ["sender=" + sender, "message=" + head, RECEIVED_AT_PREFIX + FormatLong(forged),
     "timestamp=" + timestamp, RECEIVED_AT_PREFIX + FormatLong(receivedAt)]
  }

  /** A message holding the separator splits the record into five fields. */
  lemma ForgedSplit(sender: string, head: string, timestamp: string, forged: Long, receivedAt: Long)
    requires FIELD_SEPARATOR !in sender && FIELD_SEPARATOR !in head && FIELD_SEPARATOR !in timestamp
    ensures Split(EncodeSms(sender, head + [FIELD_SEPARATOR] + RECEIVED_AT_PREFIX + FormatLong(forged),
                           timestamp, receivedAt), FIELD_SEPARATOR)
            == ForgedFields(sender, head, timestamp, forged, receivedAt)
  {
    var parts := ForgedFields(sender, head, timestamp, forged, receivedAt);
    ForgedJoin(sender, head, timestamp, forged, receivedAt);
    ForgedFieldsClean(sender, head, timestamp, forged, receivedAt);
    SplitJoin(parts, FIELD_SEPARATOR);
  }

  /** The record with a forged message is the join of the five fields. */
  lemma ForgedJoin(sender: string, head: string, timestamp: string, forged: Long, receivedAt: Long)
    ensures EncodeSms(sender, head + [FIELD_SEPARATOR] + RECEIVED_AT_PREFIX + FormatLong(forged), timestamp, receivedAt)
            == JoinWith(ForgedFields(sender, head, timestamp, forged, receivedAt), [FIELD_SEPARATOR])
  {
    var sep := [FIELD_SEPARATOR];
    var message := head + sep + RECEIVED_AT_PREFIX + FormatLong(forged);
    var fields := SmsFields(sender, message, timestamp, receivedAt);
    var parts := ForgedFields(sender, head, timestamp, forged, receivedAt);
    assert fields[1] == parts[1] + sep + parts[2];
    assert fields == [parts[0], parts[1] + sep + parts[2], parts[3], parts[4]];
    JoinMerge(parts[0], parts[1], parts[2], parts[3], parts[4], sep);
    assert parts == [parts[0], parts[1], parts[2], parts[3], parts[4]];
  }

  /** None of the five fields holds the separator. */
  lemma ForgedFieldsClean(sender: string, head: string, timestamp: string, forged: Long, receivedAt: Long)
    requires FIELD_SEPARATOR !in sender && FIELD_SEPARATOR !in head && FIELD_SEPARATOR !in timestamp
    ensures forall i :: 0 <= i < 5 ==> FIELD_SEPARATOR !in ForgedFields(sender, head, timestamp, forged, receivedAt)[i]
  {
    FormatLongChars(forged);
    FormatLongChars(receivedAt);
    assert FIELD_SEPARATOR !in FormatLong(forged) && FIELD_SEPARATOR !in FormatLong(receivedAt);
  }

  /** Joining after a list's first element adds that element and a separator in front. */
  lemma JoinCons(x: string, rest: seq<string>, sep: string)
    requires |rest| >= 1
    ensures JoinWith([x] + rest, sep) == x + sep + JoinWith(rest, sep)
  {
    assert ([x] + rest)[1..] == rest;
  }

  /** Joining is the same whether a separator sits inside the second part or between parts. */
  lemma JoinMerge(a: string, b: string, c: string, d: string, e: string, sep: string)
    ensures JoinWith([a, b + sep + c, d, e], sep) == JoinWith([a, b, c, d, e], sep)
  {
    var tail := JoinWith([d, e], sep);
    JoinCons(b + sep + c, [d, e], sep);
    JoinCons(a, [b + sep + c] + [d, e], sep);
    JoinCons(c, [d, e], sep);
    JoinCons(b, [c] + [d, e], sep);
    JoinCons(a, [b] + ([c] + [d, e]), sep);
    assert [a, b + sep + c, d, e] == [a] + ([b + sep + c] + [d, e]);
    assert [a, b, c, d, e] == [a] + ([b] + ([c] + [d, e]));
  }

  // ---- encoding of one debug log line ----

  /** A debug log line as stored: the time in milliseconds, `: `, the message. */
  function DebugEntry(now: Long, message: string): string
  {
    FormatLong(now) + ": " + message
  }

  /** The sort key of a debug log line: the text before its first `:` read as a `Long`, else 0. */
  function DebugKey(entry: string): int
  {
    ParseLong(Split(entry, ':')[0]).GetOr(0)
  }

  /** Parsing a stored debug line gives back the time it was written. */
  lemma DebugKeyRoundTrip(now: Long, message: string)
    ensures DebugKey(DebugEntry(now, message)) == now
  {
    var digits := FormatLong(now);
    FormatLongChars(now);
    assert ':' !in digits;
    assert DebugEntry(now, message) == digits + [':'] + (" " + message);
    SplitAtFirst(digits, " " + message, ':');
    ParseFormatLong(now);
  }

  // ---- the sets and their trim ----

  /** `set.add(e)` on a set enumerated in its iteration order. */
  function AddToSet(items: seq<string>, e: string): seq<string>
  {
    if e in items then items else items + [e]
  }

  /** Adding gives the old members and `e`, each once, and drops nothing. */
  lemma AddToSetSpec(items: seq<string>, e: string)
    ensures forall x :: x in AddToSet(items, e) <==> x in items || x == e
    ensures Distinct(items) ==> Distinct(AddToSet(items, e))
    ensures multiset(items) <= multiset(AddToSet(items, e))
  {
  }

  /** `if (size > cap) sortedBy(key).takeLast(cap).toSet() else set`. */
  function Trim(order: seq<string>, key: string -> int, cap: nat): seq<string>
  {
    if |order| > cap then LargestBy(order, key, cap) else order
  }

  /**
   * A set within capacity is kept as it is; a larger one is cut to exactly
   * the capacity, and no entry evicted has a larger key than an entry kept.
   */
  lemma TrimSpec(order: seq<string>, key: string -> int, cap: nat)
    ensures |order| <= cap ==> Trim(order, key, cap) == order
    ensures |order| > cap ==> |Trim(order, key, cap)| == cap
    ensures multiset(Trim(order, key, cap)) <= multiset(order)
    ensures forall e, k :: e in multiset(order) - multiset(Trim(order, key, cap)) && k in Trim(order, key, cap) ==>
              key(e) <= key(k)
    ensures Distinct(order) ==> Distinct(Trim(order, key, cap))
  {
    if |order| > cap {
      LargestBySpec(order, key, cap);
    }
    DistinctPermutation(order, Trim(order, key, cap));
  }

  // ---- the preferences ----

  /** A stored preference: a string, or a set of strings in its iteration order. */
  datatype PrefValue = StringValue(text: string) | StringSetValue(items: seq<string>)

  /** One preferences namespace; strings and string sets share its keys. */
  type Prefs = map<string, PrefValue>

  /** Every stored set holds each string once. */
  predicate WellFormed(m: Prefs)
  {
    forall k :: k in m && m[k].StringSetValue? ==> Distinct(m[k].items)
  }

  /**
   * `getStringSet(key, mutableSetOf())`: the stored set, the empty set when
   * the key is absent, `None` when the key holds a string (the platform
   * throws a `ClassCastException`).
   */
  function GetStringSet(m: Prefs, key: string): (r: Option<seq<string>>)
    ensures key !in m ==> r == Some([])
    ensures key in m ==> (r.Some? <==> m[key].StringSetValue?)
  {
    if key !in m then Some([])
    else match m[key]
      case StringSetValue(items) => Some(items)
      case StringValue(_) => None
  }

  /** A set loaded from a well-formed namespace holds each string once. */
  lemma LoadedSetDistinct(m: Prefs, key: string)
    requires WellFormed(m)
    ensures GetStringSet(m, key).Some? ==> Distinct(GetStringSet(m, key).value)
  {
  }

  /** The records the primary store keeps after adding `entry` to `items`. */
  function SmsKept(items: seq<string>, entry: string): seq<string>
  {
    Trim(AddToSet(items, entry), ReceivedAtKey, SMS_CAPACITY)
  }

  /**
   * `writeSmsToSharedPrefs`, on the namespace's contents: the set loaded from
   * "sms_messages" plus the new record, trimmed to 20, joined with `|||` and
   * written as a string to the other key, "sms_messages_json". A failed load
   * aborts the write. The loaded set is the namespace's own: when the key
   * holds one, the record is added to it in place and the commit stores it
   * too; when the key is absent the set is a fresh default and is dropped.
   */
  function WriteSms(m: Prefs, entry: string): (m': Prefs)
    ensures GetStringSet(m, SMS_SET_KEY).None? ==> m' == m
    ensures GetStringSet(m, SMS_SET_KEY).Some? ==> SMS_JSON_KEY in m' && m'[SMS_JSON_KEY].StringValue?
  {
    match GetStringSet(m, SMS_SET_KEY)
    case None => m
    case Some(items) =>
      var loaded := if SMS_SET_KEY in m then m[SMS_SET_KEY := StringSetValue(AddToSet(items, entry))] else m;
      loaded[SMS_JSON_KEY := StringValue(JoinWith(SmsKept(items, entry), RECORD_SEPARATOR))]
  }

  /**
   * A primary-store write touches no key but "sms_messages" and
   * "sms_messages_json", creates no "sms_messages" set, and keeps every
   * stored set free of duplicates.
   */
  lemma WriteSmsFrame(m: Prefs, entry: string)
    ensures forall k :: k != SMS_JSON_KEY && k != SMS_SET_KEY ==>
              (k in WriteSms(m, entry) <==> k in m) && (k in m ==> WriteSms(m, entry)[k] == m[k])
    ensures SMS_SET_KEY !in m ==> SMS_SET_KEY !in WriteSms(m, entry)
    ensures WellFormed(m) ==> WellFormed(WriteSms(m, entry))
  {
    assert |SMS_SET_KEY| != |SMS_JSON_KEY|;
    if WellFormed(m) {
      WriteSmsWellFormed(m, entry);
    }
  }

  /** The set a primary-store write may put back is still free of duplicates. */
  lemma WriteSmsWellFormed(m: Prefs, entry: string)
    requires WellFormed(m)
    ensures WellFormed(WriteSms(m, entry))
  {
    match GetStringSet(m, SMS_SET_KEY)
    case None =>
    case Some(items) =>
      AddToSetSpec(items, entry);
      LoadedSetDistinct(m, SMS_SET_KEY);
      var m' := WriteSms(m, entry);
      forall k | k in m' && m'[k].StringSetValue?
        ensures Distinct(m'[k].items)
      {
        if k != SMS_SET_KEY && k != SMS_JSON_KEY {
          assert m'[k] == m[k];
        }
      }
  }

  /** When "sms_messages" holds a set, a write adds the record to it in place. */
  lemma WriteSmsGrowsLoadedSet(m: Prefs, entry: string)
    requires SMS_SET_KEY in m && m[SMS_SET_KEY].StringSetValue?
    ensures SMS_SET_KEY in WriteSms(m, entry)
    ensures WriteSms(m, entry)[SMS_SET_KEY] == StringSetValue(AddToSet(m[SMS_SET_KEY].items, entry))
  {
    assert |SMS_SET_KEY| != |SMS_JSON_KEY|;
  }

  /**
   * So, over a stored set, the primary store accumulates: after two writes
   * the set holds both records, and the second write's trim sees the first.
   */
  lemma WriteSmsAccumulates(m: Prefs, first: string, second: string)
    requires SMS_SET_KEY in m && m[SMS_SET_KEY].StringSetValue?
    ensures var items := GetStringSet(WriteSms(WriteSms(m, first), second), SMS_SET_KEY).value;
            first in items && second in items
  {
    var m1 := WriteSms(m, first);
    WriteSmsGrowsLoadedSet(m, first);
    var s1 := AddToSet(m[SMS_SET_KEY].items, first);
    AddToSetSpec(m[SMS_SET_KEY].items, first);
    WriteSmsGrowsLoadedSet(m1, second);
    AddToSetSpec(s1, second);
  }

  /**
   * Without a stored set the primary store never accumulates: each write
   * starts from a fresh empty set, so it leaves only what the latest write
   * put there.
   */
  lemma WriteSmsKeepsOnlyLatest(m: Prefs, first: string, second: string)
    requires SMS_SET_KEY !in m
    ensures WriteSms(WriteSms(m, first), second) == WriteSms(m, second)
  {
    var m1 := WriteSms(m, first);
    WriteSmsFrame(m, first);
    assert GetStringSet(m1, SMS_SET_KEY) == GetStringSet(m, SMS_SET_KEY);
  }

  /** The primary store after `records` are written in order. */
  function WriteAll(m: Prefs, records: seq<string>): Prefs
  {
    if |records| == 0 then m else WriteSms(WriteAll(m, records[..|records| - 1]), records[|records| - 1])
  }

  /** Writing one more record extends the fold by that record's write. */
  lemma WriteAllSnoc(m: Prefs, records: seq<string>, r: string)
    ensures WriteAll(m, records + [r]) == WriteSms(WriteAll(m, records), r)
  {
    assert (records + [r])[..|records|] == records;
  }

  /**
   * Without a stored set, a run of writes leaves only what its last write
   * alone leaves.
   */
  lemma {:induction false} WriteAllKeepsOnlyLast(m: Prefs, records: seq<string>)
    requires SMS_SET_KEY !in m && |records| > 0
    ensures SMS_SET_KEY !in WriteAll(m, records)
    ensures WriteAll(m, records) == WriteSms(m, records[|records| - 1])
  {
    var init := records[..|records| - 1];
    var last := records[|records| - 1];
    if |init| > 0 {
      WriteAllKeepsOnlyLast(m, init);
      WriteSmsKeepsOnlyLatest(m, init[|init| - 1], last);
    }
    WriteSmsFrame(m, last);
  }

  /** `items` after each of `records` is added in order. */
  function AddAll(items: seq<string>, records: seq<string>): seq<string>
  {
    if |records| == 0 then items else AddToSet(AddAll(items, records[..|records| - 1]), records[|records| - 1])
  }

  /** Adding a run of records yields exactly the old members and the records. */
  lemma {:induction false} AddAllSpec(items: seq<string>, records: seq<string>, x: string)
    ensures x in AddAll(items, records) <==> x in items || x in records
  {
    if |records| > 0 {
      var init := records[..|records| - 1];
      AddAllSpec(items, init, x);
      AddToSetSpec(AddAll(items, init), records[|records| - 1]);
      assert records == init + [records[|records| - 1]];
    }
  }

  /** Over a stored set, a run of writes adds every one of its records to the set. */
  lemma {:induction false} WriteAllGrowsSet(m: Prefs, records: seq<string>)
    requires SMS_SET_KEY in m && m[SMS_SET_KEY].StringSetValue?
    ensures SMS_SET_KEY in WriteAll(m, records)
    ensures WriteAll(m, records)[SMS_SET_KEY] == StringSetValue(AddAll(m[SMS_SET_KEY].items, records))
  {
    if |records| > 0 {
      var init := records[..|records| - 1];
      WriteAllGrowsSet(m, init);
      WriteSmsGrowsLoadedSet(WriteAll(m, init), records[|records| - 1]);
    }
  }

  /** On a store that holds no set, a write stores exactly the one new record. */
  lemma WriteSmsStoresRecord(m: Prefs, entry: string)
    requires SMS_SET_KEY !in m
    ensures WriteSms(m, entry) == m[SMS_JSON_KEY := StringValue(entry)]
  {
    assert AddToSet([], entry) == [entry];
  }

  /** The primary store keeps at most 20 records, all from the loaded set or the new one. */
  lemma SmsKeptBounded(items: seq<string>, entry: string)
    ensures |SmsKept(items, entry)| <= SMS_CAPACITY
    ensures forall x :: x in SmsKept(items, entry) ==> x in items || x == entry
  {
    var added := AddToSet(items, entry);
    AddToSetSpec(items, entry);
    TrimSpec(added, ReceivedAtKey, SMS_CAPACITY);
    forall x | x in SmsKept(items, entry) ensures x in items || x == entry {
      assert x in multiset(added);
    }
  }

  /**
   * `writeDebugLogToSharedPrefs`, on the namespace's contents: the set loaded
   * from "debug_logs" plus the new line, trimmed to 50, written back under
   * the same key. A failed load aborts the write.
   */
  function WriteDebugLog(m: Prefs, entry: string): (m': Prefs)
    ensures GetStringSet(m, DEBUG_KEY).None? ==> m' == m
    ensures GetStringSet(m, DEBUG_KEY).Some? ==> DEBUG_KEY in m' && m'[DEBUG_KEY].StringSetValue?
  {
    match GetStringSet(m, DEBUG_KEY)
    case None => m
    case Some(items) =>
      var added := AddToSet(items, entry);
      m[DEBUG_KEY := StringSetValue(Trim(added, DebugKey, DEBUG_CAPACITY))]
  }

  /**
   * A debug write keeps at most 50 lines, touches no other key, and keeps
   * every stored set free of duplicates.
   */
  lemma WriteDebugLogSpec(m: Prefs, entry: string)
    ensures GetStringSet(m, DEBUG_KEY).Some? ==>
              |GetStringSet(WriteDebugLog(m, entry), DEBUG_KEY).value| <= DEBUG_CAPACITY
    ensures forall k :: k != DEBUG_KEY ==>
              (k in WriteDebugLog(m, entry) <==> k in m) && (k in m ==> WriteDebugLog(m, entry)[k] == m[k])
    ensures WellFormed(m) ==> WellFormed(WriteDebugLog(m, entry))
  {
    match GetStringSet(m, DEBUG_KEY)
    case None =>
    case Some(items) =>
      var added := AddToSet(items, entry);
      AddToSetSpec(items, entry);
      TrimSpec(added, DebugKey, DEBUG_CAPACITY);
      if WellFormed(m) {
        LoadedSetDistinct(m, DEBUG_KEY);
      }
  }

  /**
   * In a well-formed namespace the stored debug set has at most 50 members:
   * the sequence that enumerates it is as long as the set it stands for.
   */
  lemma DebugSetSizeBounded(m: Prefs, entry: string)
    requires WellFormed(m) && GetStringSet(m, DEBUG_KEY).Some?
    ensures var stored := GetStringSet(WriteDebugLog(m, entry), DEBUG_KEY).value;
            |set x | x in stored| == |stored| <= DEBUG_CAPACITY
  {
    var m' := WriteDebugLog(m, entry);
    WriteDebugLogSpec(m, entry);
    LoadedSetDistinct(m', DEBUG_KEY);
    DistinctCardinality(GetStringSet(m', DEBUG_KEY).value);
  }

  /** Below capacity the debug store accumulates: the old lines and the new one are all kept. */
  lemma DebugLogAccumulates(m: Prefs, entry: string)
    requires GetStringSet(m, DEBUG_KEY).Some?
    requires |AddToSet(GetStringSet(m, DEBUG_KEY).value, entry)| <= DEBUG_CAPACITY
    ensures var items := GetStringSet(m, DEBUG_KEY).value;
            var stored := GetStringSet(WriteDebugLog(m, entry), DEBUG_KEY).value;
            forall x :: x in stored <==> x in items || x == entry
  {
    var items := GetStringSet(m, DEBUG_KEY).value;
    var added := AddToSet(items, entry);
    AddToSetSpec(items, entry);
    TrimSpec(added, DebugKey, DEBUG_CAPACITY);
    assert GetStringSet(WriteDebugLog(m, entry), DEBUG_KEY).value == added;
  }

  /** A debug line stamped later than every stored line survives the trim. */
  lemma NewestDebugLineKept(m: Prefs, entry: string)
    requires GetStringSet(m, DEBUG_KEY).Some?
    requires forall x :: x in GetStringSet(m, DEBUG_KEY).value ==> DebugKey(x) < DebugKey(entry)
    ensures entry in GetStringSet(WriteDebugLog(m, entry), DEBUG_KEY).value
  {
    var items := GetStringSet(m, DEBUG_KEY).value;
    var added := AddToSet(items, entry);
    AddToSetSpec(items, entry);
    TrimKeepsLargest(added, DebugKey, DEBUG_CAPACITY, entry);
    assert GetStringSet(WriteDebugLog(m, entry), DEBUG_KEY).value == Trim(added, DebugKey, DEBUG_CAPACITY);
  }

  /** An entry whose key is larger than every other entry's survives a trim to a positive capacity. */
  lemma TrimKeepsLargest(order: seq<string>, key: string -> int, cap: nat, e: string)
    requires cap > 0 && e in order
    requires forall x :: x in order && x != e ==> key(x) < key(e)
    ensures e in Trim(order, key, cap)
  {
    var kept := Trim(order, key, cap);
    TrimSpec(order, key, cap);
    assert e in multiset(order);
    if |order| > cap {
      var k := kept[0];
      assert k in multiset(kept);
      assert k in multiset(order);
      if k != e {
        assert key(k) < key(e);
        assert e !in multiset(order) - multiset(kept);
        assert e in multiset(kept);
      }
    }
  }
}
