/**
 * The background service's change detector and delivery relay: a cursor
 * over the SMS table, the hand-off of each new row to the consumer, and the
 * fallback write of every hand-off to the primary store.
 */
module SmsMonitor {
  import opened Wrappers
  import opened Text
  import opened Sorting
  import opened SmsProvider
  import opened BoundedStore

  /** Rows the count==0 fallback reads for its log. */
  const RECENT_CHECK_LIMIT: nat := 5
  /** Rows the bulk rescan re-delivers. */
  const RESCAN_LIMIT: nat := 10

  class SmsMonitorService {
    /** The high-water mark: the largest row id handed off so far. */
    var lastSmsId: Long
    /** Whether a method channel to the consumer is held. */
    var hasChannel: bool
    /** Preferences namespace "sms_data". */
    var smsData: Prefs
    /** Preferences namespace "sms_debug_logs". */
    var debugLogs: Prefs

    /** Every call of `sendSmsToFlutter`, in order. */
    ghost var delivered: seq<SmsMessage>
    /** The `onSmsReceived` calls on the channel that did not throw. */
    ghost var liveCalls: seq<SmsMessage>
    /** The `debugLog` calls on the channel that did not throw. */
    ghost var liveDebugLogs: seq<string>

    ghost predicate Valid()
      reads this
    {
      WellFormed(smsData) && WellFormed(debugLogs)
    }

    /**
     * A fresh service over the preferences left by earlier runs: the cursor
     * starts at -1 and no channel is held.
     */
    constructor (smsData: Prefs, debugLogs: Prefs)
      requires WellFormed(smsData) && WellFormed(debugLogs)
      ensures Valid()
      ensures lastSmsId == -1 && !hasChannel
      ensures this.smsData == smsData && this.debugLogs == debugLogs
      ensures delivered == [] && liveCalls == [] && liveDebugLogs == []
    {
      lastSmsId := -1;
      hasChannel := false;
      this.smsData := smsData;
      this.debugLogs := debugLogs;
      delivered := [];
      liveCalls := [];
      liveDebugLogs := [];
    }

    /** `setupMethodChannel`: takes a channel when the engine is in the cache, else keeps what it had. */
    method SetupMethodChannel(engineCached: bool)
      modifies this`hasChannel
      ensures hasChannel == (old(hasChannel) || engineCached)
    {
      if engineCached {
        hasChannel := true;
      }
    }

    /**
     * `startSmsMonitoring`: sets the cursor to the newest id in the table and
     * runs one check, which on the same table hands off nothing.
     */
    method StartSmsMonitoring(p: Provider, engineCached: bool, invokeOk: bool, now: Long)
      requires Valid()
      modifies this
      ensures Valid()
      ensures lastSmsId == LatestSmsId(p)
      ensures delivered == old(delivered) && liveCalls == old(liveCalls)
      ensures hasChannel == old(hasChannel)
      ensures smsData == old(smsData)
    {
      lastSmsId := LatestSmsId(p);
      if p.Available? {
        StartupSkipsExisting(p);
      }
      CheckForNewSms(p, engineCached, invokeOk, now);
    }

    /**
     * `writeSmsToSharedPrefs`: stamps the record with the time `now`, adds it
     * to the set loaded from "sms_messages" (in place, when the key holds
     * one), trims to 20 by `received_at`, and writes the joined records to
     * "sms_messages_json".
     */
    method WriteSmsToSharedPrefs(sender: string, message: string, timestamp: string, now: Long)
      requires Valid()
      modifies this`smsData
      ensures Valid()
      ensures smsData == WriteSms(old(smsData), EncodeSms(sender, message, timestamp, now))
    {
      var existing := GetStringSet(smsData, SMS_SET_KEY);
      if existing.Some? {
        var record := EncodeSms(sender, message, timestamp, now);
        var added := AddToSet(existing.value, record);
        if SMS_SET_KEY in smsData {
          smsData := smsData[SMS_SET_KEY := StringSetValue(added)];
        }
        var finalSet := Trim(added, ReceivedAtKey, SMS_CAPACITY);
        smsData := smsData[SMS_JSON_KEY := StringValue(JoinWith(finalSet, RECORD_SEPARATOR))];
      }
      WriteSmsFrame(old(smsData), EncodeSms(sender, message, timestamp, now));
    }

    /**
     * `writeDebugLogToSharedPrefs`: adds the line `now: message` to the set
     * under "debug_logs", trims to 50 by the leading time, and writes it back.
     */
    method WriteDebugLogToSharedPrefs(message: string, now: Long)
      requires Valid()
      modifies this`debugLogs
      ensures Valid()
      ensures debugLogs == WriteDebugLog(old(debugLogs), DebugEntry(now, message))
    {
      var existing := GetStringSet(debugLogs, DEBUG_KEY);
      if existing.Some? {
        var added := AddToSet(existing.value, DebugEntry(now, message));
        var finalSet := Trim(added, DebugKey, DEBUG_CAPACITY);
        debugLogs := debugLogs[DEBUG_KEY := StringSetValue(finalSet)];
      }
      WriteDebugLogSpec(old(debugLogs), DebugEntry(now, message));
    }

    /**
     * `sendDebugLogToFlutter`: sends `SERVICE: message` on the channel if one
     * is held, and writes that line to the debug store; if the channel call
     * throws, the line written is `SERVICE ERROR: ` and the exception's text.
     */
    method SendDebugLogToFlutter(message: string, invokeOk: bool, errorText: string, now: Long)
      requires Valid()
      modifies this`debugLogs, this`liveDebugLogs
      ensures Valid()
      ensures liveDebugLogs == old(liveDebugLogs) + (if hasChannel && invokeOk then ["SERVICE: " + message] else [])
      ensures debugLogs == WriteDebugLog(old(debugLogs),
                             DebugEntry(now, if hasChannel && !invokeOk then "SERVICE ERROR: " + errorText
                                             else "SERVICE: " + message))
    {
      if hasChannel && !invokeOk {
        WriteDebugLogToSharedPrefs("SERVICE ERROR: " + errorText, now);
      } else {
        if hasChannel {
          liveDebugLogs := liveDebugLogs + ["SERVICE: " + message];
        }
        WriteDebugLogToSharedPrefs("SERVICE: " + message, now);
      }
    }

    /**
     * `sendSmsToFlutter`: takes a channel if none is held and the engine is
     * cached, calls `onSmsReceived` on it (a throwing call is logged and
     * ignored), and then always writes the record to the primary store.
     */
    method SendSmsToFlutter(sender: string, message: string, timestamp: string,
                            engineCached: bool, invokeOk: bool, now: Long)
      requires Valid()
      modifies this
      ensures Valid()
      ensures delivered == old(delivered) + [SmsMessage(sender, message, timestamp)]
      ensures hasChannel == (old(hasChannel) || engineCached)
      ensures liveCalls == old(liveCalls) + (if hasChannel && invokeOk then [SmsMessage(sender, message, timestamp)] else [])
      ensures smsData == WriteSms(old(smsData), EncodeSms(sender, message, timestamp, now))
      ensures lastSmsId == old(lastSmsId)
    {
      var sms := SmsMessage(sender, message, timestamp);
      delivered := delivered + [sms];
      if !hasChannel {
        SetupMethodChannel(engineCached);
      }
      if hasChannel {
        if invokeOk {
          liveCalls := liveCalls + [sms];
        }
      }
      WriteSmsToSharedPrefs(sender, message, timestamp, now);
    }

    /**
     * `checkForNewSms`: hands off every row newer than the cursor, in
     * ascending id order, moving the cursor to each row's id after its
     * hand-off. When there is none it runs the read-only recent check; when
     * the table cannot be queried nothing changes.
     */
    method CheckForNewSms(p: Provider, engineCached: bool, invokeOk: bool, now: Long)
      requires Valid()
      modifies this
      ensures Valid()
      ensures QueryNewer(p, old(lastSmsId)).None? ==>
                lastSmsId == old(lastSmsId) && delivered == old(delivered) && smsData == old(smsData) &&
                hasChannel == old(hasChannel) && liveCalls == old(liveCalls)
      ensures QueryNewer(p, old(lastSmsId)).Some? ==>
                var rows := QueryNewer(p, old(lastSmsId)).value;
                && delivered == old(delivered) + NormalizeAll(rows)
                && lastSmsId == CursorAfter(old(lastSmsId), rows)
                && hasChannel == (old(hasChannel) || (engineCached && |rows| > 0))
                && liveCalls == old(liveCalls) + (if (old(hasChannel) || engineCached) && invokeOk
                                                  then NormalizeAll(rows) else [])
                && smsData == WriteRows(old(smsData), rows, now)
    {
      var query := QueryNewer(p, lastSmsId);
      if query.Some? {
        var rows := query.value;
        if |rows| == 0 {
          var _ := CheckRecentSms(p);
        } else {
          HandOffAll(rows, engineCached, invokeOk, now, true);
        }
      }
    }

    /**
     * One row of a scan: reads its columns, hands the message off, and, when
     * `advance` holds, moves the cursor to the row's id.
     */
    method HandOffRow(row: SmsRow, engineCached: bool, invokeOk: bool, now: Long, advance: bool)
      requires Valid()
      modifies this
      ensures Valid()
      ensures delivered == old(delivered) + [Normalize(row)]
      ensures lastSmsId == if advance then row.id else old(lastSmsId)
      ensures hasChannel == (old(hasChannel) || engineCached)
      ensures hasChannel && invokeOk ==> liveCalls == old(liveCalls) + [Normalize(row)]
      ensures !(hasChannel && invokeOk) ==> liveCalls == old(liveCalls)
      ensures smsData == WriteSms(old(smsData), SmsRecord(row, now))
    {
      var sms := Normalize(row);
      assert SmsMessage(sms.sender, sms.message, sms.timestamp) == sms;
      SendSmsToFlutter(sms.sender, sms.message, sms.timestamp, engineCached, invokeOk, now);
      if advance {
        lastSmsId := row.id;
      }
    }

    /**
     * The loop shared by the new-row check and the bulk rescan: hands off
     * each row in order, and, when `advance` holds, moves the cursor to it.
     */
    method HandOffAll(rows: seq<SmsRow>, engineCached: bool, invokeOk: bool, now: Long, advance: bool)
      requires Valid()
      modifies this
      ensures Valid()
      ensures delivered == old(delivered) + NormalizeAll(rows)
      ensures lastSmsId == if advance then CursorAfter(old(lastSmsId), rows) else old(lastSmsId)
      ensures hasChannel == (old(hasChannel) || (engineCached && |rows| > 0))
      ensures (old(hasChannel) || engineCached) && invokeOk ==> liveCalls == old(liveCalls) + NormalizeAll(rows)
      ensures !((old(hasChannel) || engineCached) && invokeOk) ==> liveCalls == old(liveCalls)
      ensures smsData == WriteRows(old(smsData), rows, now)
    {
      var live := (hasChannel || engineCached) && invokeOk;
      ghost var delivered0, liveCalls0, smsData0, lastSmsId0, hasChannel0 := delivered, liveCalls, smsData, lastSmsId, hasChannel;
      var i := 0;
      while i < |rows|
        invariant 0 <= i <= |rows|
        invariant Valid()
        invariant delivered == delivered0 + NormalizeAll(rows[..i])
        invariant lastSmsId == if advance && i > 0 then rows[i - 1].id else lastSmsId0
        invariant hasChannel == (hasChannel0 || (engineCached && i > 0))
        invariant live ==> liveCalls == liveCalls0 + NormalizeAll(rows[..i])
        invariant !live ==> liveCalls == liveCalls0
        invariant smsData == WriteRows(smsData0, rows[..i], now)
      {
        ghost var k, sent, calls, before := i, delivered, liveCalls, smsData;
        HandOffRow(rows[i], engineCached, invokeOk, now, advance);
        i := i + 1;
        NormalizeAllSnoc(delivered0, rows, k, i, sent, delivered);
        if live {
          NormalizeAllSnoc(liveCalls0, rows, k, i, calls, liveCalls);
        }
        WriteRowsSnoc(smsData0, rows, k, i, now, before, smsData);
      }
      assert rows[..i] == rows;
    }

    /**
     * `checkRecentSms`: reads the 5 newest rows, as handed to the log, and
     * changes nothing: no hand-off and no cursor move.
     */
    method CheckRecentSms(p: Provider) returns (seen: seq<SmsMessage>)
      ensures QueryNewest(p, RECENT_CHECK_LIMIT).None? ==> seen == []
      ensures QueryNewest(p, RECENT_CHECK_LIMIT).Some? ==> seen == NormalizeAll(QueryNewest(p, RECENT_CHECK_LIMIT).value)
      ensures |seen| <= RECENT_CHECK_LIMIT
    {
      seen := [];
      var query := QueryNewest(p, RECENT_CHECK_LIMIT);
      if query.Some? {
        var rows := query.value;
        var i := 0;
        while i < |rows|
          invariant 0 <= i <= |rows|
          invariant seen == NormalizeAll(rows[..i])
        {
          ghost var k, prev := i, seen;
          seen := seen + [Normalize(rows[i])];
          i := i + 1;
          NormalizeAllSnoc([], rows, k, i, prev, seen);
        }
        assert rows[..i] == rows;
      }
    }

    /**
     * `checkAllRecentSms`: hands off the 10 newest rows again, newest first,
     * whatever the cursor, and leaves the cursor where it was.
     */
    method CheckAllRecentSms(p: Provider, engineCached: bool, invokeOk: bool, now: Long)
      requires Valid()
      modifies this
      ensures Valid()
      ensures lastSmsId == old(lastSmsId)
      ensures QueryNewest(p, RESCAN_LIMIT).None? ==>
                delivered == old(delivered) && smsData == old(smsData) && hasChannel == old(hasChannel) &&
                liveCalls == old(liveCalls)
      ensures QueryNewest(p, RESCAN_LIMIT).Some? ==>
                var rows := QueryNewest(p, RESCAN_LIMIT).value;
                && delivered == old(delivered) + NormalizeAll(rows)
                && hasChannel == (old(hasChannel) || (engineCached && |rows| > 0))
                && liveCalls == old(liveCalls) + (if (old(hasChannel) || engineCached) && invokeOk
                                                  then NormalizeAll(rows) else [])
                && smsData == WriteRows(old(smsData), rows, now)
    {
      var query := QueryNewest(p, RESCAN_LIMIT);
      if query.Some? {
        HandOffAll(query.value, engineCached, invokeOk, now, false);
      }
    }
  }

  /** The primary-store record written for a row handed off at time `now`. */
  function SmsRecord(row: SmsRow, now: Long): string
  {
    var sms := Normalize(row);
    EncodeSms(sms.sender, sms.message, sms.timestamp, now)
  }

  /** The primary store after the records of `rows` are written in order at time `now`. */
  function WriteRows(m: Prefs, rows: seq<SmsRow>, now: Long): Prefs
  {
    if |rows| == 0 then m else WriteSms(WriteRows(m, rows[..|rows| - 1], now), SmsRecord(rows[|rows| - 1], now))
  }

  /** One more row of a scan: the store after it is the fold over one more row. */
  lemma WriteRowsSnoc(m0: Prefs, rows: seq<SmsRow>, i: nat, j: nat, now: Long, before: Prefs, after: Prefs)
    requires i < |rows| && j == i + 1
    requires before == WriteRows(m0, rows[..i], now)
    requires after == WriteSms(before, SmsRecord(rows[i], now))
    ensures after == WriteRows(m0, rows[..j], now)
  {
    assert rows[..j][..i] == rows[..i];
  }

  /** The records a scan of `rows` at time `now` writes, in order. */
  function SmsRecords(rows: seq<SmsRow>, now: Long): (records: seq<string>)
    ensures |records| == |rows|
  {
    if |rows| == 0 then [] else SmsRecords(rows[..|rows| - 1], now) + [SmsRecord(rows[|rows| - 1], now)]
  }

  /** Record `k` of a scan is the record of row `k`. */
  lemma {:induction false} SmsRecordsAt(rows: seq<SmsRow>, now: Long, k: nat)
    requires k < |rows|
    ensures SmsRecords(rows, now)[k] == SmsRecord(rows[k], now)
  {
    if k < |rows| - 1 {
      SmsRecordsAt(rows[..|rows| - 1], now, k);
    }
  }

  /** A scan's store is the record-level fold over the scan's records. */
  lemma {:induction false} WriteRowsIsWriteAll(m: Prefs, rows: seq<SmsRow>, now: Long)
    ensures WriteRows(m, rows, now) == WriteAll(m, SmsRecords(rows, now))
  {
    if |rows| > 0 {
      var init := rows[..|rows| - 1];
      WriteRowsIsWriteAll(m, init, now);
      WriteAllSnoc(m, SmsRecords(init, now), SmsRecord(rows[|rows| - 1], now));
    }
  }

  /**
   * A scan over a namespace without a stored "sms_messages" set leaves what
   * one write of its last row alone leaves: earlier rows of the same scan
   * are not kept in the primary store.
   */
  lemma WriteRowsKeepsOnlyLast(m: Prefs, rows: seq<SmsRow>, now: Long)
    requires SMS_SET_KEY !in m && |rows| > 0
    ensures WriteRows(m, rows, now) == WriteSms(m, SmsRecord(rows[|rows| - 1], now))
  {
    WriteRowsIsWriteAll(m, rows, now);
    WriteAllKeepsOnlyLast(m, SmsRecords(rows, now));
    SmsRecordsAt(rows, now, |rows| - 1);
  }

  /**
   * A scan over a namespace whose "sms_messages" key holds a set adds every
   * row's record to that set.
   */
  lemma WriteRowsGrowsSet(m: Prefs, rows: seq<SmsRow>, now: Long, k: nat)
    requires SMS_SET_KEY in m && m[SMS_SET_KEY].StringSetValue?
    requires k < |rows|
    ensures SMS_SET_KEY in WriteRows(m, rows, now)
    ensures WriteRows(m, rows, now)[SMS_SET_KEY] == StringSetValue(AddAll(m[SMS_SET_KEY].items, SmsRecords(rows, now)))
    ensures SmsRecord(rows[k], now) in WriteRows(m, rows, now)[SMS_SET_KEY].items
  {
    WriteRowsIsWriteAll(m, rows, now);
    WriteAllGrowsSet(m, SmsRecords(rows, now));
    SmsRecordsAt(rows, now, k);
    AddAllSpec(m[SMS_SET_KEY].items, SmsRecords(rows, now), SmsRecord(rows[k], now));
  }
}
