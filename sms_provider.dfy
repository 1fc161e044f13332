/**
 * The system SMS content provider, seen as a table of rows, and the three
 * queries the service runs on it: the newest id, the rows newer than the
 * cursor in ascending id order, and the newest `k` rows in descending id order.
 */
module SmsProvider {
  import opened Wrappers
  import opened Text
  import opened Sorting

  /** One row of the table: `_ID`, `ADDRESS` and `BODY` (both nullable), `DATE`. */
  datatype SmsRow = SmsRow(id: Long, address: Option<string>, body: Option<string>, date: Long)

  /**
   * The table, or a provider that cannot be queried: the query throws or
   * returns a null cursor. Rows are in no particular order.
   */
  datatype Provider = Available(rows: seq<SmsRow>) | Unavailable

  /** What `sendSmsToFlutter` is handed for one row. */
  datatype SmsMessage = SmsMessage(sender: string, message: string, timestamp: string)

  function RowId(row: SmsRow): int { row.id }

  function NegatedRowId(row: SmsRow): int { -(row.id as int) }

  /** `ORDER BY _ID DESC` is an ascending sort on the negated id. */
  lemma DescendingIds(rows: seq<SmsRow>)
    requires SortedBy(rows, NegatedRowId)
    ensures forall i, j :: 0 <= i < j < |rows| ==> rows[i].id >= rows[j].id
  {
    forall i, j | 0 <= i < j < |rows| ensures rows[i].id >= rows[j].id {
      assert NegatedRowId(rows[i]) <= NegatedRowId(rows[j]);
    }
  }

  /** The selection `_ID > last`, keeping every selected row as often as it occurs. */
  function NewerThan(rows: seq<SmsRow>, last: int): (r: seq<SmsRow>)
    ensures forall x :: multiset(r)[x] == if x.id > last then multiset(rows)[x] else 0
  {
    if |rows| == 0 then []
    else
      assert rows == [rows[0]] + rows[1..];
      (if rows[0].id > last then [rows[0]] else []) + NewerThan(rows[1..], last)
  }

  /** `query(_ID > last, ORDER BY _ID ASC)`; a provider that cannot be queried gives `None`. */
  function QueryNewer(p: Provider, last: int): (r: Option<seq<SmsRow>>)
    ensures r.None? <==> p.Unavailable?
  {
    match p
    case Unavailable => None
    case Available(rows) => Some(SortBy(NewerThan(rows, last), RowId))
  }

  /**
   * The newer-row query returns exactly the rows with a larger id, each as
   * often as it is in the table, in ascending id order.
   */
  lemma QueryNewerSpec(p: Provider, last: int)
    requires p.Available?
    ensures SortedBy(QueryNewer(p, last).value, RowId)
    ensures forall x :: multiset(QueryNewer(p, last).value)[x] == if x.id > last then multiset(p.rows)[x] else 0
  {
    SortBySpec(NewerThan(p.rows, last), RowId);
  }

  /**
   * `query(ORDER BY _ID DESC LIMIT k)`: `k` rows, or all rows when there are
   * fewer; a provider that cannot be queried gives `None`.
   */
  function QueryNewest(p: Provider, k: nat): (r: Option<seq<SmsRow>>)
    ensures r.None? <==> p.Unavailable?
    ensures r.Some? ==> |r.value| == if |p.rows| <= k then |p.rows| else k
  {
    match p
    case Unavailable => None
    case Available(rows) =>
      SmallestBySpec(rows, NegatedRowId, k);
      Some(SmallestBy(rows, NegatedRowId, k))
  }

  /**
   * The newest-rows query returns rows of the table in descending id order,
   * and no row left out has a larger id than a row returned.
   */
  lemma QueryNewestSpec(p: Provider, k: nat)
    requires p.Available?
    ensures var newest := QueryNewest(p, k).value;
            && (forall i, j :: 0 <= i < j < |newest| ==> newest[i].id >= newest[j].id)
            && multiset(newest) <= multiset(p.rows)
            && (forall e, x :: e in multiset(p.rows) - multiset(newest) && x in newest ==> e.id <= x.id)
  {
    var newest := SmallestBy(p.rows, NegatedRowId, k);
    SmallestBySpec(p.rows, NegatedRowId, k);
    DescendingIds(newest);
    NegatedBound(p.rows, newest);
  }

  /** A bound on negated ids is the reverse bound on ids. */
  lemma NegatedBound(rows: seq<SmsRow>, newest: seq<SmsRow>)
    requires forall e, x :: e in multiset(rows) - multiset(newest) && x in newest ==> NegatedRowId(x) <= NegatedRowId(e)
    ensures forall e, x :: e in multiset(rows) - multiset(newest) && x in newest ==> e.id <= x.id
  {
    forall e, x | e in multiset(rows) - multiset(newest) && x in newest ensures e.id <= x.id {
      assert NegatedRowId(x) <= NegatedRowId(e);
    }
  }

  /**
   * `getLastSmsId` / `getLatestSmsId`: the largest id in the table, or -1
   * when the table is empty or cannot be queried.
   */
  function LatestSmsId(p: Provider): (r: Long)
    ensures p.Unavailable? || |p.rows| == 0 ==> r == -1
    ensures p.Available? && |p.rows| > 0 ==>
              (exists i :: 0 <= i < |p.rows| && p.rows[i].id == r) &&
              (forall i :: 0 <= i < |p.rows| ==> p.rows[i].id <= r)
  {
    match QueryNewest(p, 1)
    case None => -1
    case Some(newest) =>
      if |newest| == 0 then -1
      else
        QueryNewestSpec(p, 1);
        var top := newest[0];
        assert top in multiset(p.rows);
        forall i | 0 <= i < |p.rows| ensures p.rows[i].id <= top.id {
          if p.rows[i] != top {
            assert p.rows[i] in multiset(p.rows) - multiset(newest);
          }
        }
        top.id
  }

  /** A row as handed to `sendSmsToFlutter`: null address "Unknown", null body "", date as text. */
  function Normalize(row: SmsRow): (m: SmsMessage)
    ensures m.sender == row.address.GetOr("Unknown")
    ensures m.message == row.body.GetOr("")
  {
    SmsMessage(row.address.GetOr("Unknown"), row.body.GetOr(""), FormatLong(row.date))
  }

  /** The timestamp handed off parses back to the row's `date`. */
  lemma NormalizeTimestamp(row: SmsRow)
    ensures ParseLong(Normalize(row).timestamp) == Some(row.date)
  {
    ParseFormatLong(row.date);
  }

  /** The hand-offs for a run of rows, in the same order. */
  function NormalizeAll(rows: seq<SmsRow>): (ms: seq<SmsMessage>)
    ensures |ms| == |rows|
  {
    if |rows| == 0 then [] else NormalizeAll(rows[..|rows| - 1]) + [Normalize(rows[|rows| - 1])]
  }

  /** The `i`-th hand-off is the `i`-th row, normalised. */
  lemma {:induction false} NormalizeAllAt(rows: seq<SmsRow>, i: nat)
    requires i < |rows|
    ensures NormalizeAll(rows)[i] == Normalize(rows[i])
    decreases |rows|
  {
    if i < |rows| - 1 {
      NormalizeAllAt(rows[..|rows| - 1], i);
    }
  }

  /**
   * Handing off row `i` appends its message to what the rows before it
   * left, giving what the first `j == i + 1` rows leave.
   */
  lemma NormalizeAllSnoc(before: seq<SmsMessage>, rows: seq<SmsRow>, i: nat, j: nat,
                         done: seq<SmsMessage>, after: seq<SmsMessage>)
    requires i < |rows| && j == i + 1
    requires done == before + NormalizeAll(rows[..i])
    requires after == done + [Normalize(rows[i])]
    ensures after == before + NormalizeAll(rows[..j])
  {
    assert rows[..j][..i] == rows[..i];
  }

  /** The cursor after walking `rows`: the id of the last one, or `last` when there is none. */
  function CursorAfter(last: Long, rows: seq<SmsRow>): Long
  {
    if |rows| == 0 then last else rows[|rows| - 1].id
  }

  /**
   * After a check, the cursor does not go back, it is the largest id handed
   * off, and a second query from it (the table unchanged) finds nothing.
   */
  lemma CheckAdvancesCursor(p: Provider, last: Long)
    requires p.Available?
    ensures var rows := QueryNewer(p, last).value;
            var next := CursorAfter(last, rows);
            && last <= next
            && (forall i :: 0 <= i < |rows| ==> rows[i].id <= next)
            && (|rows| > 0 ==> exists i :: 0 <= i < |rows| && rows[i].id == next)
            && QueryNewer(p, next) == Some([])
  {
    var rows := QueryNewer(p, last).value;
    var next := CursorAfter(last, rows);
    QueryNewerSpec(p, last);
    forall i | 0 <= i < |rows| ensures last < rows[i].id {
      assert rows[i] in multiset(rows);
    }
    CursorIsLargest(rows, last);
    forall x: SmsRow | x.id > next ensures multiset(p.rows)[x] <= multiset(rows)[x] {
    }
    NothingNewer(p.rows, next, rows);
  }

  /** Along ascending rows newer than `last`, the cursor ends at the largest id. */
  lemma CursorIsLargest(rows: seq<SmsRow>, last: Long)
    requires SortedBy(rows, RowId)
    requires forall i :: 0 <= i < |rows| ==> last < rows[i].id
    ensures last <= CursorAfter(last, rows)
    ensures forall i :: 0 <= i < |rows| ==> rows[i].id <= CursorAfter(last, rows)
    ensures |rows| > 0 ==> rows[|rows| - 1].id == CursorAfter(last, rows)
  {
    forall i | 0 <= i < |rows| ensures rows[i].id <= CursorAfter(last, rows) {
      assert RowId(rows[i]) <= RowId(rows[|rows| - 1]) || i == |rows| - 1;
    }
  }

  /** No row is newer than a cursor that bounds every newer row that was found. */
  lemma NothingNewer(rows: seq<SmsRow>, next: int, found: seq<SmsRow>)
    requires forall i :: 0 <= i < |found| ==> found[i].id <= next
    requires forall x: SmsRow :: x.id > next ==> multiset(rows)[x] <= multiset(found)[x]
    ensures NewerThan(rows, next) == []
  {
    var r := NewerThan(rows, next);
    forall x: SmsRow | x.id > next ensures x !in found {
    }
    assert multiset(r) == multiset{};
  }

  /** The cursor set at startup leaves every row that is already in the table behind. */
  lemma StartupSkipsExisting(p: Provider)
    requires p.Available?
    ensures QueryNewer(p, LatestSmsId(p)) == Some([])
  {
    var top := LatestSmsId(p);
    forall x: SmsRow | x.id > top ensures x !in p.rows {
    }
    NothingNewer(p.rows, top, []);
  }
}
