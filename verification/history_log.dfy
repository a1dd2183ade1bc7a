/**
 * The inspection-history log: the CSV file `tracked_numbers.csv` seen as a
 * sequence of rows already split into fields. The first row is meant to be
 * the five-column header; every later non-empty row is one inspection record.
 * CSV quoting and the UTF-8 encoding are below this level of abstraction.
 */
module HistoryLog {

  /** One CSV row, already split into its fields. */
  type Row = seq<string>

  /** The column names written as the first row of the file. */
  const Header: Row := ["Phone Number", "Registered Region", "Original Carrier",
                        "Region Timezone", "User's IP Location"]

  /** The backing file: absent, or present with its rows in file order. */
  datatype File = Missing | Present(rows: seq<Row>)

  /** The rows a CSV reader yields for the file (none when it is absent). */
  function Contents(f: File): seq<Row>
  {
    match f
    case Missing => []
    case Present(rows) => rows
  }

  /** Every row after the first one, as the slice `all_data[1:]` takes them. */
  function DataRows(rows: seq<Row>): seq<Row>
  {
    if rows == [] then [] else rows[1..]
  }

  // ---------------------------------------------------------------------------
  // The two filters: skipping empty rows (listing) and dropping selected rows
  // (deletion). Both keep the surviving rows in their original order.
  // ---------------------------------------------------------------------------

  /** The rows that are not empty, in order. */
  function NonEmptyRows(rows: seq<Row>): (r: seq<Row>)
    ensures forall x :: multiset(r)[x] == if x == [] then 0 else multiset(rows)[x]
    ensures forall x :: x in r <==> x != [] && x in rows
    ensures forall i :: 0 <= i < |r| ==> r[i] != []
  {
    if rows == [] then []
    else
      assert rows == [rows[0]] + rows[1..];
      (if rows[0] == [] then [] else [rows[0]]) + NonEmptyRows(rows[1..])
  }

  /** The rows whose whole tuple of fields is not one of `keys`, in order. */
  function Survivors(rows: seq<Row>, keys: set<Row>): (r: seq<Row>)
    ensures forall x {:trigger multiset(r)[x]} :: multiset(r)[x] == if x in keys then 0 else multiset(rows)[x]
    ensures forall i :: 0 <= i < |r| ==> r[i] !in keys
  {
    if rows == [] then []
    else
      assert rows == [rows[0]] + rows[1..];
      (if rows[0] in keys then [] else [rows[0]]) + Survivors(rows[1..], keys)
  }

  /** Filtering a concatenation filters each part: the survivors keep their order. */
  lemma {:induction false} NonEmptyRowsConcat(a: seq<Row>, b: seq<Row>)
    ensures NonEmptyRows(a + b) == NonEmptyRows(a) + NonEmptyRows(b)
  {
    if a != [] {
      assert (a + b)[1..] == a[1..] + b;
      NonEmptyRowsConcat(a[1..], b);
    } else {
      assert a + b == b;
    }
  }

  /** Deleting from a concatenation deletes from each part: the survivors keep their order. */
  lemma {:induction false} SurvivorsConcat(a: seq<Row>, b: seq<Row>, keys: set<Row>)
    ensures Survivors(a + b, keys) == Survivors(a, keys) + Survivors(b, keys)
  {
    if a != [] {
      var head := if a[0] in keys then [] else [a[0]];
      assert (a + b)[0] == a[0];
      assert (a + b)[1..] == a[1..] + b;
      assert Survivors(a + b, keys) == head + Survivors(a[1..] + b, keys);
      SurvivorsConcat(a[1..], b, keys);
      assert Survivors(a, keys) == head + Survivors(a[1..], keys);
    } else {
      assert a + b == b;
    }
  }

  /** A key set that matches no row deletes nothing. */
  lemma {:induction false} SurvivorsUnmatched(rows: seq<Row>, keys: set<Row>)
    requires forall i :: 0 <= i < |rows| ==> rows[i] !in keys
    ensures Survivors(rows, keys) == rows
  {
    if rows != [] {
      SurvivorsUnmatched(rows[1..], keys);
    }
  }

  /** Skipping empty rows and deleting selected rows commute. */
  lemma {:induction false} NonEmptySurvivorsCommute(rows: seq<Row>, keys: set<Row>)
    ensures NonEmptyRows(Survivors(rows, keys)) == Survivors(NonEmptyRows(rows), keys)
  {
    if rows != [] {
      var head := if rows[0] in keys then [] else [rows[0]];
      calc {
        NonEmptyRows(Survivors(rows, keys));
        NonEmptyRows(head + Survivors(rows[1..], keys));
        { NonEmptyRowsConcat(head, Survivors(rows[1..], keys)); }
        NonEmptyRows(head) + NonEmptyRows(Survivors(rows[1..], keys));
        { NonEmptySurvivorsCommute(rows[1..], keys); }
        NonEmptyRows(head) + Survivors(NonEmptyRows(rows[1..]), keys);
      }
      var kept := if rows[0] == [] then [] else [rows[0]];
      calc {
        Survivors(NonEmptyRows(rows), keys);
        Survivors(kept + NonEmptyRows(rows[1..]), keys);
        { SurvivorsConcat(kept, NonEmptyRows(rows[1..]), keys); }
        Survivors(kept, keys) + Survivors(NonEmptyRows(rows[1..]), keys);
      }
      assert NonEmptyRows(head) == Survivors(kept, keys);
    }
  }

  // ---------------------------------------------------------------------------
  // The operations on the file.
  // ---------------------------------------------------------------------------

  /** `setup_csv_file`: a missing file is created holding only the header. */
  function Setup(f: File): (g: File)
    ensures f.Missing? ==> g == Present([Header])
    ensures f.Present? ==> g == f
  {
    if f.Missing? then Present([Header]) else f
  }

  /**
   * Writing one row in append mode: the file is created if it is missing (with
   * no header), the row goes after every existing row, and nothing else changes.
   */
  function Append(f: File, row: Row): (g: File)
    ensures g.Present? && |g.rows| == |Contents(f)| + 1
    ensures g.rows[..|Contents(f)|] == Contents(f) && g.rows[|Contents(f)|] == row
  {
    Present(Contents(f) + [row])
  }

  /**
   * `load_csv_data`: nothing for a missing or empty file; otherwise every row
   * after the first that is not empty, in file order.
   */
  function Listing(f: File): (r: seq<Row>)
    ensures forall i :: 0 <= i < |r| ==> r[i] != []
    ensures forall x :: x in r <==> x != [] && x in DataRows(Contents(f))
  {
    NonEmptyRows(DataRows(Contents(f)))
  }

  /**
   * `delete_selected_history` once the selection is non-empty and confirmed:
   * a missing file cannot be opened for reading and stays missing; otherwise
   * the file becomes the header followed by the old data rows whose tuple is
   * not a key. Every copy of a selected tuple goes, and only those.
   */
  function DeleteRows(f: File, keys: set<Row>): (g: File)
    ensures f.Missing? ==> g == Missing
    ensures f.Present? ==> g.Present? && |g.rows| >= 1 && g.rows[0] == Header
    ensures f.Present? ==> forall x :: multiset(g.rows[1..])[x] ==
                             if x in keys then 0 else multiset(DataRows(f.rows))[x]
  {
    match f
    case Missing => Missing
    case Present(rows) =>
      var g := Present([Header] + Survivors(DataRows(rows), keys));
      assert g.rows[1..] == Survivors(DataRows(rows), keys);
      g
  }

  /** `clear_all_history` as intended: the file holds the header and nothing else. */
  function Clear(f: File): (g: File)
    ensures g.Present? && g.rows == [Header]
    ensures Listing(g) == []
  {
    Present([Header])
  }

  /**
   * `clear_all_history` as written: opening for writing truncates (or creates)
   * the file, then the unknown codec name makes the open fail before the header
   * is written, so the file is left empty.
   */
  function ClearAsWritten(f: File): (g: File)
    ensures g.Present? && g.rows == []
    ensures Listing(g) == []
  {
    Present([])
  }

  /** Appending `recs` one after the other, in order. */
  function AppendAll(f: File, recs: seq<Row>): (g: File)
    ensures |Contents(g)| == |Contents(f)| + |recs|
  {
    if recs == [] then f else Append(AppendAll(f, recs[..|recs| - 1]), recs[|recs| - 1])
  }

  // ---------------------------------------------------------------------------
  // Properties of the log.
  // ---------------------------------------------------------------------------

  /** Setting up twice is the same as setting up once. */
  lemma SetupIdempotent(f: File)
    ensures Setup(Setup(f)) == Setup(f)
  {
  }

  /** Once the file has a first row, an appended non-empty record is listed last. */
  lemma ListingAfterAppend(f: File, row: Row)
    requires Contents(f) != [] && row != []
    ensures Listing(Append(f, row)) == Listing(f) + [row]
  {
    var rows := Contents(f);
    assert DataRows(rows + [row]) == DataRows(rows) + [row];
    NonEmptyRowsConcat(DataRows(rows), [row]);
  }

  /**
   * Round trip: appending records to a file that holds only the header, then
   * listing, yields exactly those records in insertion order.
   */
  lemma {:induction false} ListingAppendAll(recs: seq<Row>)
    requires forall i :: 0 <= i < |recs| ==> recs[i] != []
    ensures Listing(AppendAll(Clear(Missing), recs)) == recs
  {
    if recs != [] {
      var init, last := recs[..|recs| - 1], recs[|recs| - 1];
      ListingAppendAll(init);
      ListingAfterAppend(AppendAll(Clear(Missing), init), last);
      assert init + [last] == recs;
    }
  }

  /** The data rows after a deletion are the old data rows minus the keys, in order. */
  lemma DeleteKeepsOrder(rows: seq<Row>, keys: set<Row>)
    ensures DataRows(DeleteRows(Present(rows), keys).rows) == Survivors(DataRows(rows), keys)
  {
    assert ([Header] + Survivors(DataRows(rows), keys))[1..] == Survivors(DataRows(rows), keys);
  }

  /** A key set that matches no data row leaves every data row in place. */
  lemma DeleteUnmatched(rows: seq<Row>, keys: set<Row>)
    requires forall x :: x in DataRows(rows) ==> x !in keys
    ensures DataRows(DeleteRows(Present(rows), keys).rows) == DataRows(rows)
  {
    DeleteKeepsOrder(rows, keys);
    SurvivorsUnmatched(DataRows(rows), keys);
  }

  /** Deleting the same selection twice is the same as deleting it once. */
  lemma DeleteIdempotent(f: File, keys: set<Row>)
    ensures DeleteRows(DeleteRows(f, keys), keys) == DeleteRows(f, keys)
  {
    if f.Present? {
      var once := Survivors(DataRows(f.rows), keys);
      DeleteKeepsOrder(f.rows, keys);
      SurvivorsUnmatched(once, keys);
      DeleteKeepsOrder(DeleteRows(f, keys).rows, keys);
    }
  }

  /** What is listed after a deletion is what was listed before, minus the keys. */
  lemma ListingAfterDelete(f: File, keys: set<Row>)
    ensures Listing(DeleteRows(f, keys)) == Survivors(Listing(f), keys)
  {
    if f.Present? {
      DeleteKeepsOrder(f.rows, keys);
      NonEmptySurvivorsCommute(DataRows(f.rows), keys);
    }
  }

  /** After the intended clear, the next record appended is the one listed. */
  lemma ClearThenAppendListed(f: File, row: Row)
    requires row != []
    ensures Listing(Append(Clear(f), row)) == [row]
  {
    ListingAfterAppend(Clear(f), row);
  }

  /**
   * After the clear as written, the next record appended becomes the first row
   * of the file: listing treats it as the header and hides it, and the next
   * deletion, whatever it selects, rewrites the file without it.
   */
  lemma ClearAsWrittenLosesNextRecord(f: File, row: Row, keys: set<Row>)
    ensures Append(ClearAsWritten(f), row) == Present([row])
    ensures Listing(Append(ClearAsWritten(f), row)) == []
    ensures DeleteRows(Append(ClearAsWritten(f), row), keys) == Present([Header])
  {
    assert Contents(ClearAsWritten(f)) + [row] == [row];
  }
}
