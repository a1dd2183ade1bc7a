/**
 * The application object: the history file, the number entry, the four
 * result fields, the password entry, whether the history tab has been
 * unlocked, and the rows shown in the history table. Dialogs are modelled by
 * their answers (`confirmed`); speech output, widgets and styling are omitted.
 */
module Tracker {
  import opened HistoryLog
  import opened Inspection

  /** The fixed administrator password. */
  const AdminPassword := "Jayesh5604"

  /** The set of row tuples the selected table items carry. */
  function SelectedKeys(selection: seq<Row>): (keys: set<Row>)
    ensures forall x :: x in keys <==> x in selection
    ensures keys == {} <==> selection == []
  {
    var keys := set x | x in selection;
    assert selection != [] ==> selection[0] in keys;
    keys
  }

  class PhoneTracker {
    var file: File
    var entry: string
    var location: string
    var carrierText: string
    var timezoneText: string
    var userLocText: string
    var password: string
    var unlocked: bool
    var tree: seq<Row>

    /**
     * A display invariant every method keeps: the history table is empty until
     * login, and never shows an empty row. No other contract relies on it.
     */
    ghost predicate Valid()
      reads this
    {
      (!unlocked ==> tree == []) &&
      forall i :: 0 <= i < |tree| ==> tree[i] != []
    }

    /** The four result fields as one value. */
    function Shown(): Display
      reads this
    {
      Display(location, carrierText, timezoneText, userLocText)
    }

    /** The window as built: blank results, "+91" in the entry, history locked. */
    constructor (disk: File)
      ensures Valid()
      ensures file == disk && entry == DefaultEntry && Shown() == BlankDisplay
      ensures password == "" && !unlocked && tree == []
    {
      file := disk;
      entry := DefaultEntry;
      location, carrierText, timezoneText, userLocText := BlankText, BlankText, BlankText, BlankText;
      password := "";
      unlocked := false;
      tree := [];
    }

    /** The user edits the number entry. */
    method TypeNumber(text: string)
      modifies this`entry
      ensures entry == text
    {
      entry := text;
    }

    /** The user edits the password entry. */
    method TypePassword(text: string)
      modifies this`password
      ensures password == text
    {
      password := text;
    }

    /** `setup_csv_file`, run once before the window is built. */
    method SetupCsvFile()
      modifies this`file
      ensures file == Setup(old(file))
      ensures old(file).Present? ==> file == old(file)
      ensures file.Present?
    {
      if file.Missing? {
        file := Present([Header]);
      }
    }

    /** `clear_fields`: the entry back to "+91" and every result field blank. */
    method ClearFields()
      modifies this`entry, this`location, this`carrierText, this`timezoneText, this`userLocText
      ensures entry == DefaultEntry && Shown() == BlankDisplay
    {
      entry := "";
      entry := DefaultEntry;
      location := BlankText;
      carrierText := BlankText;
      timezoneText := BlankText;
      userLocText := BlankText;
    }

    /** The except branch of `track_number`: every result field shows the error text. */
    method ShowError()
      modifies this`location, this`carrierText, this`timezoneText, this`userLocText
      ensures Shown() == ErrorDisplay
    {
      location := ErrorText;
      carrierText := ErrorText;
      timezoneText := ErrorText;
      userLocText := ErrorText;
    }

    /**
     * `load_csv_data`: empty the table item by item, then insert every
     * non-empty row after the first one. A missing file and a file with no
     * rows at all leave the table empty.
     */
    method LoadCsvData()
      requires Valid() && unlocked
      modifies this`tree
      ensures Valid()
      ensures tree == Listing(file)
    {
      while tree != []
        decreases |tree|
      {
        tree := tree[1..];
      }
      match file {
        case Missing =>
        case Present(rows) =>
          if rows != [] {
            var i := 1;
            while i < |rows|
              invariant 1 <= i <= |rows|
              invariant tree == NonEmptyRows(rows[1..i])
            {
              NonEmptyRowsConcat(rows[1..i], [rows[i]]);
              assert rows[1..i + 1] == rows[1..i] + [rows[i]];
              if rows[i] != [] {
                tree := tree + [rows[i]];
              }
              i := i + 1;
            }
            assert rows[1..i] == DataRows(rows);
          }
      }
    }

    /**
     * `check_admin_login`: the right password unlocks the history tab and
     * fills the table; any other text is erased from the password entry.
     */
    method CheckAdminLogin()
      requires Valid()
      modifies this`unlocked, this`tree, this`password
      ensures Valid()
      ensures unlocked <==> old(unlocked) || old(password) == AdminPassword
      ensures old(password) == AdminPassword ==> password == old(password) && tree == Listing(file)
      ensures old(password) != AdminPassword ==> password == "" && tree == old(tree)
    {
      if password == AdminPassword {
        unlocked := true;
        LoadCsvData();
      } else {
        password := "";
      }
    }

    /**
     * `track_number`, given the lookup's answer, the flag emoji, the IP
     * location text and whether the append raises: the results are shown
     * first, then the record is appended; any failure ends with the error
     * display and nothing appended.
     */
    method TrackNumber(lookup: Lookup, flag: string, userLoc: string, appendFails: bool)
      modifies this`file, this`location, this`carrierText, this`timezoneText, this`userLocText
      ensures match Inspect(old(entry), lookup, flag, userLoc, appendFails)
              case Untouched => Shown() == old(Shown()) && file == old(file)
              case Failed => Shown() == ErrorDisplay && file == old(file)
              case Saved(shown, record) => Shown() == shown && file == Append(old(file), record)
    {
      var number := entry;
      if number == "" {
        return;
      }
      if lookup.Resolved? {
        var region := OrNotAvailable(lookup.region);
        var simCarrier := OrNotAvailable(lookup.carrier);
        var timeZones := OrNotAvailable(JoinZones(lookup.zones));
        location := region + " " + flag;
        carrierText := simCarrier;
        timezoneText := timeZones;
        userLocText := userLoc;
        if appendFails {
          ShowError();
        } else {
          file := Append(file, [number, region, simCarrier, timeZones, userLoc]);
        }
      } else {
        ShowError();
      }
    }

    /**
     * `delete_selected_history`: with a non-empty selection that the user
     * confirms, remove every data row equal to a selected row and refresh the
     * table; a missing file is reported and nothing changes.
     */
    method DeleteSelectedHistory(selection: seq<Row>, confirmed: bool)
      requires Valid() && unlocked
      modifies this`file, this`tree
      ensures Valid()
      ensures selection == [] || !confirmed ==> file == old(file) && tree == old(tree)
      ensures selection != [] && confirmed ==> file == DeleteRows(old(file), SelectedKeys(selection))
      ensures selection != [] && confirmed && old(file).Present? ==> tree == Listing(file)
      ensures (selection != [] && confirmed && old(file).Present? && old(tree) == Listing(old(file)))
                ==> tree == Survivors(old(tree), SelectedKeys(selection))
      ensures old(file).Missing? ==> file == old(file) && tree == old(tree)
    {
      if selection == [] {
        return;
      }
      if !confirmed {
        return;
      }
      var keys := SelectedKeys(selection);
      match file {
        case Missing =>
        case Present(allData) =>
          var rowsToKeep := Survivors(DataRows(allData), keys);
          file := Present([Header] + rowsToKeep);
          ListingAfterDelete(old(file), keys);
          LoadCsvData();
      }
    }

    /** `clear_all_history` as intended: on confirmation, only the header is left. */
    method ClearAllHistory(confirmed: bool)
      requires Valid() && unlocked
      modifies this`file, this`tree
      ensures Valid()
      ensures confirmed ==> file == Present([Header]) && tree == []
      ensures !confirmed ==> file == old(file) && tree == old(tree)
    {
      if !confirmed {
        return;
      }
      file := Clear(file);
      LoadCsvData();
    }

    /**
     * `clear_all_history` as written: on confirmation the file is truncated,
     * the unknown codec name raises before the header is written, and the
     * error is reported without refreshing the table.
     */
    method ClearAllHistoryAsWritten(confirmed: bool)
      requires Valid() && unlocked
      modifies this`file
      ensures Valid()
      ensures confirmed ==> file == Present([]) && Listing(file) == []
      ensures !confirmed ==> file == old(file)
    {
      if !confirmed {
        return;
      }
      file := ClearAsWritten(file);
    }
  }
}
