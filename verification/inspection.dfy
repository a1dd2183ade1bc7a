/**
 * One inspection of a phone number: how the numbering-plan lookup's answer is
 * turned into the four displayed fields and the five-field history record.
 * The lookup itself, the IP geolocation and the flag emoji are inputs.
 */
module Inspection {
  import opened HistoryLog

  /** What an empty region, carrier or time-zone answer is shown and stored as. */
  const NotAvailable := "N/A"
  /** What every display field shows after a failed inspection. */
  const ErrorText := "-- Error --"
  /** What every display field shows at start-up and after CLEAR. */
  const BlankText := "-- N/A --"
  /** The text the number entry starts with and is reset to. */
  const DefaultEntry := "+91"
  /** Placed between two time-zone names. */
  const ZoneSeparator := ", "

  /**
   * The answer of the numbering-plan library for one input. `Unparseable` is a
   * parse exception, `InvalidNumber` a number the validity check rejects, and
   * `LibraryFault` any other exception raised before the display is updated
   * (the lookup calls or the IP lookup failing in a way it does not catch).
   */
  datatype Lookup =
    | Unparseable
    | InvalidNumber
    | LibraryFault
    | Resolved(region: string, carrier: string, zones: seq<string>)

  /** The four result fields of the inspector tab. */
  datatype Display = Display(location: string, carrier: string, timezone: string, userLoc: string)

  const ErrorDisplay := Display(ErrorText, ErrorText, ErrorText, ErrorText)
  const BlankDisplay := Display(BlankText, BlankText, BlankText, BlankText)

  /**
   * What one press of INSPECT does: nothing for an empty entry, the error
   * display with nothing stored, or a display shown and a record stored.
   */
  datatype Outcome = Untouched | Failed | Saved(shown: Display, record: Row)

  /** Python's `s or "N/A"`: an empty answer becomes the sentinel. */
  function OrNotAvailable(s: string): (r: string)
    ensures r != ""
    ensures s != "" ==> r == s
    ensures s == "" ==> r == NotAvailable
  {
    if s == "" then NotAvailable else s
  }

  /** Python's `", ".join(zones)`. */
  function JoinZones(zones: seq<string>): (r: string)
    ensures r == "" <==> zones == [] || zones == [""]
    ensures |zones| == 1 ==> r == zones[0]
    ensures |zones| >= 2 ==> |r| >= |ZoneSeparator|
  {
    if |zones| == 0 then ""
    else if |zones| == 1 then zones[0]
    else zones[0] + ZoneSeparator + JoinZones(zones[1..])
  }

  /** Joining one more zone on the right puts the separator before it. */
  lemma {:induction false} JoinZonesSnoc(zones: seq<string>, z: string)
    requires zones != []
    ensures JoinZones(zones + [z]) == JoinZones(zones) + ZoneSeparator + z
  {
    if |zones| >= 2 {
      assert (zones + [z])[1..] == zones[1..] + [z];
      JoinZonesSnoc(zones[1..], z);
    }
  }

  /** The time-zone field: the joined names, or the sentinel when that is empty. */
  function TimeZoneText(zones: seq<string>): (r: string)
    ensures r != ""
    ensures zones == [] || zones == [""] ==> r == NotAvailable
    ensures |zones| == 1 && zones[0] != "" ==> r == zones[0]
    ensures |zones| >= 2 ==> r == JoinZones(zones)
  {
    OrNotAvailable(JoinZones(zones))
  }

  /**
   * The record appended to the history: the number as typed, the defaulted
   * region, carrier and time zones (the region without the flag) and the IP location.
   */
  function Record(number: string, region: string, carrier: string, zones: seq<string>,
                  userLoc: string): (r: Row)
    ensures |r| == |Header|
    ensures r[0] == number && r[4] == userLoc
    ensures r[1] != "" && r[2] != "" && r[3] != ""
    ensures region != "" ==> r[1] == region
    ensures region == "" ==> r[1] == NotAvailable
    ensures carrier != "" ==> r[2] == carrier
    ensures carrier == "" ==> r[2] == NotAvailable
    ensures r[3] == TimeZoneText(zones)
  {
    [number, OrNotAvailable(region), OrNotAvailable(carrier), TimeZoneText(zones), userLoc]
  }

  /**
   * `track_number` as a function of its inputs: the entry text, the lookup's
   * answer, the flag emoji, the IP location text, and whether the append to the
   * history file raises.
   */
  function Inspect(number: string, lookup: Lookup, flag: string, userLoc: string,
                   appendFails: bool): (o: Outcome)
    ensures o.Untouched? <==> number == ""
    ensures o.Saved? <==> number != "" && lookup.Resolved? && !appendFails
    ensures o.Saved? ==> o.record == Record(number, lookup.region, lookup.carrier, lookup.zones, userLoc)
    ensures o.Saved? ==> o.shown == Display(o.record[1] + " " + flag, o.record[2], o.record[3], userLoc)
  {
    if number == "" then Untouched
    else match lookup
      case Resolved(region, carrier, zones) =>
        var rec := Record(number, region, carrier, zones, userLoc);
        if appendFails then Failed else Saved(Display(rec[1] + " " + flag, rec[2], rec[3], userLoc), rec)
      case _ => Failed
  }

  /**
   * The flag only decorates the screen: the stored record is the same whatever
   * the flag is, and the shown location is the stored one, a space and the flag.
   */
  lemma StoredLocationHasNoFlag(number: string, lookup: Lookup, flag1: string, flag2: string,
                                userLoc: string)
    ensures Inspect(number, lookup, flag1, userLoc, false).Saved? <==>
            Inspect(number, lookup, flag2, userLoc, false).Saved?
    ensures Inspect(number, lookup, flag1, userLoc, false).Saved? ==>
              var o1 := Inspect(number, lookup, flag1, userLoc, false);
              var o2 := Inspect(number, lookup, flag2, userLoc, false);
              o1.record == o2.record && o1.shown.location == o1.record[1] + " " + flag1
  {
  }

  /** Example: a number with a region, no carrier and one time zone. */
  lemma CaliforniaExample()
    ensures Inspect("+14155552671", Resolved("California, United States", "", ["America/Los_Angeles"]),
                    "", "San Jose, CA, US", false)
         == Saved(Display("California, United States ", NotAvailable, "America/Los_Angeles", "San Jose, CA, US"),
                  ["+14155552671", "California, United States", NotAvailable, "America/Los_Angeles",
                   "San Jose, CA, US"])
  {
  }
}
