/** The report selector of the single-page viewer: `latest_file = max(files)`
    over the names `glob.glob("public_bids_received_*.xlsx")` lists, with the
    "No report found" branch when the listing is empty.

    The names are compared as Python compares `str`; for names of the exact
    form `public_bids_received_YYYY-MM-DD.xlsx` that order is date order, so
    this selector and the date-keyed resolver pick the same file.
 */
module Selector {
  import opened Text
  import opened Dates
  import opened Resolver

  /** The position `max` settles on: the greatest name, the first of equal ones. */
  function GreatestIndex(names: seq<string>): (k: nat)
    requires |names| > 0
    ensures k < |names|
    ensures forall j :: 0 <= j < |names| ==> LessEq(names[j], names[k])
  {
    if |names| == 1 then 0
    else
      var m := GreatestIndex(names[..|names| - 1]);
      var last := names[|names| - 1];
      assert forall j :: 0 <= j < |names| - 1 ==> names[j] == names[..|names| - 1][j];
      if Less(names[m], last) then
        assert forall j :: 0 <= j < |names| - 1 ==> LessEq(names[j], last) by {
          forall j | 0 <= j < |names| - 1 ensures LessEq(names[j], last) {
            if names[j] != names[m] {
              LessTransitive(names[j], names[m], last);
            }
          }
        }
        |names| - 1
      else
        LessTrichotomy(names[m], last);
        m
  }

  /** `latest_file = max(files)`, or `None` where the script reports "No report found". */
  function SelectReport(names: seq<string>): (r: Option<string>)
    ensures r.None? <==> names == []
    ensures r.Some? ==> r.value in names
    ensures r.Some? ==> forall f :: f in names ==> LessEq(f, r.value)
  {
    if names == [] then None else Some(names[GreatestIndex(names)])
  }

  const BidsPrefix: string := "public_bids_received_"
  const BidsSuffix: string := ".xlsx"

  /** The conventional report name for a day, as in `public_bids_received_2025-09-19.xlsx`. */
  function BidsFileName(d: Date): string
    requires IsValid(d)
  {
    BidsPrefix + Format(d) + BidsSuffix
  }

  ghost predicate IsBidsFileName(name: string) {
    exists d :: IsValid(d) && name == BidsFileName(d)
  }

  /** For conventional names, string order is date order. */
  lemma BidsFileNameOrder(d1: Date, d2: Date)
    requires IsValid(d1) && IsValid(d2)
    ensures Less(BidsFileName(d1), BidsFileName(d2)) <==> Before(d1, d2)
    ensures BidsFileName(d1) == BidsFileName(d2) <==> d1 == d2
  {
    var f1, f2 := Format(d1), Format(d2);
    LessAppend(BidsPrefix + f1, BidsSuffix, BidsPrefix + f2, BidsSuffix);
    LessAppend(BidsPrefix, f1, BidsPrefix, f2);
    LessIrreflexive(BidsPrefix);
    LessIrreflexive(BidsSuffix);
    FormatOrder(d1, d2);
    if BidsFileName(d1) == BidsFileName(d2) {
      assert (BidsPrefix + f1 + BidsSuffix)[|BidsPrefix|..|BidsPrefix| + 10] == f1;
      assert (BidsPrefix + f2 + BidsSuffix)[|BidsPrefix|..|BidsPrefix| + 10] == f2;
    }
  }

  /** A conventional name is keyed by its own date. */
  lemma BidsFileNameKey(d: Date)
    requires IsValid(d)
    ensures DateKey(BidsFileName(d)) == d
  {
    assert forall k :: 0 <= k < |BidsPrefix| ==> !IsDigit(BidsPrefix[k]) && BidsPrefix[k] != '/';
    assert '/' !in BidsSuffix;
    KeyOfDatedName(BidsPrefix, d, BidsSuffix);
  }

  /** When every listed name follows the convention, the lexicographic
      selector returns the file with the latest date: the same one the
      date-keyed resolver returns. */
  lemma SelectorAgreesWithResolver(names: seq<string>)
    requires forall f :: f in names ==> IsBidsFileName(f)
    ensures SelectReport(names) == MostRecentXlsxFile(names)
  {
    if names != [] {
      var a := SelectReport(names).value;
      var b := MostRecentXlsxFile(names).value;
      var da :| IsValid(da) && a == BidsFileName(da);
      var db :| IsValid(db) && b == BidsFileName(db);
      BidsFileNameKey(da);
      BidsFileNameKey(db);
      BidsFileNameOrder(db, da);
      assert LessEq(b, a);
      assert !Before(db, da);
    }
  }
}
