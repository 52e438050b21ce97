/**
 * Reading a filled-in review sheet (src/sheets/sheetProcessors.js): the version pattern,
 * the choice of a processor by comparing version components, and the `0.1.0` processor
 * that extracts the sheet's metadata and its branch rows.
 */
module SheetProcessors {
  import opened Wrappers
  import opened Text
  import opened Sheet

  /** `VALIDATE_VERSION_REGEX`, `/^\d+\.\d+\.\d+$/`: three runs of digits separated by dots. */
  predicate IsVersion(s: string) {
    var parts := Split(s, '.');
    |parts| == 3 && IsDigits(parts[0]) && IsDigits(parts[1]) && IsDigits(parts[2])
  }

  lemma DigitsHaveNoDot(a: string)
    requires IsDigits(a)
    ensures '.' !in a
  {
    assert forall i :: 0 <= i < |a| ==> IsDigit(a[i]);
  }

  /** Every `<digits>.<digits>.<digits>` string is accepted. */
  lemma VersionFromParts(a: string, b: string, c: string)
    requires IsDigits(a) && IsDigits(b) && IsDigits(c)
    ensures IsVersion(a + "." + b + "." + c)
  {
    DigitsHaveNoDot(a);
    DigitsHaveNoDot(b);
    DigitsHaveNoDot(c);
    SplitThree(a, b, c, '.');
  }

  /** Every accepted string is `<digits>.<digits>.<digits>`. */
  lemma VersionParts(s: string)
    requires IsVersion(s)
    ensures var p := Split(s, '.'); s == p[0] + "." + p[1] + "." + p[2]
  {
    var p := Split(s, '.');
    JoinSplit(s, '.');
    assert p == [p[0], p[1], p[2]];
    JoinThree(p[0], p[1], p[2], ".");
  }

  /**
   * The body of the `find` callback of `getProcessor` from component `i` on: the sheet's
   * component (absent past its last one, which compares neither greater nor less) against the
   * processor's, as strings; the first difference decides, and no difference admits.
   */
  predicate AdmitsFrom(versionParts: seq<string>, sheetParts: seq<string>, i: nat)
    decreases |versionParts| - i
  {
    if i >= |versionParts| then true
    else if i < |sheetParts| && LexLess(versionParts[i], sheetParts[i]) then true
    else if i < |sheetParts| && LexLess(sheetParts[i], versionParts[i]) then false
    else AdmitsFrom(versionParts, sheetParts, i + 1)
  }

  /** Whether the processor for `version` can read a sheet written as `sheetVersion`. */
  predicate Admits(version: string, sheetVersion: string) {
    AdmitsFrom(Split(version, '.'), Split(sheetVersion, '.'), 0)
  }

  /**
   * For a sheet version with at least as many components, the processor is admitted exactly when
   * the components agree, or the first component where they differ is greater in the sheet.
   */
  lemma {:induction false} AdmitsFromFirstDifference(v: seq<string>, s: seq<string>, i: nat)
    requires |v| <= |s|
    ensures AdmitsFrom(v, s, i) <==>
      (forall j :: i <= j < |v| ==> v[j] == s[j]) ||
      (exists j :: i <= j < |v| && (forall m :: i <= m < j ==> v[m] == s[m]) && LexLess(v[j], s[j]))
    decreases |v| - i
  {
    if i < |v| {
      LexLessTrichotomy(v[i], s[i]);
      AdmitsFromFirstDifference(v, s, i + 1);
      if LexLess(v[i], s[i]) {
      } else if LexLess(s[i], v[i]) {
        LexLessIrreflexive(v[i]);
        assert v[i] != s[i];
        forall j | i < j < |v| ensures !((forall m :: i <= m < j ==> v[m] == s[m]) && LexLess(v[j], s[j])) {
        }
      } else {
        assert v[i] == s[i];
        LexLessIrreflexive(v[i]);
        if exists j :: i + 1 <= j < |v| && (forall m :: i + 1 <= m < j ==> v[m] == s[m]) && LexLess(v[j], s[j]) {
          var j :| i + 1 <= j < |v| && (forall m :: i + 1 <= m < j ==> v[m] == s[m]) && LexLess(v[j], s[j]);
          assert forall m :: i <= m < j ==> v[m] == s[m];
        }
        if exists j :: i <= j < |v| && (forall m :: i <= m < j ==> v[m] == s[m]) && LexLess(v[j], s[j]) {
          var j :| i <= j < |v| && (forall m :: i <= m < j ==> v[m] == s[m]) && LexLess(v[j], s[j]);
          assert j != i;
          assert i + 1 <= j < |v| && (forall m :: i + 1 <= m < j ==> v[m] == s[m]) && LexLess(v[j], s[j]);
        }
      }
    }
  }

  /** A sheet of exactly the processor's version is admitted. */
  lemma {:induction false} AdmitsFromSame(v: seq<string>, i: nat)
    ensures AdmitsFrom(v, v, i)
    decreases |v| - i
  {
    if i < |v| {
      LexLessIrreflexive(v[i]);
      AdmitsFromSame(v, i + 1);
    }
  }

  lemma AdmitsSameVersion(version: string)
    ensures Admits(version, version)
  {
    AdmitsFromSame(Split(version, '.'), 0);
  }

  /** The `for` loop of the `find` callback in `getProcessor`, with its early returns. */
  method VersionAdmits(version: string, sheetVersion: string) returns (admitted: bool)
    ensures admitted == Admits(version, sheetVersion)
  {
    var splitVersion := Split(version, '.');
    var splitSheetVersion := Split(sheetVersion, '.');
    var i := 0;
    while i < |splitVersion|
      invariant 0 <= i <= |splitVersion|
      invariant AdmitsFrom(splitVersion, splitSheetVersion, 0) == AdmitsFrom(splitVersion, splitSheetVersion, i)
    {
      if i < |splitSheetVersion| && LexLess(splitVersion[i], splitSheetVersion[i]) {
        return true;
      }
      if i < |splitSheetVersion| && LexLess(splitSheetVersion[i], splitVersion[i]) {
        return false;
      }
      i := i + 1;
    }
    return true;
  }

  /** The versions of the known processors, in the order `processors.find` tries them. */
  const ProcessorVersions: seq<string> := ["0.1.0"]

  function NoProcessorMessage(sheetVersion: string): string {
    "Could not find processor for version " + sheetVersion
  }

  /** `processors.find(...)` and the throw after it: the first processor admitting the sheet version. */
  method FindProcessor(versions: seq<string>, sheetVersion: string) returns (r: Result<nat, string>)
    ensures r.Ok? ==> r.value < |versions| && Admits(versions[r.value], sheetVersion)
    ensures r.Ok? ==> forall j :: 0 <= j < r.value ==> !Admits(versions[j], sheetVersion)
    ensures r.Err? ==> r.error == NoProcessorMessage(sheetVersion)
    ensures r.Err? <==> forall j :: 0 <= j < |versions| ==> !Admits(versions[j], sheetVersion)
  {
    var k := 0;
    while k < |versions|
      invariant 0 <= k <= |versions|
      invariant forall j :: 0 <= j < k ==> !Admits(versions[j], sheetVersion)
    {
      var admitted := VersionAdmits(versions[k], sheetVersion);
      if admitted {
        return Ok(k);
      }
      k := k + 1;
    }
    return Err(NoProcessorMessage(sheetVersion));
  }

  /** `getProcessor(sheetVersion)`: the version of the processor chosen, or the error it throws. */
  method GetProcessor(sheetVersion: string) returns (r: Result<string, string>)
    ensures r.Ok? <==> Admits("0.1.0", sheetVersion)
    ensures r.Ok? ==> r.value == "0.1.0"
    ensures r.Err? ==> r.error == NoProcessorMessage(sheetVersion)
  {
    var found := FindProcessor(ProcessorVersions, sheetVersion);
    assert ProcessorVersions[0] == "0.1.0";
    match found
    case Ok(k) => r := Ok(ProcessorVersions[k]);
    case Err(e) => r := Err(e);
  }

  /** A sheet older than every processor is refused. */
  lemma OlderSheetRejected()
    ensures !Admits("0.1.0", "0.0.9")
  {
    SplitThree("0", "1", "0", '.');
    SplitThree("0", "0", "9", '.');
    LexLessIrreflexive("0");
  }

  /**
   * Components compare as strings, not as numbers: "10" sorts before "2", so a sheet "0.10.0" counts
   * as older than a "0.2.0" processor.
   */
  lemma TenComponentSortsBeforeTwo()
    ensures !Admits("0.2.0", "0.10.0")
  {
    SplitThree("0", "2", "0", '.');
    SplitThree("0", "10", "0", '.');
    LexLessIrreflexive("0");
  }

  /** "9" sorts after "2", so a sheet "0.9.0" counts as newer than a "0.2.0" processor. */
  lemma NineComponentSortsAfterTwo()
    ensures Admits("0.2.0", "0.9.0")
  {
    SplitThree("0", "2", "0", '.');
    SplitThree("0", "9", "0", '.');
    LexLessIrreflexive("0");
  }

  /** The sheet's header values the `0.1.0` processor reads from the first cells of rows 0 to 3. */
  datatype Meta = Meta(version: Option<string>, remote: Option<string>, url: Option<string>, baseBranch: Option<string>)

  /** One branch row as the processor reports it: the hidden `<ref>:<sha>` value and the chosen action. */
  datatype SheetBranch = SheetBranch(hidden: ExtendedValue, action: Option<ExtendedValue>)

  datatype Processed = Processed(meta: Meta, branches: seq<SheetBranch>)

  /** The `TypeError` raised when a header row lacks its first cell's value. */
  datatype SheetError = MissingHeaderCell(row: nat)

  /** Whether `sheetData[index].values[0].userEnteredValue` exists. */
  predicate HasHeaderCell(rows: seq<Row>, index: nat) {
    index < |rows| && rows[index].values.Some? && |rows[index].values.value| > 0 &&
    rows[index].values.value[0].userEnteredValue.Some?
  }

  function HeaderString(rows: seq<Row>, index: nat): Option<string>
    requires HasHeaderCell(rows, index)
  {
    rows[index].values.value[0].userEnteredValue.value.stringValue
  }

  /** The `META_PROPS.reduce` over the names version, remote, url and baseBranch, for rows 0 to 3 in turn. */
  function ReadMeta(rows: seq<Row>): (r: Result<Meta, SheetError>)
    ensures r.Ok? <==> forall i :: 0 <= i < 4 ==> HasHeaderCell(rows, i)
    ensures r.Err? ==> r.error.row < 4 && !HasHeaderCell(rows, r.error.row)
    ensures r.Err? ==> forall i :: 0 <= i < r.error.row ==> HasHeaderCell(rows, i)
    ensures r.Ok? ==> r.value == Meta(HeaderString(rows, 0), HeaderString(rows, 1), HeaderString(rows, 2), HeaderString(rows, 3))
  {
    if !HasHeaderCell(rows, 0) then Err(MissingHeaderCell(0))
    else if !HasHeaderCell(rows, 1) then Err(MissingHeaderCell(1))
    else if !HasHeaderCell(rows, 2) then Err(MissingHeaderCell(2))
    else if !HasHeaderCell(rows, 3) then Err(MissingHeaderCell(3))
    else Ok(Meta(HeaderString(rows, 0), HeaderString(rows, 1), HeaderString(rows, 2), HeaderString(rows, 3)))
  }

  /** How `${meta.remote}` prints the remote: an absent value prints as "undefined". */
  function BranchPrefix(meta: Meta): string {
    "refs/remotes/" + meta.remote.GetOr("undefined")
  }

  /** The filter on a row's cells: a first cell whose string value is non-empty and starts with the prefix. */
  predicate IsBranchRow(cols: seq<Cell>, prefix: string) {
    |cols| > 0 && CellString(cols[0]).Some? && CellString(cols[0]).value != "" &&
    StartsWith(CellString(cols[0]).value, prefix)
  }

  /** The entry reported for a branch row: its first cell's value and its seventh cell's value if any. */
  function BranchOf(cols: seq<Cell>): SheetBranch
    requires |cols| > 0 && cols[0].userEnteredValue.Some?
  {
    SheetBranch(cols[0].userEnteredValue.value, if |cols| > 6 then cols[6].userEnteredValue else None)
  }

  /** The rows' `values`, rows without values dropped, filtered to branch rows and mapped to entries. */
  function BranchEntries(rows: seq<Row>, prefix: string): (r: seq<SheetBranch>)
    ensures |r| <= |rows|
    ensures forall k :: 0 <= k < |r| ==>
      r[k].hidden.stringValue.Some? && StartsWith(r[k].hidden.stringValue.value, prefix)
    decreases |rows|
  {
    if |rows| == 0 then []
    else
      var row := rows[0];
      var rest := BranchEntries(rows[1..], prefix);
      if row.values.Some? && IsBranchRow(row.values.value, prefix) then [BranchOf(row.values.value)] + rest
      else rest
  }

  /** The entries of a sheet are the entries of its parts, in order. */
  lemma {:induction false} BranchEntriesConcat(a: seq<Row>, b: seq<Row>, prefix: string)
    ensures BranchEntries(a + b, prefix) == BranchEntries(a, prefix) + BranchEntries(b, prefix)
    decreases |a|
  {
    if |a| == 0 {
      assert a + b == b;
    } else {
      assert (a + b)[1..] == a[1..] + b;
      BranchEntriesConcat(a[1..], b, prefix);
    }
  }

  /**
   * The entries are exactly the entries of the branch rows: each comes from a row with values that
   * passes the filter, and each such row yields its entry.
   */
  lemma {:induction false} BranchEntriesFromBranchRows(rows: seq<Row>, prefix: string)
    ensures forall k :: 0 <= k < |BranchEntries(rows, prefix)| ==>
      exists j ::
        (0 <= j < |rows| && rows[j].values.Some? && IsBranchRow(rows[j].values.value, prefix) &&
         BranchEntries(rows, prefix)[k] == BranchOf(rows[j].values.value))
    ensures forall j :: 0 <= j < |rows| && rows[j].values.Some? && IsBranchRow(rows[j].values.value, prefix) ==>
      BranchOf(rows[j].values.value) in BranchEntries(rows, prefix)
    decreases |rows|
  {
    if |rows| > 0 {
      var tail := rows[1..];
      BranchEntriesFromBranchRows(tail, prefix);
      var rest := BranchEntries(tail, prefix);
      var r := BranchEntries(rows, prefix);
      var hit := rows[0].values.Some? && IsBranchRow(rows[0].values.value, prefix);
      var n := if hit then 1 else 0;
      assert r == (if hit then [BranchOf(rows[0].values.value)] else []) + rest;
      forall k | 0 <= k < |r|
        ensures exists j ::
          (0 <= j < |rows| && rows[j].values.Some? && IsBranchRow(rows[j].values.value, prefix) &&
           r[k] == BranchOf(rows[j].values.value))
      {
        if k < n {
          assert 0 <= 0 < |rows| && r[k] == BranchOf(rows[0].values.value);
        } else {
          assert r[k] == rest[k - n];
          var j :| 0 <= j < |tail| && tail[j].values.Some? && IsBranchRow(tail[j].values.value, prefix) &&
            rest[k - n] == BranchOf(tail[j].values.value);
          assert rows[j + 1] == tail[j];
        }
      }
      forall j | 0 <= j < |rows| && rows[j].values.Some? && IsBranchRow(rows[j].values.value, prefix)
        ensures BranchOf(rows[j].values.value) in r
      {
        if j > 0 {
          assert tail[j - 1] == rows[j];
        }
      }
    } else {
      assert BranchEntries(rows, prefix) == [];
    }
  }

  /** A single row yields an entry exactly when it is a branch row. */
  lemma BranchEntriesOfRow(row: Row, prefix: string)
    ensures BranchEntries([row], prefix) ==
      if row.values.Some? && IsBranchRow(row.values.value, prefix) then [BranchOf(row.values.value)] else []
  {
    assert BranchEntries([row][1..], prefix) == [];
  }

  /** The `process` function of the `0.1.0` processor. */
  function Process010(rows: seq<Row>): (r: Result<Processed, SheetError>)
    ensures r.Ok? <==> ReadMeta(rows).Ok?
    ensures r.Ok? ==> r.value.meta == ReadMeta(rows).value
    ensures r.Ok? ==> r.value.branches == BranchEntries(rows, BranchPrefix(r.value.meta))
    ensures r.Ok? ==> forall k :: 0 <= k < |r.value.branches| ==>
      r.value.branches[k].hidden.stringValue.Some? &&
      StartsWith(r.value.branches[k].hidden.stringValue.value, BranchPrefix(r.value.meta))
  {
    match ReadMeta(rows)
    case Err(e) => Err(e)
    case Ok(meta) => Ok(Processed(meta, BranchEntries(rows, BranchPrefix(meta))))
  }
}
