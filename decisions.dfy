/**
 * What happens to a processed review sheet (src/flows/sheetResultMenu.js and its older copy
 * `processSheetExternal` in src/sheets/findSheet.js): the branch rows are sorted into KEEP,
 * DELETE and no-action buckets, the DELETE entries are looked up among the current remote
 * branches, and the branches found are removed one after the other once the user confirms.
 */
module Decisions {
  import opened Wrappers
  import opened Text
  import opened Collections
  import opened Sheet
  import opened SheetProcessors
  import Branches

  datatype Action = Keep | Delete | NoAction

  /** `row.action && row.action.stringValue` switched on 'KEEP' and 'DELETE'; anything else, absent included, is no action. */
  function ActionOf(row: SheetBranch): Action {
    if row.action.Some? && row.action.value.stringValue == Some("KEEP") then Keep
    else if row.action.Some? && row.action.value.stringValue == Some("DELETE") then Delete
    else NoAction
  }

  /** The hidden cell holds a string, as it does in every row the `0.1.0` processor reports. */
  predicate HasRef(row: SheetBranch) {
    row.hidden.stringValue.Some?
  }

  predicate AllHaveRefs(rows: seq<SheetBranch>) {
    forall k :: 0 <= k < |rows| ==> HasRef(rows[k])
  }

  /** Every branch the `0.1.0` processor reports carries a string in its hidden cell. */
  lemma ProcessedRowsHaveRefs(rows: seq<Row>)
    requires Process010(rows).Ok?
    ensures AllHaveRefs(Process010(rows).value.branches)
  {
  }

  /** `row.hidden.stringValue` for each row. */
  function Refs(rows: seq<SheetBranch>): (r: seq<string>)
    requires AllHaveRefs(rows)
    ensures |r| == |rows|
    ensures forall k :: 0 <= k < |rows| ==> r[k] == rows[k].hidden.stringValue.value
    decreases |rows|
  {
    if |rows| == 0 then [] else Refs(rows[..|rows| - 1]) + [rows[|rows| - 1].hidden.stringValue.value]
  }

  /** The refs of the rows marked with `a`, in row order. */
  function Bucket(rows: seq<SheetBranch>, a: Action): (r: seq<string>)
    requires AllHaveRefs(rows)
    ensures |r| <= |rows|
    decreases |rows|
  {
    if |rows| == 0 then []
    else
      var last := rows[|rows| - 1];
      Bucket(rows[..|rows| - 1], a) + (if ActionOf(last) == a then [last.hidden.stringValue.value] else [])
  }

  /** The classification loop: each row's ref is pushed onto the bucket of its action. */
  method Classify(rows: seq<SheetBranch>) returns (keepRows: seq<string>, deleteRows: seq<string>, noActionRows: seq<string>)
    requires AllHaveRefs(rows)
    ensures keepRows == Bucket(rows, Keep)
    ensures deleteRows == Bucket(rows, Delete)
    ensures noActionRows == Bucket(rows, NoAction)
  {
    keepRows, deleteRows, noActionRows := [], [], [];
    for i := 0 to |rows|
      invariant AllHaveRefs(rows[..i])
      invariant keepRows == Bucket(rows[..i], Keep)
      invariant deleteRows == Bucket(rows[..i], Delete)
      invariant noActionRows == Bucket(rows[..i], NoAction)
    {
      var row := rows[i];
      var branchRef := row.hidden.stringValue.value;
      assert rows[..i + 1] == rows[..i] + [row];
      BucketSnoc(rows[..i], row, Keep);
      BucketSnoc(rows[..i], row, Delete);
      BucketSnoc(rows[..i], row, NoAction);
      match ActionOf(row)
      case Keep => keepRows := keepRows + [branchRef];
      case Delete => deleteRows := deleteRows + [branchRef];
      case NoAction => noActionRows := noActionRows + [branchRef];
    }
    assert rows[..|rows|] == rows;
  }

  lemma BucketSnoc(rows: seq<SheetBranch>, row: SheetBranch, a: Action)
    requires AllHaveRefs(rows) && HasRef(row)
    ensures AllHaveRefs(rows + [row])
    ensures Bucket(rows + [row], a) == Bucket(rows, a) + (if ActionOf(row) == a then [row.hidden.stringValue.value] else [])
  {
    assert (rows + [row])[..|rows|] == rows;
  }

  /** Every row lands in exactly one bucket: together the buckets hold each row's ref once. */
  lemma {:induction false} ClassifyPartitions(rows: seq<SheetBranch>)
    requires AllHaveRefs(rows)
    ensures multiset(Bucket(rows, Keep)) + multiset(Bucket(rows, Delete)) + multiset(Bucket(rows, NoAction)) == multiset(Refs(rows))
    ensures |Bucket(rows, Keep)| + |Bucket(rows, Delete)| + |Bucket(rows, NoAction)| == |rows|
    decreases |rows|
  {
    if |rows| > 0 {
      var init := rows[..|rows| - 1];
      var last := rows[|rows| - 1];
      assert AllHaveRefs(init);
      ClassifyPartitions(init);
      assert Refs(rows) == Refs(init) + [last.hidden.stringValue.value];
    }
  }

  /** The test `ActionOf(row) == a`, as a predicate on rows. */
  function HasAction(a: Action): SheetBranch -> bool {
    row => ActionOf(row) == a
  }

  /** A bucket is the refs of the rows marked with its action, in row order. */
  lemma {:induction false} BucketInRowOrder(rows: seq<SheetBranch>, a: Action)
    requires AllHaveRefs(rows)
    ensures AllHaveRefs(Filter(rows, HasAction(a)))
    ensures Bucket(rows, a) == Refs(Filter(rows, HasAction(a)))
    decreases |rows|
  {
    if |rows| > 0 {
      var init := rows[..|rows| - 1];
      var last := rows[|rows| - 1];
      assert init + [last] == rows;
      assert AllHaveRefs(init);
      BucketInRowOrder(init, a);
      FilterSnoc(init, last, HasAction(a));
      var marked := Filter(init, HasAction(a));
      if HasAction(a)(last) {
        assert Filter(rows, HasAction(a)) == marked + [last];
        assert AllHaveRefs(marked + [last]);
        RefsSnoc(marked, last);
      } else {
        assert Filter(rows, HasAction(a)) == marked;
      }
    }
  }

  lemma RefsSnoc(rows: seq<SheetBranch>, row: SheetBranch)
    requires AllHaveRefs(rows) && HasRef(row)
    ensures AllHaveRefs(rows + [row])
    ensures Refs(rows + [row]) == Refs(rows) + [row.hidden.stringValue.value]
  {
    assert (rows + [row])[..|rows|] == rows;
  }

  /** A row's ref is in the bucket of the row's action. */
  lemma {:induction false} ClassifyPlacesEachRow(rows: seq<SheetBranch>, k: nat)
    requires AllHaveRefs(rows) && k < |rows|
    ensures rows[k].hidden.stringValue.value in Bucket(rows, ActionOf(rows[k]))
    decreases |rows|
  {
    var init := rows[..|rows| - 1];
    assert AllHaveRefs(init);
    if k < |init| {
      ClassifyPlacesEachRow(init, k);
      assert init[k] == rows[k];
    }
  }

  /** `const [branchRef, headSha] = ref.split(':')`: the text before the first ':' and the piece after it, if any. */
  function SplitRef(ref: string): (r: (string, Option<string>))
    ensures ':' !in r.0
    ensures StartsWith(ref, r.0)
    ensures |r.0| == |ref| || ref[|r.0|] == ':'
    ensures r.1.None? <==> ':' !in ref
    ensures r.1.Some? ==> |r.0| < |ref| && ':' !in r.1.value && StartsWith(ref[|r.0| + 1..], r.1.value)
  {
    var parts := Split(ref, ':');
    JoinSplit(ref, ':');
    if |parts| == 1 then (parts[0], None)
    else
      assert Join(parts, [':']) == parts[0] + [':'] + Join(parts[1..], [':']);
      assert ref[..|parts[0]|] == parts[0];
      (parts[0], Some(parts[1]))
  }

  /** The value the generators write into the hidden cell splits back into the branch name and the sha. */
  lemma SplitRefOfHidden(name: string, sha: string)
    requires ':' !in name && ':' !in sha
    ensures SplitRef(name + ":" + sha) == (name, Some(sha))
  {
    SplitWithoutSeparator(sha, ':');
    SplitAtFirstSeparator(name, sha, ':');
  }

  /** `branches.remotes.find(remoteBranch => remoteBranch.name === name)`. */
  function FindByName(remotes: seq<Branches.RemoteBranch>, name: string): (r: Option<Branches.RemoteBranch>)
    ensures r.Some? ==> r.value in remotes && r.value.name == name
    ensures r.None? <==> forall k :: 0 <= k < |remotes| ==> remotes[k].name != name
    decreases |remotes|
  {
    if |remotes| == 0 then None
    else if remotes[0].name == name then Some(remotes[0])
    else FindByName(remotes[1..], name)
  }

  /** `find` returns the first branch with the name: every branch before it has another name. */
  lemma {:induction false} FindByNameFirst(remotes: seq<Branches.RemoteBranch>, name: string)
    ensures FindByName(remotes, name).Some? ==>
      exists i :: 0 <= i < |remotes| && remotes[i] == FindByName(remotes, name).value && (forall j :: 0 <= j < i ==> remotes[j].name != name)
    decreases |remotes|
  {
    if |remotes| > 0 && remotes[0].name != name {
      FindByNameFirst(remotes[1..], name);
      var r := FindByName(remotes[1..], name);
      if r.Some? {
        var i :| 0 <= i < |remotes[1..]| && remotes[1..][i] == r.value && forall j :: 0 <= j < i ==> remotes[1..][j].name != name;
        assert remotes[i + 1] == r.value;
        forall j | 0 <= j < i + 1 ensures remotes[j].name != name {
          if j > 0 {
            assert remotes[j] == remotes[1..][j - 1];
          }
        }
      }
    }
  }

  /** The lists the lookup callback pushes onto. */
  datatype Resolution = Resolution(deleteBranches: seq<Branches.RemoteBranch>, goneBranches: seq<string>, changedBranches: seq<Branches.RemoteBranch>)

  /** The effect of looking up one DELETE entry. */
  function ResolveOne(res: Resolution, ref: string, remotes: seq<Branches.RemoteBranch>): Resolution {
    var (branchRef, headSha) := SplitRef(ref);
    match FindByName(remotes, branchRef)
    case Some(branch) =>
      Resolution(res.deleteBranches + [branch], res.goneBranches,
        res.changedBranches + (if Some(branch.headSha) != headSha then [branch] else []))
    case None => Resolution(res.deleteBranches, res.goneBranches + [branchRef], res.changedBranches)
  }

  /** The lookups of the DELETE entries, in entry order. */
  function ResolveAll(refs: seq<string>, remotes: seq<Branches.RemoteBranch>): Resolution
    decreases |refs|
  {
    if |refs| == 0 then Resolution([], [], [])
    else ResolveOne(ResolveAll(refs[..|refs| - 1], remotes), refs[|refs| - 1], remotes)
  }

  /** One more entry adds its branch to the deletions when it is found, and nothing otherwise. */
  lemma ResolveAllSnocDeletes(refs: seq<string>, ref: string, remotes: seq<Branches.RemoteBranch>)
    ensures ResolveAll(refs + [ref], remotes).deleteBranches ==
      ResolveAll(refs, remotes).deleteBranches + (if Lookup(ref, remotes).Some? then [Lookup(ref, remotes).value] else [])
  {
    assert (refs + [ref])[..|refs|] == refs;
    assert ResolveAll(refs + [ref], remotes) == ResolveOne(ResolveAll(refs, remotes), ref, remotes);
  }

  /** The lookup callback, run over the DELETE entries one at a time. */
  method Resolve(deleteRows: seq<string>, remotes: seq<Branches.RemoteBranch>) returns (res: Resolution)
    ensures res == ResolveAll(deleteRows, remotes)
  {
    var deleteBranches, goneBranches, changedBranches := [], [], [];
    for i := 0 to |deleteRows|
      invariant Resolution(deleteBranches, goneBranches, changedBranches) == ResolveAll(deleteRows[..i], remotes)
    {
      assert deleteRows[..i + 1][..i] == deleteRows[..i];
      var (branchRef, headSha) := SplitRef(deleteRows[i]);
      var branch := FindByName(remotes, branchRef);
      if branch.Some? {
        deleteBranches := deleteBranches + [branch.value];
        if Some(branch.value.headSha) != headSha {
          changedBranches := changedBranches + [branch.value];
        }
      } else {
        goneBranches := goneBranches + [branchRef];
      }
    }
    assert deleteRows[..|deleteRows|] == deleteRows;
    res := Resolution(deleteBranches, goneBranches, changedBranches);
  }

  /** A DELETE entry's branch, if it still exists on the remote. */
  function Lookup(ref: string, remotes: seq<Branches.RemoteBranch>): Option<Branches.RemoteBranch> {
    FindByName(remotes, SplitRef(ref).0)
  }

  /** The entries whose branch still exists. */
  function Found(refs: seq<string>, remotes: seq<Branches.RemoteBranch>): (r: seq<string>)
    decreases |refs|
  {
    if |refs| == 0 then []
    else Found(refs[..|refs| - 1], remotes) + (if Lookup(refs[|refs| - 1], remotes).Some? then [refs[|refs| - 1]] else [])
  }

  /**
   * Each DELETE entry ends up either among the branches to delete (found by exact name) or among
   * the gone ones (not found), never both, in entry order; a changed branch is a found branch
   * whose current head differs from the recorded sha.
   */
  lemma {:induction false} ResolveAllSplits(refs: seq<string>, remotes: seq<Branches.RemoteBranch>)
    ensures |ResolveAll(refs, remotes).deleteBranches| + |ResolveAll(refs, remotes).goneBranches| == |refs|
    ensures |ResolveAll(refs, remotes).deleteBranches| == |Found(refs, remotes)|
    ensures forall k :: 0 <= k < |Found(refs, remotes)| ==>
      Lookup(Found(refs, remotes)[k], remotes) == Some(ResolveAll(refs, remotes).deleteBranches[k])
    ensures forall b :: b in ResolveAll(refs, remotes).deleteBranches ==> b in remotes
    ensures forall g :: g in ResolveAll(refs, remotes).goneBranches ==> forall k :: 0 <= k < |remotes| ==> remotes[k].name != g
    ensures multiset(ResolveAll(refs, remotes).changedBranches) <= multiset(ResolveAll(refs, remotes).deleteBranches)
    decreases |refs|
  {
    if |refs| > 0 {
      var init := refs[..|refs| - 1];
      ResolveAllSplits(init, remotes);
    }
  }

  /** A found entry is a changed branch exactly when the sheet recorded a different head. */
  lemma ResolveOneChanged(res: Resolution, ref: string, remotes: seq<Branches.RemoteBranch>)
    requires Lookup(ref, remotes).Some?
    ensures ResolveOne(res, ref, remotes).deleteBranches == res.deleteBranches + [Lookup(ref, remotes).value]
    ensures ResolveOne(res, ref, remotes).changedBranches == res.changedBranches + [Lookup(ref, remotes).value]
      <==> Some(Lookup(ref, remotes).value.headSha) != SplitRef(ref).1
  {
  }

  /** Where a review run stops. */
  datatype Outcome =
    | NothingMarked    // no row says DELETE
    | NothingFound     // no DELETE entry names an existing branch
    | Declined         // the user did not confirm
    | Removed          // every branch found was handed to the removal, in order

  /** The stage reached: decided by the DELETE entries, their lookups and the answer to the confirmation. */
  function OutcomeOf(deleteRows: seq<string>, remotes: seq<Branches.RemoteBranch>, confirmed: bool): Outcome {
    if |deleteRows| == 0 then NothingMarked
    else if |ResolveAll(deleteRows, remotes).deleteBranches| == 0 then NothingFound
    else if !confirmed then Declined
    else Removed
  }

  /**
   * `sheetResultMenu(processed)` once the remote is set and fetched: the refs handed to
   * `removeReference`, one call per branch found, in order; whether the confirmation was asked;
   * and the result, always false.
   */
  method SheetResultMenu(rows: seq<SheetBranch>, remotes: seq<Branches.RemoteBranch>, confirmed: bool)
    returns (result: bool, outcome: Outcome, asked: bool, removed: seq<string>)
    requires AllHaveRefs(rows)
    ensures !result
    ensures outcome == OutcomeOf(Bucket(rows, Delete), remotes, confirmed)
    ensures asked <==> outcome != NothingMarked && outcome != NothingFound
    ensures removed == if outcome == Removed then Branches.BranchNames(ResolveAll(Bucket(rows, Delete), remotes).deleteBranches) else []
  {
    var keepRows, deleteRows, noActionRows := Classify(rows);
    if |deleteRows| == 0 {
      return false, NothingMarked, false, [];
    }
    var res := Resolve(deleteRows, remotes);
    if |res.deleteBranches| == 0 {
      return false, NothingFound, false, [];
    }
    asked := true;
    removed := [];
    if confirmed {
      for i := 0 to |res.deleteBranches|
        invariant |removed| == i
        invariant forall k :: 0 <= k < i ==> removed[k] == res.deleteBranches[k].name
      {
        removed := removed + [res.deleteBranches[i].name];
      }
      outcome := Removed;
    } else {
      outcome := Declined;
    }
    result := false;
  }

  /** Nothing is removed unless some row says DELETE, its branch still exists and the user confirms. */
  lemma NoRemovalWithoutConfirmedMatch(rows: seq<SheetBranch>, remotes: seq<Branches.RemoteBranch>, confirmed: bool)
    requires AllHaveRefs(rows)
    ensures OutcomeOf(Bucket(rows, Delete), remotes, confirmed) == Removed ==>
      confirmed && |Bucket(rows, Delete)| > 0 && |Found(Bucket(rows, Delete), remotes)| > 0
    ensures OutcomeOf(Bucket(rows, Delete), remotes, confirmed) == Removed <==>
      confirmed && |Found(Bucket(rows, Delete), remotes)| > 0
  {
    ResolveAllSplits(Bucket(rows, Delete), remotes);
    if |Bucket(rows, Delete)| == 0 {
      assert Found(Bucket(rows, Delete), remotes) == [];
    }
  }

  /** A call `deleteBranch(branch.ref, argv.d, true)`; `deleteBranch` itself is not part of this model. */
  datatype DeleteBranchCall = DeleteBranchCall(ref: string, dryRun: bool, third: bool)

  function DeleteCalls(bs: seq<Branches.RemoteBranch>, dryRun: bool): (r: seq<DeleteBranchCall>)
    ensures |r| == |bs|
    ensures forall k :: 0 <= k < |bs| ==> r[k] == DeleteBranchCall(bs[k].name, dryRun, true)
    decreases |bs|
  {
    if |bs| == 0 then [] else [DeleteBranchCall(bs[0].name, dryRun, true)] + DeleteCalls(bs[1..], dryRun)
  }

  /** The older `processSheetExternal`: the same stages, deleting through `deleteBranch` with the dry-run flag. */
  method ProcessSheetExternal(rows: seq<SheetBranch>, remotes: seq<Branches.RemoteBranch>, confirmed: bool, dryRun: bool)
    returns (result: bool, outcome: Outcome, asked: bool, calls: seq<DeleteBranchCall>)
    requires AllHaveRefs(rows)
    ensures !result
    ensures outcome == OutcomeOf(Bucket(rows, Delete), remotes, confirmed)
    ensures asked <==> outcome != NothingMarked && outcome != NothingFound
    ensures calls == if outcome == Removed then DeleteCalls(ResolveAll(Bucket(rows, Delete), remotes).deleteBranches, dryRun) else []
  {
    var keepRows, deleteRows, noActionRows := Classify(rows);
    if |deleteRows| == 0 {
      return false, NothingMarked, false, [];
    }
    var res := Resolve(deleteRows, remotes);
    if |res.deleteBranches| == 0 {
      return false, NothingFound, false, [];
    }
    asked := true;
    calls := [];
    if confirmed {
      for i := 0 to |res.deleteBranches|
        invariant |calls| == i
        invariant forall k :: 0 <= k < i ==> calls[k] == DeleteBranchCall(res.deleteBranches[k].name, dryRun, true)
      {
        calls := calls + [DeleteBranchCall(res.deleteBranches[i].name, dryRun, true)];
      }
      outcome := Removed;
    } else {
      outcome := Declined;
    }
    result := false;
  }

  /**
   * One listing of `findSheetExternal`: the sheet ids offered and the index the user picked, absent
   * when the user chose the last entry ('find more files...' or '<exit>').
   */
  datatype Listing = Listing(files: seq<string>, choice: Option<nat>)

  /** The sheet chosen from one listing: none when nothing was listed or the pick is empty. */
  function Picked(l: Listing): Option<string> {
    if |l.files| > 0 && l.choice.Some? && l.choice.value < |l.files| && l.files[l.choice.value] != ""
    then Some(l.files[l.choice.value])
    else None
  }

  /**
   * `findSheetExternal(argv, token, searchAll)`: `listing(false)` is the first pass over the
   * user's own files and `listing(true)` the pass over all files.
   */
  function FindSheetExternal(listing: bool -> Listing, searchAll: bool): Option<string>
    decreases if searchAll then 0 else 1
  {
    match Picked(listing(searchAll))
    case Some(id) => Some(id)
    case None => if searchAll then None else FindSheetExternal(listing, true)
  }

  /**
   * A sheet picked on the first pass is returned; otherwise exactly one retry over all files
   * follows, and when nothing is picked there either the result is null.
   */
  lemma FindSheetRetriesOnce(listing: bool -> Listing)
    ensures Picked(listing(false)).Some? ==> FindSheetExternal(listing, false) == Picked(listing(false))
    ensures Picked(listing(false)).None? ==> FindSheetExternal(listing, false) == Picked(listing(true))
    ensures FindSheetExternal(listing, true) == Picked(listing(true))
    ensures FindSheetExternal(listing, false).Some? ==>
      FindSheetExternal(listing, false).value in listing(false).files + listing(true).files
  {
  }
}
