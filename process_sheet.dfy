/**
 * The first sheet-processing flow (src/sheets/processSheet.js): read the header values, keep the
 * rows of the sheet's remote, sort them by action, ask for confirmation even when nothing is to be
 * deleted, and delete the DELETE entries' branches one after the other.
 *
 * The lookup as written compares a remote branch's name with the whole hidden value
 * `<name>:<sha>`; `ProcessSheetAsWritten` models that, `DeleteTargetsAsWritten` shows it never
 * matches a branch the sheet was generated from, and `ProcessSheet` splits the value at ':' as
 * `sheetResultMenu` does.
 */
module ProcessSheet {
  import opened Wrappers
  import opened Text
  import opened Sheet
  import opened SheetProcessors
  import opened Decisions
  import Branches

  /**
   * What a run reports and does: the three buckets, whether the confirmation prompt was shown, and
   * the `deleteBranch(branch.ref, argv.d)` calls.
   */
  datatype Run = Run(keepRefs: seq<string>, deleteRefs: seq<string>, noActionRefs: seq<string>, asked: bool,
                     calls: seq<(string, bool)>)

  /** The branch a DELETE entry names as the code looks it up: by the whole entry. */
  function LookupAsWritten(ref: string, remotes: seq<Branches.RemoteBranch>): Option<Branches.RemoteBranch> {
    FindByName(remotes, ref)
  }

  /** The deletions of the loop as written: the entries equal to a branch name, in entry order. */
  function DeleteTargetsAsWritten(refs: seq<string>, remotes: seq<Branches.RemoteBranch>): (r: seq<string>)
    ensures |r| <= |refs|
    decreases |refs|
  {
    if |refs| == 0 then []
    else
      var rest := DeleteTargetsAsWritten(refs[1..], remotes);
      match LookupAsWritten(refs[0], remotes)
      case Some(branch) => [branch.name] + rest
      case None => rest
  }

  /** As written, a branch is deleted only when a DELETE entry equals its whole name. */
  lemma {:induction false} DeleteTargetsAsWrittenMatchWhole(refs: seq<string>, remotes: seq<Branches.RemoteBranch>)
    ensures forall k :: 0 <= k < |DeleteTargetsAsWritten(refs, remotes)| ==>
      DeleteTargetsAsWritten(refs, remotes)[k] in refs && LookupAsWritten(DeleteTargetsAsWritten(refs, remotes)[k], remotes).Some?
    decreases |refs|
  {
    if |refs| > 0 {
      DeleteTargetsAsWrittenMatchWhole(refs[1..], remotes);
      var rest := DeleteTargetsAsWritten(refs[1..], remotes);
      forall k | 0 <= k < |rest| ensures rest[k] in refs {
        assert rest[k] in refs[1..];
      }
    }
  }

  /** The deletions with the entry split at ':' first, as the later flows do. */
  function DeleteTargets(refs: seq<string>, remotes: seq<Branches.RemoteBranch>): (r: seq<string>)
    ensures |r| <= |refs|
    decreases |refs|
  {
    if |refs| == 0 then []
    else
      var rest := DeleteTargets(refs[1..], remotes);
      match Lookup(refs[0], remotes)
      case Some(branch) => [branch.name] + rest
      case None => rest
  }

  /** The hidden values a generated sheet holds: `<name>:<sha>` for branches of the remote. */
  ghost predicate GeneratedEntries(refs: seq<string>, remotes: seq<Branches.RemoteBranch>) {
    (forall k :: 0 <= k < |remotes| ==> ':' !in remotes[k].name) &&
    (forall k :: 0 <= k < |refs| ==> exists i, sha :: 0 <= i < |remotes| && ':' !in sha && refs[k] == remotes[i].name + ":" + sha)
  }

  lemma HiddenIsNoName(name: string, sha: string, other: string)
    requires ':' !in other
    ensures name + ":" + sha != other
  {
    assert (name + ":" + sha)[|name|] == ':';
    assert ':' in name + ":" + sha;
  }

  /** The entries after the first of a generated sheet are generated entries too. */
  lemma GeneratedEntriesTail(refs: seq<string>, remotes: seq<Branches.RemoteBranch>)
    requires |refs| > 0 && GeneratedEntries(refs, remotes)
    ensures GeneratedEntries(refs[1..], remotes)
  {
    var tail := refs[1..];
    forall k | 0 <= k < |tail|
      ensures exists i, sha :: 0 <= i < |remotes| && ':' !in sha && tail[k] == remotes[i].name + ":" + sha
    {
      assert tail[k] == refs[k + 1];
    }
    assert forall k :: 0 <= k < |remotes| ==> ':' !in remotes[k].name;
    assert forall k :: 0 <= k < |tail| ==> exists i, sha :: 0 <= i < |remotes| && ':' !in sha && tail[k] == remotes[i].name + ":" + sha;
    assert GeneratedEntries(tail, remotes);
  }

  /** A generated entry `<name>:<sha>` equals no branch name but, split at ':', finds the branch named `<name>`. */
  lemma GeneratedEntryLookups(name: string, sha: string, remotes: seq<Branches.RemoteBranch>)
    requires ':' !in name && ':' !in sha
    requires forall k :: 0 <= k < |remotes| ==> ':' !in remotes[k].name
    requires name in Branches.BranchNames(remotes)
    ensures LookupAsWritten(name + ":" + sha, remotes).None?
    ensures Lookup(name + ":" + sha, remotes).Some? && Lookup(name + ":" + sha, remotes).value.name == name
  {
    forall k | 0 <= k < |remotes| ensures remotes[k].name != name + ":" + sha {
      HiddenIsNoName(name, sha, remotes[k].name);
    }
    SplitRefOfHidden(name, sha);
  }

  /** As written, no generated entry ever equals a branch name, so nothing is deleted. */
  lemma {:induction false} AsWrittenDeletesNothing(refs: seq<string>, remotes: seq<Branches.RemoteBranch>)
    requires GeneratedEntries(refs, remotes)
    ensures DeleteTargetsAsWritten(refs, remotes) == []
    decreases |refs|
  {
    if |refs| > 0 {
      var i, sha :| 0 <= i < |remotes| && ':' !in sha && refs[0] == remotes[i].name + ":" + sha;
      assert Branches.BranchNames(remotes)[i] == remotes[i].name;
      GeneratedEntryLookups(remotes[i].name, sha, remotes);
      GeneratedEntriesTail(refs, remotes);
      AsWrittenDeletesNothing(refs[1..], remotes);
    }
  }

  /** When every entry's branch is found, the corrected loop deletes one branch per entry, in entry order. */
  lemma {:induction false} DeleteTargetsWhenAllFound(refs: seq<string>, remotes: seq<Branches.RemoteBranch>)
    requires forall k :: 0 <= k < |refs| ==> Lookup(refs[k], remotes).Some?
    ensures |DeleteTargets(refs, remotes)| == |refs|
    ensures forall k :: 0 <= k < |refs| ==> DeleteTargets(refs, remotes)[k] == Lookup(refs[k], remotes).value.name
    decreases |refs|
  {
    if |refs| > 0 {
      var tail := refs[1..];
      assert forall k :: 0 <= k < |tail| ==> tail[k] == refs[k + 1];
      DeleteTargetsWhenAllFound(tail, remotes);
      var t := DeleteTargets(refs, remotes);
      assert t == [Lookup(refs[0], remotes).value.name] + DeleteTargets(tail, remotes);
      forall k | 1 <= k < |refs| ensures t[k] == Lookup(refs[k], remotes).value.name {
        assert refs[k] == tail[k - 1];
      }
    }
  }

  /** Split at ':', every generated entry finds the branch it was written for. */
  lemma SplitLookupDeletesEveryEntry(refs: seq<string>, remotes: seq<Branches.RemoteBranch>)
    requires GeneratedEntries(refs, remotes)
    ensures |DeleteTargets(refs, remotes)| == |refs|
    ensures forall k :: 0 <= k < |refs| ==> StartsWith(refs[k], DeleteTargets(refs, remotes)[k] + ":")
  {
    forall k | 0 <= k < |refs|
      ensures Lookup(refs[k], remotes).Some? && StartsWith(refs[k], Lookup(refs[k], remotes).value.name + ":")
    {
      var i, sha :| 0 <= i < |remotes| && ':' !in sha && refs[k] == remotes[i].name + ":" + sha;
      assert Branches.BranchNames(remotes)[i] == remotes[i].name;
      GeneratedEntryLookups(remotes[i].name, sha, remotes);
      assert refs[k] == (remotes[i].name + ":") + sha;
    }
    DeleteTargetsWhenAllFound(refs, remotes);
  }

  /** A sheet with one entry for one remote branch: nothing is deleted as written, the branch once split. */
  lemma SingleEntryOutcomes(b: Branches.RemoteBranch, sha: string)
    requires ':' !in b.name && ':' !in sha
    ensures DeleteTargetsAsWritten([b.name + ":" + sha], [b]) == []
    ensures DeleteTargets([b.name + ":" + sha], [b]) == [b.name]
  {
    assert Branches.BranchNames([b])[0] == b.name;
    GeneratedEntryLookups(b.name, sha, [b]);
  }

  /** The remote branch `feature` of `origin`, whose sheet entry is `refs/remotes/origin/feature:abc123`. */
  const FeatureBranch: Branches.RemoteBranch := Branches.RemoteBranch("refs/remotes/origin/feature", "feature", true, "abc123")

  /** The sheet entry for `feature` finds nothing as written, and finds its branch once split. */
  lemma LookupCounterexample()
    ensures DeleteTargetsAsWritten([FeatureBranch.name + ":" + "abc123"], [FeatureBranch]) == []
    ensures DeleteTargets([FeatureBranch.name + ":" + "abc123"], [FeatureBranch]) == [FeatureBranch.name]
  {
    SingleEntryOutcomes(FeatureBranch, "abc123");
  }

  /** The calls `deleteBranch(branch.ref, argv.d)` for the given branch names. */
  function Calls(names: seq<string>, dryRun: bool): (r: seq<(string, bool)>)
    ensures |r| == |names|
    ensures forall k :: 0 <= k < |names| ==> r[k] == (names[k], dryRun)
    decreases |names|
  {
    if |names| == 0 then [] else [(names[0], dryRun)] + Calls(names[1..], dryRun)
  }

  /**
   * `processSheet` as written, on the sheet's rows and the remote branches after fetching: there is
   * no early return, so the confirmation is always asked; then each entry is looked up whole.
   */
  method ProcessSheetAsWritten(rows: seq<Row>, remotes: seq<Branches.RemoteBranch>, confirmed: bool, dryRun: bool)
    returns (r: Result<Run, SheetError>)
    ensures r.Err? <==> ReadMeta(rows).Err?
    ensures r.Err? ==> r.error == ReadMeta(rows).error
    ensures r.Ok? ==> AllHaveRefs(Process010(rows).value.branches)
    ensures r.Ok? ==> r.value.keepRefs == Bucket(Process010(rows).value.branches, Keep)
    ensures r.Ok? ==> r.value.deleteRefs == Bucket(Process010(rows).value.branches, Delete)
    ensures r.Ok? ==> r.value.noActionRefs == Bucket(Process010(rows).value.branches, NoAction)
    ensures r.Ok? ==> r.value.asked
    ensures r.Ok? ==> r.value.calls == if confirmed then Calls(DeleteTargetsAsWritten(r.value.deleteRefs, remotes), dryRun) else []
  {
    var processed := Process010(rows);
    if processed.Err? {
      return Err(processed.error);
    }
    var branchRows := processed.value.branches;
    ProcessedRowsHaveRefs(rows);
    var keepRefs, deleteRefs, noActionRefs := Classify(branchRows);
    // There is no early return when nothing is marked DELETE: the confirmation is always asked.
    var calls: seq<(string, bool)> := [];
    if confirmed {
      calls := DeleteLoopAsWritten(deleteRefs, remotes, dryRun);
    }
    r := Ok(Run(keepRefs, deleteRefs, noActionRefs, true, calls));
  }

  /**
   * `processSheet` with the lookup corrected: every DELETE entry whose branch still exists is
   * deleted once confirmed, in entry order.
   */
  method ProcessSheet(rows: seq<Row>, remotes: seq<Branches.RemoteBranch>, confirmed: bool, dryRun: bool)
    returns (r: Result<Run, SheetError>)
    ensures r.Err? <==> ReadMeta(rows).Err?
    ensures r.Err? ==> r.error == ReadMeta(rows).error
    ensures r.Ok? ==> AllHaveRefs(Process010(rows).value.branches)
    ensures r.Ok? ==> r.value.keepRefs == Bucket(Process010(rows).value.branches, Keep)
    ensures r.Ok? ==> r.value.deleteRefs == Bucket(Process010(rows).value.branches, Delete)
    ensures r.Ok? ==> r.value.noActionRefs == Bucket(Process010(rows).value.branches, NoAction)
    ensures r.Ok? ==> r.value.asked
    ensures r.Ok? ==> r.value.calls == if confirmed then Calls(DeleteTargets(r.value.deleteRefs, remotes), dryRun) else []
  {
    var processed := Process010(rows);
    if processed.Err? {
      return Err(processed.error);
    }
    var branchRows := processed.value.branches;
    ProcessedRowsHaveRefs(rows);
    var keepRefs, deleteRefs, noActionRefs := Classify(branchRows);
    // There is no early return when nothing is marked DELETE: the confirmation is always asked.
    var calls: seq<(string, bool)> := [];
    if confirmed {
      calls := DeleteLoop(deleteRefs, remotes, dryRun);
    }
    r := Ok(Run(keepRefs, deleteRefs, noActionRefs, true, calls));
  }

  /** The deletion loop as written: each entry looked up whole, `deleteBranch` called for the ones found. */
  method DeleteLoopAsWritten(deleteRefs: seq<string>, remotes: seq<Branches.RemoteBranch>, dryRun: bool) returns (calls: seq<(string, bool)>)
    ensures calls == Calls(DeleteTargetsAsWritten(deleteRefs, remotes), dryRun)
  {
    calls := [];
    for i := 0 to |deleteRefs|
      invariant calls == Calls(DeleteTargetsAsWritten(deleteRefs[..i], remotes), dryRun)
    {
      var branch := LookupAsWritten(deleteRefs[i], remotes);
      assert deleteRefs[..i + 1] == deleteRefs[..i] + [deleteRefs[i]];
      DeleteTargetsAsWrittenSnoc(deleteRefs[..i], deleteRefs[i], remotes);
      if branch.Some? {
        CallsSnoc(DeleteTargetsAsWritten(deleteRefs[..i], remotes), branch.value.name, dryRun);
        calls := calls + [(branch.value.name, dryRun)];
      }
    }
    assert deleteRefs[..|deleteRefs|] == deleteRefs;
  }

  /** The deletion loop with the lookup corrected. */
  method DeleteLoop(deleteRefs: seq<string>, remotes: seq<Branches.RemoteBranch>, dryRun: bool) returns (calls: seq<(string, bool)>)
    ensures calls == Calls(DeleteTargets(deleteRefs, remotes), dryRun)
  {
    calls := [];
    for i := 0 to |deleteRefs|
      invariant calls == Calls(DeleteTargets(deleteRefs[..i], remotes), dryRun)
    {
      var branch := Lookup(deleteRefs[i], remotes);
      assert deleteRefs[..i + 1] == deleteRefs[..i] + [deleteRefs[i]];
      DeleteTargetsSnoc(deleteRefs[..i], deleteRefs[i], remotes);
      if branch.Some? {
        CallsSnoc(DeleteTargets(deleteRefs[..i], remotes), branch.value.name, dryRun);
        calls := calls + [(branch.value.name, dryRun)];
      }
    }
    assert deleteRefs[..|deleteRefs|] == deleteRefs;
  }

  lemma {:induction false} CallsConcat(a: seq<string>, b: seq<string>, dryRun: bool)
    ensures Calls(a + b, dryRun) == Calls(a, dryRun) + Calls(b, dryRun)
  {
    assert |Calls(a + b, dryRun)| == |Calls(a, dryRun) + Calls(b, dryRun)|;
    forall k | 0 <= k < |a + b| ensures Calls(a + b, dryRun)[k] == (Calls(a, dryRun) + Calls(b, dryRun))[k] {
      if k >= |a| {
        assert (a + b)[k] == b[k - |a|];
      }
    }
  }

  lemma CallsSnoc(names: seq<string>, name: string, dryRun: bool)
    ensures Calls(names + [name], dryRun) == Calls(names, dryRun) + [(name, dryRun)]
  {
    CallsConcat(names, [name], dryRun);
  }

  lemma {:induction false} DeleteTargetsAsWrittenSnoc(refs: seq<string>, ref: string, remotes: seq<Branches.RemoteBranch>)
    ensures DeleteTargetsAsWritten(refs + [ref], remotes) == DeleteTargetsAsWritten(refs, remotes) +
      (if LookupAsWritten(ref, remotes).Some? then [LookupAsWritten(ref, remotes).value.name] else [])
    decreases |refs|
  {
    if |refs| == 0 {
      assert [ref][1..] == [];
    } else {
      assert (refs + [ref])[1..] == refs[1..] + [ref];
      DeleteTargetsAsWrittenSnoc(refs[1..], ref, remotes);
    }
  }

  lemma {:induction false} DeleteTargetsSnoc(refs: seq<string>, ref: string, remotes: seq<Branches.RemoteBranch>)
    ensures DeleteTargets(refs + [ref], remotes) == DeleteTargets(refs, remotes) +
      (if Lookup(ref, remotes).Some? then [Lookup(ref, remotes).value.name] else [])
    decreases |refs|
  {
    if |refs| == 0 {
      assert [ref][1..] == [];
    } else {
      assert (refs + [ref])[1..] == refs[1..] + [ref];
      DeleteTargetsSnoc(refs[1..], ref, remotes);
    }
  }

  /** The corrected run deletes what `sheetResultMenu` would remove for the same entries. */
  lemma {:induction false} DeleteTargetsAgreeWithResolution(refs: seq<string>, remotes: seq<Branches.RemoteBranch>)
    ensures DeleteTargets(refs, remotes) == Branches.BranchNames(ResolveAll(refs, remotes).deleteBranches)
    decreases |refs|
  {
    if |refs| > 0 {
      var init := refs[..|refs| - 1];
      var last := refs[|refs| - 1];
      assert refs == init + [last];
      DeleteTargetsAgreeWithResolution(init, remotes);
      DeleteTargetsSnoc(init, last, remotes);
      ResolveAllSnocDeletes(init, last, remotes);
      var d := ResolveAll(init, remotes).deleteBranches;
      if Lookup(last, remotes).Some? {
        Branches.BranchNamesSnoc(d, Lookup(last, remotes).value);
      } else {
        assert d + [] == d;
      }
    }
  }
}
