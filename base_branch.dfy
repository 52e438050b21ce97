/**
 * The choice of the base branch a review compares against (src/flows/reviewRemoteBranches.js and
 * the older src/reviewRemoteBranches.js): 'develop' or 'master' when the remote has one, otherwise
 * the user's pick from the branch names, listed with the default names moved to the front.
 */
module BaseBranch {
  import opened Wrappers
  import opened Text
  import opened Collections
  import opened Branches
  import opened ReviewFlows

  /** `i = choices.indexOf(x); if (i > 0) { choices.splice(i, 1); choices.unshift(x); }` */
  function MovedToFront(choices: seq<string>, x: string): seq<string> {
    var i := IndexOf(choices, x);
    if i > 0 then [x] + RemoveAt(choices, i) else choices
  }

  /** Moving a name to the front reorders the list: nothing is lost, the name comes first, the rest keeps its order. */
  lemma MovedToFrontReorders(choices: seq<string>, x: string)
    ensures multiset(MovedToFront(choices, x)) == multiset(choices)
    ensures x in choices ==> MovedToFront(choices, x)[0] == x
    ensures x !in choices ==> MovedToFront(choices, x) == choices
    ensures RemoveFirst(MovedToFront(choices, x), x) == RemoveFirst(choices, x)
  {
    var i := IndexOf(choices, x);
    if i > 0 {
      var m := MovedToFront(choices, x);
      RemoveFirstCons(m, x);
      assert m[1..] == RemoveAt(choices, i);
    }
  }

  /** The names moved by the `forEach`, the first `k` of them in turn. */
  function PromoteAll(choices: seq<string>, names: seq<string>): seq<string>
    decreases |names|
  {
    if |names| == 0 then choices
    else MovedToFront(PromoteAll(choices, names[..|names| - 1]), names[|names| - 1])
  }

  /** The choice list after the reordering: 'develop' moved to the front, then 'master'. */
  function PromoteDefaults(choices: seq<string>): seq<string> {
    PromoteAll(choices, DefaultBaseBranches)
  }

  lemma PromoteDefaultsSteps(choices: seq<string>)
    ensures PromoteDefaults(choices) == MovedToFront(MovedToFront(choices, "develop"), "master")
  {
    var first := DefaultBaseBranches[..1];
    assert first[..0] == [] && first[0] == "develop";
    assert PromoteAll(choices, first) == MovedToFront(choices, "develop");
    assert DefaultBaseBranches[..|DefaultBaseBranches| - 1] == first;
  }

  /** The reordering loop of `selectBaseBranch`, on the list of choices it mutates. */
  method OrderChoices(choices: seq<string>) returns (ordered: seq<string>)
    ensures ordered == PromoteDefaults(choices)
  {
    ordered := choices;
    for k := 0 to |DefaultBaseBranches|
      invariant ordered == PromoteAll(choices, DefaultBaseBranches[..k])
    {
      var branchName := DefaultBaseBranches[k];
      assert DefaultBaseBranches[..k + 1][..k] == DefaultBaseBranches[..k];
      var choiceIndex := IndexOf(ordered, branchName);
      if choiceIndex > 0 {
        ordered := RemoveAt(ordered, choiceIndex);
        ordered := [branchName] + ordered;
      }
    }
    assert DefaultBaseBranches[..|DefaultBaseBranches|] == DefaultBaseBranches;
  }

  /** The reordering loses and adds nothing, and apart from the two default names keeps the original order. */
  lemma PromoteDefaultsPermutes(choices: seq<string>)
    ensures multiset(PromoteDefaults(choices)) == multiset(choices)
    ensures RemoveFirst(RemoveFirst(PromoteDefaults(choices), "master"), "develop") ==
      RemoveFirst(RemoveFirst(choices, "develop"), "master")
  {
    PromoteDefaultsSteps(choices);
    var d := MovedToFront(choices, "develop");
    MovedToFrontReorders(choices, "develop");
    MovedToFrontReorders(d, "master");
    RemoveFirstCommutes(d, "master", "develop");
  }

  /** A present 'master' comes first, and a present 'develop' next (first when there is no 'master'). */
  lemma PromoteDefaultsFront(choices: seq<string>)
    ensures |PromoteDefaults(choices)| == |choices|
    ensures "master" in choices ==> PromoteDefaults(choices)[0] == "master"
    ensures "develop" in choices && "master" in choices ==>
      |PromoteDefaults(choices)| > 1 && PromoteDefaults(choices)[1] == "develop"
    ensures "develop" in choices && "master" !in choices ==> PromoteDefaults(choices)[0] == "develop"
  {
    PromoteDefaultsSteps(choices);
    var d := MovedToFront(choices, "develop");
    var p := MovedToFront(d, "master");
    MovedToFrontReorders(choices, "develop");
    MovedToFrontReorders(d, "master");
    assert "master" in choices ==> "master" in multiset(d);
    if "develop" in choices && "master" in choices {
      var j := IndexOf(d, "master");
      assert d[0] == "develop";
      assert j > 0;
      assert p == ["master"] + RemoveAt(d, j);
      assert RemoveAt(d, j)[0] == d[0];
    }
    if "develop" in choices && "master" !in choices {
      assert "master" !in multiset(d);
    }
  }

  /**
   * The reordered list is a permutation of the choices: a present 'master' comes first and a present
   * 'develop' second (first when there is no 'master'), and without those two the list is unchanged.
   */
  lemma PromoteDefaultsOrder(choices: seq<string>)
    ensures multiset(PromoteDefaults(choices)) == multiset(choices)
    ensures "master" in choices ==> PromoteDefaults(choices)[0] == "master"
    ensures "develop" in choices && "master" in choices ==>
      |PromoteDefaults(choices)| > 1 && PromoteDefaults(choices)[1] == "develop"
    ensures "develop" in choices && "master" !in choices ==> PromoteDefaults(choices)[0] == "develop"
    ensures RemoveFirst(RemoveFirst(PromoteDefaults(choices), "master"), "develop") ==
      RemoveFirst(RemoveFirst(choices, "develop"), "master")
  {
    PromoteDefaultsPermutes(choices);
    PromoteDefaultsFront(choices);
  }

  /** Some remote branch name ends with `suffix`. */
  predicate SomeNameEndsWith(names: seq<string>, suffix: string) {
    exists k :: 0 <= k < |names| && EndsWith(names[k], suffix)
  }

  /** `DEFAULT_BASE_BRANCHES.find(...)` on the branch names, skipped when `noDefaultBase`. */
  function DefaultBase(names: seq<string>, noDefaultBase: bool): (r: Option<string>)
    ensures r.Some? ==> r.value in DefaultBaseBranches && SomeNameEndsWith(names, r.value)
  {
    if noDefaultBase then None
    else if SomeNameEndsWith(names, DefaultBaseBranches[0]) then Some(DefaultBaseBranches[0])
    else if SomeNameEndsWith(names, DefaultBaseBranches[1]) then Some(DefaultBaseBranches[1])
    else None
  }

  /** 'develop' wins over 'master'; there is no default exactly when it is skipped or neither name ends a branch name. */
  lemma DefaultBasePrefersDevelop(names: seq<string>, noDefaultBase: bool)
    ensures !noDefaultBase && SomeNameEndsWith(names, "develop") ==> DefaultBase(names, noDefaultBase) == Some("develop")
    ensures !noDefaultBase && !SomeNameEndsWith(names, "develop") && SomeNameEndsWith(names, "master") ==>
      DefaultBase(names, noDefaultBase) == Some("master")
    ensures DefaultBase(names, noDefaultBase).None? <==>
      noDefaultBase || (!SomeNameEndsWith(names, "develop") && !SomeNameEndsWith(names, "master"))
  {
  }

  /** The entries of the "What would you like to do?" menu. */
  datatype MenuChoice = ReviewWithSheets | ReviewInteractively | SelectDifferentBase | ReturnToMainMenu

  /** Where the menu leads: back to the main menu with `true`, or on to the chosen flow. */
  datatype Next =
    | Return(result: bool)
    | RunSheets(baseBranch: string)
    | RunInteractive(baseBranch: string)
    | Restart(noDefaultBase: bool)

  function MenuNext(choice: MenuChoice, baseBranch: string): (r: Next)
    ensures r.Return? <==> choice == ReturnToMainMenu
    ensures r.Return? ==> r.result
    ensures r.Restart? ==> r.noDefaultBase
  {
    match choice
    case ReviewWithSheets => RunSheets(baseBranch)
    case ReviewInteractively => RunInteractive(baseBranch)
    case SelectDifferentBase => Restart(true)
    case ReturnToMainMenu => Return(true)
  }

  /**
   * `reviewRemoteBranches(noDefaultBase)`: the base branch used, the list offered when the user is
   * asked (`picked` is the answer), and where the menu `choice` leads.
   */
  method ReviewRemoteBranches(remotes: seq<RemoteBranch>, noDefaultBase: bool, picked: string, choice: MenuChoice)
    returns (baseBranch: string, offered: Option<seq<string>>, next: Next)
    ensures offered.Some? <==> DefaultBase(BranchNames(remotes), noDefaultBase).None?
    ensures offered.Some? ==> offered.value == PromoteDefaults(ShortNames(remotes)) && baseBranch == picked
    ensures offered.None? ==> baseBranch == DefaultBase(BranchNames(remotes), noDefaultBase).value
    ensures next == MenuNext(choice, baseBranch)
  {
    var found := DefaultBase(BranchNames(remotes), noDefaultBase);
    if found.Some? {
      baseBranch := found.value;
      offered := None;
    } else {
      var choices := OrderChoices(ShortNames(remotes));
      offered := Some(choices);
      baseBranch := picked;
    }
    next := MenuNext(choice, baseBranch);
  }

  /** A branch reference as the older flow receives it: its full name and its shorthand. */
  datatype RemoteRef = RemoteRef(name: string, shorthand: string)

  /** `branch.shorthand.replace(/^.+?\//, '')` for each reference. */
  function LegacyChoices(refs: seq<RemoteRef>): (r: seq<string>)
    ensures |r| == |refs|
    ensures forall k :: 0 <= k < |refs| ==> r[k] == ShortName(refs[k].shorthand)
    decreases |refs|
  {
    if |refs| == 0 then [] else [ShortName(refs[0].shorthand)] + LegacyChoices(refs[1..])
  }

  function RefNames(refs: seq<RemoteRef>): (r: seq<string>)
    ensures |r| == |refs|
    ensures forall k :: 0 <= k < |refs| ==> r[k] == refs[k].name
    decreases |refs|
  {
    if |refs| == 0 then [] else [refs[0].name] + RefNames(refs[1..])
  }

  /** The choices of the older flow are the references' branch names without the remote: `origin/feature` lists as `feature`. */
  lemma LegacyChoiceOfRemoteShorthand(remote: string, branch: string)
    requires |remote| > 0 && '/' !in remote && forall k :: 0 <= k < |remote| ==> !Branches.IsLineTerminator(remote[k])
    ensures LegacyChoices([RemoteRef("refs/remotes/" + remote + "/" + branch, remote + "/" + branch)]) == [branch]
  {
    ShortNameOfRemoteShorthand(remote, branch);
  }

  /** The older module, whose module-level `baseBranch` the flow reassigns. */
  class LegacyBaseSelection {
    var baseBranch: Option<string>

    constructor()
      ensures baseBranch.None?
    {
      baseBranch := None;
    }

    /** The older `selectBaseBranch`: offers the reordered short names and stores the answer. */
    method SelectBaseBranch(refs: seq<RemoteRef>, picked: string) returns (offered: seq<string>)
      modifies this
      ensures offered == PromoteDefaults(LegacyChoices(refs))
      ensures baseBranch == Some(picked)
    {
      offered := OrderChoices(LegacyChoices(refs));
      baseBranch := Some(picked);
    }

    /** The older `reviewRemoteBranches(argv, remoteBranches, noDefaultBase)`. */
    method ReviewRemoteBranches(refs: seq<RemoteRef>, noDefaultBase: bool, picked: string, choice: MenuChoice)
      returns (offered: Option<seq<string>>, next: Next)
      modifies this
      ensures offered.Some? <==> DefaultBase(RefNames(refs), noDefaultBase).None?
      ensures offered.Some? ==> offered.value == PromoteDefaults(LegacyChoices(refs)) && baseBranch == Some(picked)
      ensures offered.None? ==> baseBranch == DefaultBase(RefNames(refs), noDefaultBase)
      ensures baseBranch.Some? && next == MenuNext(choice, baseBranch.value)
    {
      baseBranch := DefaultBase(RefNames(refs), noDefaultBase);
      // The source tests `!baseBranch`, which is also true of an empty name; a default found by
      // `DefaultBase` ends with a base name, so here only its absence sends the user to the menu.
      if baseBranch.None? || baseBranch.value == "" {
        var choices := SelectBaseBranch(refs, picked);
        offered := Some(choices);
      } else {
        offered := None;
      }
      next := MenuNext(choice, baseBranch.value);
    }
  }
}
