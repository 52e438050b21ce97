/**
 * The review flows around the branch comparison: which remote branches are reviewed, what is sent
 * to the sheet generator (src/flows/reviewRemoteGoogleSheets.js and the older
 * src/sheets/reviewRemoteGoogleSheetsLocal.js), and the one-branch-at-a-time interactive review
 * with its paged commit listing (src/flows/reviewRemoteInteractive.js and the older
 * src/reviewRemoteInteractive.js).
 */
module ReviewFlows {
  import opened Wrappers
  import opened Text
  import opened Collections
  import opened Branches
  import BranchRows
  import SheetProcessors

  /** `DEFAULT_BASE_BRANCHES`. */
  const DefaultBaseBranches: seq<string> := ["develop", "master"]

  /** `list.some(branchName => name.endsWith(branchName))`. */
  predicate EndsWithAny(name: string, list: seq<string>) {
    exists k :: 0 <= k < |list| && EndsWith(name, list[k])
  }

  /** A base branch: its name ends with 'develop', 'master' or the chosen base branch. */
  predicate IsBaseLike(name: string, baseBranch: string) {
    EndsWithAny(name, DefaultBaseBranches) || EndsWith(name, baseBranch)
  }

  lemma BaseLikeNames(name: string, baseBranch: string)
    ensures IsBaseLike(name, baseBranch) <==>
      EndsWith(name, "develop") || EndsWith(name, "master") || EndsWith(name, baseBranch)
  {
    if EndsWith(name, "develop") {
      assert EndsWith(name, DefaultBaseBranches[0]);
    }
    if EndsWith(name, "master") {
      assert EndsWith(name, DefaultBaseBranches[1]);
    }
  }

  function Reviewable(baseBranch: string): RemoteBranch -> bool {
    (b: RemoteBranch) => !IsBaseLike(b.name, baseBranch) && b.onTargetRemote
  }

  function ReviewableAnyRemote(baseBranch: string): RemoteBranch -> bool {
    (b: RemoteBranch) => !IsBaseLike(b.name, baseBranch)
  }

  /** `branchesToReview` of the current flows: branches of the target remote that are not base branches. */
  function BranchesToReview(remotes: seq<RemoteBranch>, baseBranch: string): seq<RemoteBranch> {
    Filter(remotes, Reviewable(baseBranch))
  }

  /** The older flows' filter: the same without the target-remote check. */
  function LegacyBranchesToReview(remotes: seq<RemoteBranch>, baseBranch: string): seq<RemoteBranch> {
    Filter(remotes, ReviewableAnyRemote(baseBranch))
  }

  /**
   * A branch is reviewed exactly when it is a remote branch of the target remote whose name ends
   * neither with 'develop', 'master' nor the base branch; the reviewed branches keep their order.
   */
  lemma BranchesToReviewMembers(remotes: seq<RemoteBranch>, baseBranch: string)
    ensures forall b :: b in BranchesToReview(remotes, baseBranch) <==>
      b in remotes && b.onTargetRemote && !EndsWith(b.name, "develop") && !EndsWith(b.name, "master") && !EndsWith(b.name, baseBranch)
    ensures IsSubsequence(BranchesToReview(remotes, baseBranch), remotes)
  {
    var r := BranchesToReview(remotes, baseBranch);
    forall b ensures b in r <==>
      b in remotes && b.onTargetRemote && !EndsWith(b.name, "develop") && !EndsWith(b.name, "master") && !EndsWith(b.name, baseBranch)
    {
      BaseLikeNames(b.name, baseBranch);
      if b in r {
        var k :| 0 <= k < |r| && r[k] == b;
      }
      if b in remotes && Reviewable(baseBranch)(b) {
        var k :| 0 <= k < |remotes| && remotes[k] == b;
      }
    }
    FilterIsSubsequence(remotes, Reviewable(baseBranch));
  }

  /** The older filter keeps the base-branch exclusion and reviews every branch the newer one does. */
  lemma LegacyBranchesToReviewMembers(remotes: seq<RemoteBranch>, baseBranch: string)
    ensures forall b :: b in LegacyBranchesToReview(remotes, baseBranch) <==>
      b in remotes && !EndsWith(b.name, "develop") && !EndsWith(b.name, "master") && !EndsWith(b.name, baseBranch)
    ensures forall b :: b in BranchesToReview(remotes, baseBranch) ==> b in LegacyBranchesToReview(remotes, baseBranch)
  {
    var r := LegacyBranchesToReview(remotes, baseBranch);
    forall b ensures b in r <==>
      b in remotes && !EndsWith(b.name, "develop") && !EndsWith(b.name, "master") && !EndsWith(b.name, baseBranch)
    {
      BaseLikeNames(b.name, baseBranch);
      if b in r {
        var k :| 0 <= k < |r| && r[k] == b;
      }
      if b in remotes && ReviewableAnyRemote(baseBranch)(b) {
        var k :| 0 <= k < |remotes| && remotes[k] == b;
      }
    }
    BranchesToReviewMembers(remotes, baseBranch);
  }

  /** The `apiChoice` values of the API prompt. */
  const ReviewDirect := 0
  const ReviewProxy := 1
  const ReviewProxyNoCommits := 2

  datatype Api = GoogleApi | ProxyApi

  /** The API the sheet is created through and whether commit messages are sent. */
  function ApiFor(apiChoice: int): (r: (Api, bool))
    ensures r.0 == GoogleApi <==> apiChoice == ReviewDirect
    ensures r.1 <==> apiChoice != ReviewProxyNoCommits
  {
    (if apiChoice == ReviewDirect then GoogleApi else ProxyApi, apiChoice != ReviewProxyNoCommits)
  }

  /** `ahead.slice(0, limit)`. */
  function Take<T>(s: seq<T>, limit: nat): (r: seq<T>)
    ensures |r| == if |s| < limit then |s| else limit
    ensures r == s[..|r|]
  {
    if |s| < limit then s else s[..limit]
  }

  /** The commit record sent to the sheet: a 6-character sha, the author, the time and, if included, the summary. */
  function ProjectCommit(c: Commit, includeCommitMessages: bool): BranchRows.SheetCommit {
    BranchRows.SheetCommit(BranchRows.ShortSha(c.sha), c.author, c.timeMs,
      if includeCommitMessages then Some(c.summary) else None)
  }

  function ProjectCommits(cs: seq<Commit>, includeCommitMessages: bool): (r: seq<BranchRows.SheetCommit>)
    ensures |r| == |cs|
    ensures forall k :: 0 <= k < |cs| ==> r[k] == ProjectCommit(cs[k], includeCommitMessages)
    decreases |cs|
  {
    if |cs| == 0 then [] else [ProjectCommit(cs[0], includeCommitMessages)] + ProjectCommits(cs[1..], includeCommitMessages)
  }

  /** The `commits` entry of one reviewed branch: at most `limit` projected ahead commits and the full counts. */
  function BranchCommitsOf(ab: AheadBehind, limit: nat, includeCommitMessages: bool): BranchRows.BranchCommits {
    BranchRows.BranchCommits(ProjectCommits(Take(ab.ahead, limit), includeCommitMessages), |ab.ahead|, |ab.behind|)
  }

  /**
   * What a branch's sheet entry says about its comparison: the first ahead commits up to the limit,
   * each with a sha of at most 6 characters that starts the full sha, a summary exactly when
   * messages are included, and the untruncated counts.
   */
  lemma BranchCommitsOfProjects(ab: AheadBehind, limit: nat, includeCommitMessages: bool)
    ensures |BranchCommitsOf(ab, limit, includeCommitMessages).ahead| <= limit
    ensures |BranchCommitsOf(ab, limit, includeCommitMessages).ahead| <= |ab.ahead|
    ensures BranchCommitsOf(ab, limit, includeCommitMessages).numAhead == |ab.ahead|
    ensures BranchCommitsOf(ab, limit, includeCommitMessages).numBehind == |ab.behind|
    ensures forall k :: 0 <= k < |BranchCommitsOf(ab, limit, includeCommitMessages).ahead| ==>
      var c := BranchCommitsOf(ab, limit, includeCommitMessages).ahead[k];
      |c.sha| <= 6 && StartsWith(ab.ahead[k].sha, c.sha) && c.author == ab.ahead[k].author &&
      c.timeMs == ab.ahead[k].timeMs && (c.summary.Some? <==> includeCommitMessages)
  {
  }

  /** The outcome of `reviewRemoteGoogleSheets` up to the creation of the sheet. */
  datatype SheetRequest =
    | AuthenticationFailed                                   // returns false
    | CreateSheet(api: Api, branches: seq<BranchRows.BranchData>, baseBranch: string)

  /** The branch entries sent for the reviewed branches, entry `i` pairing branch `i` with its comparison. */
  function FormattedBranches(toReview: seq<RemoteBranch>, history: string -> seq<Commit>, shaInBase: seq<Sha>,
                             limit: nat, includeCommitMessages: bool): (r: seq<BranchRows.BranchData>)
    ensures |r| == |toReview|
    ensures forall k :: 0 <= k < |r| ==> r[k] == BranchRows.BranchData(toReview[k].shortName, toReview[k].name, toReview[k].headSha,
      BranchCommitsOf(CompareWithBase(history(toReview[k].name), shaInBase), limit, includeCommitMessages))
    decreases |toReview|
  {
    if |toReview| == 0 then []
    else
      var b := toReview[0];
      [BranchRows.BranchData(b.shortName, b.name, b.headSha,
        BranchCommitsOf(CompareWithBase(history(b.name), shaInBase), limit, includeCommitMessages))] +
      FormattedBranches(toReview[1..], history, shaInBase, limit, includeCommitMessages)
  }

  /**
   * `reviewRemoteGoogleSheets(baseBranch)`: the API choice, the authentication result and the
   * branches with their enumerated histories (`history`) and the base's shas are its inputs.
   */
  function ReviewRemoteGoogleSheets(apiChoice: int, authenticated: bool, remotes: seq<RemoteBranch>,
                                    history: string -> seq<Commit>, shaInBase: seq<Sha>,
                                    baseBranch: string, limit: nat): SheetRequest
  {
    var (api, includeCommitMessages) := ApiFor(apiChoice);
    if !authenticated then AuthenticationFailed
    else CreateSheet(api, FormattedBranches(BranchesToReview(remotes, baseBranch), history, shaInBase, limit, includeCommitMessages), baseBranch)
  }

  /** Remote branch records as `getBranches` builds them for the target remote. */
  predicate TargetFlagsHold(remotes: seq<RemoteBranch>, targetRemote: string) {
    forall k :: 0 <= k < |remotes| ==> remotes[k].onTargetRemote == OnTargetRemote(remotes[k].name, targetRemote)
  }

  /**
   * End to end: the sheet generated for the reviewed branches, read back by the `0.1.0` processor
   * with the target remote in its header, yields one unfilled entry per reviewed branch.
   */
  lemma ReviewSheetReadsBack(apiChoice: int, remotes: seq<RemoteBranch>, history: string -> seq<Commit>, shaInBase: seq<Sha>,
                             baseBranch: string, limit: nat, targetRemote: string, fmt: BranchRows.TimeFormat)
    requires TargetFlagsHold(remotes, targetRemote)
    ensures ReviewRemoteGoogleSheets(apiChoice, true, remotes, history, shaInBase, baseBranch, limit).CreateSheet?
    ensures var bs := ReviewRemoteGoogleSheets(apiChoice, true, remotes, history, shaInBase, baseBranch, limit).branches;
      SheetProcessors.BranchEntries(BranchRows.GenerateBranchRows(bs, limit, fmt), "refs/remotes/" + targetRemote) ==
      BranchRows.UnfilledEntries(BranchRows.Grouped(bs, BranchRows.GroupKeys(bs)))
    ensures var bs := ReviewRemoteGoogleSheets(apiChoice, true, remotes, history, shaInBase, baseBranch, limit).branches;
      multiset(BranchRows.Grouped(bs, BranchRows.GroupKeys(bs))) == multiset(bs) &&
      |SheetProcessors.BranchEntries(BranchRows.GenerateBranchRows(bs, limit, fmt), "refs/remotes/" + targetRemote)| ==
      |BranchesToReview(remotes, baseBranch)|
  {
    var toReview := BranchesToReview(remotes, baseBranch);
    var bs := FormattedBranches(toReview, history, shaInBase, limit, ApiFor(apiChoice).1);
    var prefix := "refs/remotes/" + targetRemote;
    ReviewedOnTarget(remotes, baseBranch, targetRemote);
    forall k | 0 <= k < |bs| ensures StartsWith(bs[k].name, prefix) {
      assert bs[k].name == toReview[k].name;
      assert toReview[k] in toReview;
      OnTargetUnderRemoteRefs(bs[k].name, targetRemote);
    }
    BranchRows.GeneratedRowsReadBack(bs, limit, fmt, prefix);
    BranchRows.GroupedIsPermutation(bs);
  }

  /** A reference on the target remote starts with `refs/remotes/<targetRemote>`, the processor's prefix. */
  lemma OnTargetUnderRemoteRefs(name: string, targetRemote: string)
    requires OnTargetRemote(name, targetRemote)
    ensures StartsWith(name, "refs/remotes/" + targetRemote)
  {
    var prefix := "refs/remotes/" + targetRemote;
    assert name[..|prefix|] == RemoteRefPrefix(targetRemote)[..|prefix|];
  }

  /** With the flags set as `getBranches` sets them, every reviewed branch lies under the target remote. */
  lemma ReviewedOnTarget(remotes: seq<RemoteBranch>, baseBranch: string, targetRemote: string)
    requires TargetFlagsHold(remotes, targetRemote)
    ensures forall b :: b in BranchesToReview(remotes, baseBranch) ==> OnTargetRemote(b.name, targetRemote)
  {
    var toReview := BranchesToReview(remotes, baseBranch);
    forall b | b in toReview ensures OnTargetRemote(b.name, targetRemote) {
      var i :| 0 <= i < |toReview| && toReview[i] == b;
      assert Reviewable(baseBranch)(b) && b in remotes;
      var j :| 0 <= j < |remotes| && remotes[j] == b;
    }
  }

  /** The outcome of `reviewGoogleSheetsLocal` up to the creation of the sheet. */
  datatype LocalSheetRequest =
    | LocalAuthenticationFailed                              // returns true
    | LocalCreateSheet(branches: seq<RemoteBranch>, branchCommits: seq<AheadBehind>)

  function Comparisons(bs: seq<RemoteBranch>, history: string -> seq<Commit>, shaInBase: seq<Sha>): (r: seq<AheadBehind>)
    ensures |r| == |bs|
    ensures forall k :: 0 <= k < |bs| ==> r[k] == CompareWithBase(history(bs[k].name), shaInBase)
    decreases |bs|
  {
    if |bs| == 0 then [] else [CompareWithBase(history(bs[0].name), shaInBase)] + Comparisons(bs[1..], history, shaInBase)
  }

  /** `reviewGoogleSheetsLocal`: the older flow compares every non-base branch and passes the full comparisons on. */
  function ReviewGoogleSheetsLocal(authenticated: bool, remotes: seq<RemoteBranch>, history: string -> seq<Commit>,
                                   shaInBase: seq<Sha>, baseBranch: string): (r: LocalSheetRequest)
    ensures r.LocalCreateSheet? ==> |r.branchCommits| == |r.branches|
  {
    if !authenticated then LocalAuthenticationFailed
    else
      var bs := LegacyBranchesToReview(remotes, baseBranch);
      LocalCreateSheet(bs, Comparisons(bs, history, shaInBase))
  }

  /** `COMMITS_PAGE_SIZE`. */
  const CommitsPageSize: nat := 5

  /** `commits.slice(page * S, (page + 1) * S)`, with `slice`'s clamping to the length. */
  function Page<T>(commits: seq<T>, page: nat): (r: seq<T>)
    ensures |r| <= CommitsPageSize
  {
    var start := if page * CommitsPageSize < |commits| then page * CommitsPageSize else |commits|;
    var end := if (page + 1) * CommitsPageSize < |commits| then (page + 1) * CommitsPageSize else |commits|;
    commits[start..end]
  }

  predicate HasMore(count: nat, page: nat) {
    count > (page + 1) * CommitsPageSize
  }

  /** The commits listed on pages 0 to `page`, one page after the other. */
  function PagesUpTo<T>(commits: seq<T>, page: nat): seq<T>
    decreases page
  {
    if page == 0 then Page(commits, 0) else PagesUpTo(commits, page - 1) + Page(commits, page)
  }

  /** Successive pages list the commits in order without gap or overlap. */
  lemma {:induction false} PagesCover<T>(commits: seq<T>, page: nat)
    ensures PagesUpTo(commits, page) == commits[..if (page + 1) * CommitsPageSize < |commits| then (page + 1) * CommitsPageSize else |commits|]
    decreases page
  {
    if page > 0 {
      PagesCover(commits, page - 1);
      var mid := if page * CommitsPageSize < |commits| then page * CommitsPageSize else |commits|;
      var end := if (page + 1) * CommitsPageSize < |commits| then (page + 1) * CommitsPageSize else |commits|;
      assert commits[..mid] + commits[mid..end] == commits[..end];
    }
  }

  /** The last page, the one without "show me more commits", lists the last of the commits. */
  lemma LastPageEndsList<T>(commits: seq<T>, page: nat)
    requires !HasMore(|commits|, page)
    ensures PagesUpTo(commits, page) == commits
  {
    PagesCover(commits, page);
  }

  /** The action values of the branch prompt. */
  const ActionExit := 0
  const ActionShowMore := 1
  const ActionKeep := 2
  const ActionDelete := 3

  /** The values the prompt offers: keep, delete, show more only when there is more, exit. */
  function Choices(hasMore: bool): seq<int> {
    [ActionKeep, ActionDelete] + (if hasMore then [ActionShowMore] else []) + [ActionExit]
  }

  /** The user's answers, `pick(p)` on each page `p` that can be reached, are among the values offered there. */
  predicate OfferedAnswers(count: nat, pick: nat -> int) {
    forall p: nat :: p <= count ==> pick(p) in Choices(HasMore(count, p))
  }

  /** `logCommitsAndPrompt(commits, page)`: the action chosen and the page it was chosen on. */
  function LogCommitsAndPrompt<T>(commits: seq<T>, page: nat, pick: nat -> int): (r: (int, nat))
    requires OfferedAnswers(|commits|, pick)
    requires page == 0 || page * CommitsPageSize < |commits|
    ensures r.0 in [ActionKeep, ActionDelete, ActionExit]
    ensures page <= r.1
    ensures forall p :: page <= p < r.1 ==> HasMore(|commits|, p) && pick(p) == ActionShowMore
    ensures pick(r.1) == r.0
    decreases |commits| - page * CommitsPageSize
  {
    var action := pick(page);
    if action == ActionShowMore then
      assert HasMore(|commits|, page);
      LogCommitsAndPrompt(commits, page + 1, pick)
    else (action, page)
  }

  /** The answer returned after paging through the commits, and every commit shown by then. */
  lemma PromptShowsPagesInOrder<T>(commits: seq<T>, pick: nat -> int)
    requires OfferedAnswers(|commits|, pick)
    ensures var (action, last) := LogCommitsAndPrompt(commits, 0, pick);
      PagesUpTo(commits, last) == commits[..if (last + 1) * CommitsPageSize < |commits| then (last + 1) * CommitsPageSize else |commits|]
  {
    PagesCover(commits, LogCommitsAndPrompt(commits, 0, pick).1);
  }

  /** How the review loop ends and the branches it deleted by then, in order. */
  datatype Review = Review(result: Result<bool, string>, deleted: seq<RemoteBranch>)

  /** The review loop from branch `i` on. */
  function ReviewFrom(bs: seq<RemoteBranch>, actionAt: nat -> int, i: nat): Review
    decreases |bs| - i
  {
    if i >= |bs| then Review(Ok(false), [])
    else
      var action := actionAt(i);
      if action == ActionExit then Review(Ok(false), [])
      else if action == ActionDelete then
        var rest := ReviewFrom(bs, actionAt, i + 1);
        Review(rest.result, [bs[i]] + rest.deleted)
      else if action == ActionKeep then ReviewFrom(bs, actionAt, i + 1)
      else Review(Err("Unknown action: " + IntToString(action)), [])
  }

  /**
   * The loop of `reviewRemoteInteractive`: `actionAt(i)` is what the prompt returned for branch
   * `i`; the branches handed to the removal are listed in order.
   */
  method ReviewLoop(bs: seq<RemoteBranch>, actionAt: nat -> int) returns (r: Result<bool, string>, deleted: seq<RemoteBranch>)
    ensures Review(r, deleted) == ReviewFrom(bs, actionAt, 0)
  {
    deleted := [];
    for i := 0 to |bs|
      invariant ReviewFrom(bs, actionAt, 0).result == ReviewFrom(bs, actionAt, i).result
      invariant ReviewFrom(bs, actionAt, 0).deleted == deleted + ReviewFrom(bs, actionAt, i).deleted
    {
      var action := actionAt(i);
      if action == ActionExit {
        return Ok(false), deleted;
      } else if action == ActionDelete {
        assert deleted + ReviewFrom(bs, actionAt, i).deleted == (deleted + [bs[i]]) + ReviewFrom(bs, actionAt, i + 1).deleted;
        deleted := deleted + [bs[i]];
      } else if action == ActionKeep {
      } else {
        return Err("Unknown action: " + IntToString(action)), deleted;
      }
    }
    r := Ok(false);
  }

  /** The first branch from `i` on that was answered with something other than keep or delete, or the end. */
  function StopIndex(bs: seq<RemoteBranch>, actionAt: nat -> int, i: nat): (j: nat)
    requires i <= |bs|
    ensures i <= j <= |bs|
    ensures forall m :: i <= m < j ==> actionAt(m) == ActionKeep || actionAt(m) == ActionDelete
    ensures j < |bs| ==> actionAt(j) != ActionKeep && actionAt(j) != ActionDelete
    decreases |bs| - i
  {
    if i == |bs| || (actionAt(i) != ActionKeep && actionAt(i) != ActionDelete) then i
    else StopIndex(bs, actionAt, i + 1)
  }

  /**
   * The loop stops at the first answer other than keep or delete: an exit, or the end of the
   * branches, returns false; any other answer fails with "Unknown action: <answer>".
   */
  lemma {:induction false} ReviewStops(bs: seq<RemoteBranch>, actionAt: nat -> int, i: nat)
    requires i <= |bs|
    ensures var j := StopIndex(bs, actionAt, i);
      ReviewFrom(bs, actionAt, i).result ==
        if j < |bs| && actionAt(j) != ActionExit then Err("Unknown action: " + IntToString(actionAt(j))) else Ok(false)
    decreases |bs| - i
  {
    if i < |bs| && (actionAt(i) == ActionKeep || actionAt(i) == ActionDelete) {
      ReviewStops(bs, actionAt, i + 1);
    }
  }

  /** Only branches answered with delete, before the loop stops, are deleted. */
  lemma {:induction false} ReviewDeletesOnlyMarked(bs: seq<RemoteBranch>, actionAt: nat -> int, i: nat)
    requires i <= |bs|
    ensures forall b :: b in ReviewFrom(bs, actionAt, i).deleted ==>
      exists j :: i <= j < StopIndex(bs, actionAt, i) && bs[j] == b && actionAt(j) == ActionDelete
    ensures |ReviewFrom(bs, actionAt, i).deleted| <= StopIndex(bs, actionAt, i) - i
    decreases |bs| - i
  {
    if i < |bs| && (actionAt(i) == ActionKeep || actionAt(i) == ActionDelete) {
      ReviewDeletesOnlyMarked(bs, actionAt, i + 1);
    }
  }

  /** Every branch answered with delete before the loop stops is deleted. */
  lemma {:induction false} ReviewDeletesMarked(bs: seq<RemoteBranch>, actionAt: nat -> int, i: nat)
    requires i <= |bs|
    ensures forall j :: i <= j < StopIndex(bs, actionAt, i) && actionAt(j) == ActionDelete ==>
      bs[j] in ReviewFrom(bs, actionAt, i).deleted
    decreases |bs| - i
  {
    if i < |bs| && (actionAt(i) == ActionKeep || actionAt(i) == ActionDelete) {
      ReviewDeletesMarked(bs, actionAt, i + 1);
    }
  }

  /** The branches of `bs[i..j]` answered with delete, in order. */
  function MarkedBetween(bs: seq<RemoteBranch>, actionAt: nat -> int, i: nat, j: nat): seq<RemoteBranch>
    requires i <= j <= |bs|
    decreases j - i
  {
    if i == j then []
    else (if actionAt(i) == ActionDelete then [bs[i]] else []) + MarkedBetween(bs, actionAt, i + 1, j)
  }

  /** The deleted branches are exactly those answered with delete before the loop stops, in their order. */
  lemma {:induction false} ReviewDeletesExactly(bs: seq<RemoteBranch>, actionAt: nat -> int, i: nat)
    requires i <= |bs|
    ensures ReviewFrom(bs, actionAt, i).deleted == MarkedBetween(bs, actionAt, i, StopIndex(bs, actionAt, i))
    decreases |bs| - i
  {
    if i < |bs| && (actionAt(i) == ActionKeep || actionAt(i) == ActionDelete) {
      ReviewDeletesExactly(bs, actionAt, i + 1);
    }
  }

  /** `reviewRemoteInteractive(baseBranch)`: the refs handed to `removeReference`, in order. */
  method ReviewRemoteInteractive(remotes: seq<RemoteBranch>, baseBranch: string, actionAt: nat -> int)
    returns (r: Result<bool, string>, removed: seq<string>)
    ensures r == ReviewFrom(BranchesToReview(remotes, baseBranch), actionAt, 0).result
    ensures removed == BranchNames(ReviewFrom(BranchesToReview(remotes, baseBranch), actionAt, 0).deleted)
  {
    var deleted;
    r, deleted := ReviewLoop(BranchesToReview(remotes, baseBranch), actionAt);
    removed := BranchNames(deleted);
  }

  /** The calls `deleteRemoteBranch(branch.shortName, argv.d)` of the older flow. */
  function ShortNameDeletions(bs: seq<RemoteBranch>, dryRun: bool): (r: seq<(string, bool)>)
    ensures |r| == |bs|
    ensures forall k :: 0 <= k < |bs| ==> r[k] == (bs[k].shortName, dryRun)
    decreases |bs|
  {
    if |bs| == 0 then [] else [(bs[0].shortName, dryRun)] + ShortNameDeletions(bs[1..], dryRun)
  }

  /** The older `reviewRemoteInteractive(argv, remoteBranches, baseBranch, ...)`: deletes by short name, any remote. */
  method LegacyReviewRemoteInteractive(remotes: seq<RemoteBranch>, baseBranch: string, actionAt: nat -> int, dryRun: bool)
    returns (r: Result<bool, string>, deletions: seq<(string, bool)>)
    ensures r == ReviewFrom(LegacyBranchesToReview(remotes, baseBranch), actionAt, 0).result
    ensures deletions == ShortNameDeletions(ReviewFrom(LegacyBranchesToReview(remotes, baseBranch), actionAt, 0).deleted, dryRun)
  {
    var deleted;
    r, deleted := ReviewLoop(LegacyBranchesToReview(remotes, baseBranch), actionAt);
    deletions := ShortNameDeletions(deleted, dryRun);
  }
}
