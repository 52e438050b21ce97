/**
 * Branch bookkeeping of src/git/branches.js: the ahead/behind comparison of a branch
 * history with the base's shas, and the names and flags computed for each remote and
 * local branch reference.
 */
module Branches {
  import opened Wrappers
  import opened Text
  import opened Collections

  type Sha = string

  /** A commit as the history walk yields it. */
  datatype Commit = Commit(sha: Sha, author: string, timeMs: int, summary: string)

  /** A remote branch record built by `getBranches`. */
  datatype RemoteBranch = RemoteBranch(name: string, shortName: string, onTargetRemote: bool, headSha: Sha)

  /** A local branch record built by `getBranches`. */
  datatype LocalBranch = LocalBranch(
    name: string,
    shortName: string,
    remoteName: Option<string>,
    upstreamName: Option<string>,
    headSha: Sha,
    gone: bool)

  /** The result of `getBranchAheadBehind`. */
  datatype AheadBehind = AheadBehind(ahead: seq<Commit>, behind: seq<Sha>)

  function Shas(history: seq<Commit>): (r: seq<Sha>)
    ensures |r| == |history|
    ensures forall k :: 0 <= k < |r| ==> r[k] == history[k].sha
    decreases |history|
  {
    if |history| == 0 then [] else [history[0].sha] + Shas(history[1..])
  }

  /** The shas a history holds, as a set. */
  function ShaSet(history: seq<Commit>): set<Sha> {
    set k | 0 <= k < |history| :: history[k].sha
  }

  /** `getBranchAheadBehind(branchRef, shaInBase)` once the branch's history has been enumerated. */
  function CompareWithBase(history: seq<Commit>, shaInBase: seq<Sha>): AheadBehind
  {
    var shaInBranch := Shas(history);
    AheadBehind(
      Filter(history, (c: Commit) => c.sha !in shaInBase),
      Filter(shaInBase, (sha: Sha) => sha !in shaInBranch))
  }

  /** `ahead` holds exactly the branch commits whose sha the base lacks, `behind` exactly the base shas the branch lacks. */
  lemma CompareWithBaseMembers(history: seq<Commit>, shaInBase: seq<Sha>)
    ensures forall c :: c in CompareWithBase(history, shaInBase).ahead <==> c in history && c.sha !in shaInBase
    ensures forall sha :: sha in CompareWithBase(history, shaInBase).behind <==> sha in shaInBase && sha !in Shas(history)
  {
    var r := CompareWithBase(history, shaInBase);
    forall c ensures c in r.ahead <==> c in history && c.sha !in shaInBase {
      if c in r.ahead {
        var k :| 0 <= k < |r.ahead| && r.ahead[k] == c;
      }
      if c in history && c.sha !in shaInBase {
        var k :| 0 <= k < |history| && history[k] == c;
      }
    }
    forall sha ensures sha in r.behind <==> sha in shaInBase && sha !in Shas(history) {
      if sha in r.behind {
        var k :| 0 <= k < |r.behind| && r.behind[k] == sha;
      }
      if sha in shaInBase && sha !in Shas(history) {
        var k :| 0 <= k < |shaInBase| && shaInBase[k] == sha;
      }
    }
  }

  /** Both lists keep the order of the list they come from, so neither is longer than its source. */
  lemma CompareWithBaseKeepsOrder(history: seq<Commit>, shaInBase: seq<Sha>)
    ensures IsSubsequence(CompareWithBase(history, shaInBase).ahead, history)
    ensures IsSubsequence(CompareWithBase(history, shaInBase).behind, shaInBase)
    ensures |CompareWithBase(history, shaInBase).ahead| <= |history|
    ensures |CompareWithBase(history, shaInBase).behind| <= |shaInBase|
  {
    FilterIsSubsequence(history, (c: Commit) => c.sha !in shaInBase);
    FilterIsSubsequence(shaInBase, (sha: Sha) => sha !in Shas(history));
  }

  /** No sha is both ahead and behind. */
  lemma AheadBehindDisjoint(history: seq<Commit>, shaInBase: seq<Sha>)
    ensures forall i, j ::
      0 <= i < |CompareWithBase(history, shaInBase).ahead| && 0 <= j < |CompareWithBase(history, shaInBase).behind| ==>
      CompareWithBase(history, shaInBase).ahead[i].sha != CompareWithBase(history, shaInBase).behind[j]
  {
    CompareWithBaseMembers(history, shaInBase);
    var r := CompareWithBase(history, shaInBase);
    forall i, j | 0 <= i < |r.ahead| && 0 <= j < |r.behind| ensures r.ahead[i].sha != r.behind[j] {
      assert r.ahead[i] in r.ahead && r.behind[j] in r.behind;
    }
  }

  /** The set of a history's shas holds the shas its list holds. */
  lemma ShasMembers(history: seq<Commit>)
    ensures forall sha :: sha in Shas(history) <==> sha in ShaSet(history)
  {
    forall sha ensures sha in Shas(history) <==> sha in ShaSet(history) {
      if sha in Shas(history) {
        var k :| 0 <= k < |history| && Shas(history)[k] == sha;
        assert history[k].sha == sha;
      }
      if sha in ShaSet(history) {
        var k :| 0 <= k < |history| && history[k].sha == sha;
        assert Shas(history)[k] == sha;
      }
    }
  }

  /**
   * When the histories enumerate the commits reachable from the branch head and from the base head,
   * the ahead shas are the commits reachable only from the branch, the behind shas those reachable only from the base.
   */
  lemma AheadBehindAreSetDifferences(history: seq<Commit>, shaInBase: seq<Sha>, reachBranch: set<Sha>, reachBase: set<Sha>)
    requires reachBranch == ShaSet(history)
    requires reachBase == set sha | sha in shaInBase
    ensures (set c | c in CompareWithBase(history, shaInBase).ahead :: c.sha) == reachBranch - reachBase
    ensures (set sha | sha in CompareWithBase(history, shaInBase).behind) == reachBase - reachBranch
  {
    CompareWithBaseMembers(history, shaInBase);
    ShasMembers(history);
    var r := CompareWithBase(history, shaInBase);
    forall sha | sha in reachBranch - reachBase ensures sha in set c | c in r.ahead :: c.sha {
      var k :| 0 <= k < |history| && history[k].sha == sha;
      assert history[k] in r.ahead;
    }
    forall c | c in r.ahead ensures c.sha in reachBranch - reachBase {
      var k :| 0 <= k < |history| && history[k] == c;
    }
  }

  /** A branch holding exactly the base's commits is neither ahead nor behind. */
  lemma SameCommitsNothingAheadOrBehind(history: seq<Commit>, shaInBase: seq<Sha>)
    requires ShaSet(history) == set sha | sha in shaInBase
    ensures CompareWithBase(history, shaInBase).ahead == []
    ensures CompareWithBase(history, shaInBase).behind == []
  {
    ShasMembers(history);
    forall m | 0 <= m < |history| ensures history[m].sha in shaInBase {
      assert history[m].sha in ShaSet(history);
    }
    forall m | 0 <= m < |shaInBase| ensures shaInBase[m] in Shas(history) {
      assert shaInBase[m] in set sha | sha in shaInBase;
    }
    FilterNone(history, (c: Commit) => c.sha !in shaInBase);
    FilterNone(shaInBase, (sha: Sha) => sha !in Shas(history));
  }

  /** A line terminator, which `.` in a regular expression does not match. */
  predicate IsLineTerminator(c: char) {
    c == '\n' || c == '\r' || c == '\U{2028}' || c == '\U{2029}'
  }

  /**
   * Where `/^.+?\//` matches in `s`, searching from position `j`: the position of the first '/' after
   * at least one character, unless a line terminator comes before it.
   */
  function FirstSlashFrom(s: string, j: nat): (r: Option<nat>)
    requires 1 <= j
    requires forall k :: 0 <= k < j && k < |s| ==> !IsLineTerminator(s[k])
    requires forall k :: 1 <= k < j && k < |s| ==> s[k] != '/'
    ensures r.Some? ==> j <= r.value < |s| && s[r.value] == '/'
    ensures r.Some? ==> forall k :: 0 <= k < r.value ==> !IsLineTerminator(s[k])
    ensures r.Some? ==> forall k :: 1 <= k < r.value ==> s[k] != '/'
    ensures r.None? ==> forall i :: 1 <= i < |s| && s[i] == '/' ==> exists k :: 0 <= k < i && IsLineTerminator(s[k])
    decreases |s| - j
  {
    if j >= |s| then None
    else if s[j] == '/' then Some(j)
    else if IsLineTerminator(s[j]) then
      assert forall i :: j < i < |s| && s[i] == '/' ==> 0 <= j < i && IsLineTerminator(s[j]);
      None
    else FirstSlashFrom(s, j + 1)
  }

  /** The match of `/^.+?\//` on `s`: the index of the '/' that ends it, if the pattern matches. */
  function ShortNamePrefixEnd(s: string): Option<nat>
  {
    if |s| == 0 || IsLineTerminator(s[0]) then None else FirstSlashFrom(s, 1)
  }

  /** `shorthand.replace(/^.+?\//, '')`: the shorthand without its remote prefix. */
  function ShortName(shorthand: string): string
  {
    match ShortNamePrefixEnd(shorthand)
    case None => shorthand
    case Some(i) => shorthand[i + 1..]
  }

  /**
   * The removed prefix is the shortest non-empty one ending in '/' and free of line terminators;
   * a shorthand with no such prefix is left unchanged.
   */
  lemma ShortNameRemovesShortestPrefix(s: string)
    ensures ShortNamePrefixEnd(s).Some? ==>
      var i := ShortNamePrefixEnd(s).value;
      1 <= i < |s| && s[i] == '/' && ShortName(s) == s[i + 1..] &&
      (forall k :: 1 <= k < i ==> s[k] != '/') &&
      (forall k :: 0 <= k <= i ==> !IsLineTerminator(s[k]))
    ensures ShortNamePrefixEnd(s).None? ==>
      ShortName(s) == s &&
      forall i :: 1 <= i < |s| && s[i] == '/' ==> exists k :: 0 <= k < i && IsLineTerminator(s[k])
  {
    if |s| > 0 && IsLineTerminator(s[0]) {
      assert forall i :: 1 <= i < |s| && s[i] == '/' ==> IsLineTerminator(s[0]);
    }
  }

  /** A remote shorthand `<remote>/<branch>` with a slash-free remote loses exactly `<remote>/`. */
  lemma ShortNameOfRemoteShorthand(remote: string, branch: string)
    requires |remote| > 0 && '/' !in remote
    requires forall k :: 0 <= k < |remote| ==> !IsLineTerminator(remote[k])
    ensures ShortName(remote + "/" + branch) == branch
  {
    var s := remote + "/" + branch;
    assert forall k :: 1 <= k < |remote| ==> s[k] == remote[k];
    assert s[|remote|] == '/';
    var r := ShortNamePrefixEnd(s);
    ShortNameRemovesShortestPrefix(s);
    assert r.Some? && r.value == |remote|;
    assert s[|remote| + 1..] == branch;
  }

  function RemoteRefPrefix(remote: string): string {
    "refs/remotes/" + remote + "/"
  }

  /** Whether the branch reference `name` lives on the target remote. */
  predicate OnTargetRemote(name: string, targetRemote: string) {
    StartsWith(name, RemoteRefPrefix(targetRemote))
  }

  /** For slash-free remote names, a branch of remote `r` is on the target remote exactly when `r` is the target. */
  lemma OnTargetRemoteIffSameRemote(r: string, branch: string, targetRemote: string)
    requires '/' !in r && '/' !in targetRemote
    ensures OnTargetRemote(RemoteRefPrefix(r) + branch, targetRemote) <==> r == targetRemote
  {
    var name := RemoteRefPrefix(r) + branch;
    var p := RemoteRefPrefix(targetRemote);
    var n := |"refs/remotes/"|;
    var rest := name[n..];
    assert rest == r + "/" + branch;
    if r == targetRemote {
      assert name[..|p|] == p;
    }
    if OnTargetRemote(name, targetRemote) {
      // Both `r` and the target end where the first '/' of the rest of the name stands.
      assert rest[..|targetRemote| + 1] == name[..|p|][n..] == targetRemote + "/";
      assert rest[..|targetRemote|] == targetRemote;
      FirstIndexUnique(rest, '/', |targetRemote|);
      assert rest[..|r|] == r;
      FirstIndexUnique(rest, '/', |r|);
    }
  }

  /** The remote branch record `getBranches` builds for one remote reference. */
  function RemoteBranchOf(name: string, shorthand: string, headSha: Sha, targetRemote: string): RemoteBranch
  {
    RemoteBranch(name, ShortName(shorthand), OnTargetRemote(name, targetRemote), headSha)
  }

  /** `merge.replace('refs/heads/', '')`: the upstream branch named by a `branch.<x>.merge` setting. */
  function UpstreamName(merge: string): string {
    ReplaceFirst(merge, "refs/heads/", "")
  }

  lemma UpstreamNameOfHeadRef(branch: string)
    ensures UpstreamName("refs/heads/" + branch) == branch
  {
    ReplaceFirstAtStart("refs/heads/" + branch, "refs/heads/", "");
    assert ("refs/heads/" + branch)[|"refs/heads/"|..] == branch;
  }

  /** How `${remoteName}` prints a missing remote setting. */
  function RemoteText(remoteName: Option<string>): string {
    remoteName.GetOr("null")
  }

  /** The truthiness of `upstreamName && !remotes.some(r => r.name().endsWith(`${remoteName}/${upstreamName}`))`. */
  predicate Gone(remoteName: Option<string>, upstreamName: Option<string>, remoteRefNames: seq<string>) {
    upstreamName.Some? && upstreamName.value != "" &&
    !exists k :: 0 <= k < |remoteRefNames| && EndsWith(remoteRefNames[k], RemoteText(remoteName) + "/" + upstreamName.value)
  }

  /** A local branch whose upstream still exists on its remote is not gone; one without an upstream never is. */
  lemma NotGoneWhileUpstreamExists(remote: string, upstream: string, remoteRefNames: seq<string>)
    requires RemoteRefPrefix(remote) + upstream in remoteRefNames
    ensures !Gone(Some(remote), Some(upstream), remoteRefNames)
    ensures forall rn :: !Gone(rn, None, remoteRefNames)
  {
    var k :| 0 <= k < |remoteRefNames| && remoteRefNames[k] == RemoteRefPrefix(remote) + upstream;
    var suffix := remote + "/" + upstream;
    assert RemoteRefPrefix(remote) + upstream == "refs/remotes/" + suffix;
    assert remoteRefNames[k][|remoteRefNames[k]| - |suffix|..] == suffix;
  }

  /** A branch tracking an upstream that no remote reference ends with is gone. */
  lemma GoneWhenNoRemoteMatches(remoteName: Option<string>, upstream: string, remoteRefNames: seq<string>)
    requires upstream != ""
    requires forall k :: 0 <= k < |remoteRefNames| ==> !EndsWith(remoteRefNames[k], RemoteText(remoteName) + "/" + upstream)
    ensures Gone(remoteName, Some(upstream), remoteRefNames)
  {
  }

  /**
   * The local branch record `getBranches` builds for one local reference; `remoteSetting` and
   * `mergeSetting` are the `branch.<x>.remote` and `branch.<x>.merge` settings, absent when unset.
   */
  function LocalBranchOf(
    name: string, shorthand: string, headSha: Sha,
    remoteSetting: Option<string>, mergeSetting: Option<string>, remoteRefNames: seq<string>): (b: LocalBranch)
    ensures b.gone ==> b.upstreamName.Some?
  {
    var upstream := if mergeSetting.Some? then Some(UpstreamName(mergeSetting.value)) else None;
    LocalBranch(name, shorthand, remoteSetting, upstream, headSha, Gone(remoteSetting, upstream, remoteRefNames))
  }

  /** The full names of the branches, in order. */
  function BranchNames(bs: seq<RemoteBranch>): (r: seq<string>)
    ensures |r| == |bs|
    ensures forall k :: 0 <= k < |bs| ==> r[k] == bs[k].name
    decreases |bs|
  {
    if |bs| == 0 then [] else [bs[0].name] + BranchNames(bs[1..])
  }

  lemma BranchNamesSnoc(bs: seq<RemoteBranch>, b: RemoteBranch)
    ensures BranchNames(bs + [b]) == BranchNames(bs) + [b.name]
  {
    assert |BranchNames(bs + [b])| == |BranchNames(bs) + [b.name]|;
    assert forall k :: 0 <= k < |bs| + 1 ==> BranchNames(bs + [b])[k] == (bs + [b])[k].name;
  }

  /** `remoteBranches.map(branch => branch.shortName)`. */
  function ShortNames(bs: seq<RemoteBranch>): (r: seq<string>)
    ensures |r| == |bs|
    ensures forall k :: 0 <= k < |bs| ==> r[k] == bs[k].shortName
    decreases |bs|
  {
    if |bs| == 0 then [] else [bs[0].shortName] + ShortNames(bs[1..])
  }
}
