/**
 * The target remote of src/git/remote.js: choosing it ('origin' first), checking a configured one,
 * fetching it with the authentication retry loop, and deleting a branch on it by pushing an empty
 * source to the rewritten reference.
 */
module RemoteSession {
  import opened Wrappers
  import opened Text
  import opened Auth
  import Branches
  import BaseBranch

  /** A configured remote: its name and URL. */
  datatype Remote = Remote(name: string, url: string)

  const NoRemotesMessage: string := "No remotes seems to be configured on the given repository"

  function NotFoundMessage(remoteName: string): string {
    "Could not find remote with name \"" + remoteName + "\""
  }

  function UrlMismatchMessage(remoteName: string, remoteUrl: string): string {
    "Remote \"" + remoteName + "\" does not match url \"" + remoteUrl + "\""
  }

  /** `reference.name().replace('refs/remotes/<remote>/', 'refs/heads/')`: the branch's name on the remote. */
  function PushRef(refName: string, remote: string): string {
    ReplaceFirst(refName, Branches.RemoteRefPrefix(remote), "refs/heads/")
  }

  /** A branch of the target remote is pushed to as the same branch under `refs/heads/`. */
  lemma PushRefOfTargetBranch(refName: string, remote: string)
    requires Branches.OnTargetRemote(refName, remote)
    ensures PushRef(refName, remote) == "refs/heads/" + refName[|Branches.RemoteRefPrefix(remote)|..]
  {
    ReplaceFirstAtStart(refName, Branches.RemoteRefPrefix(remote), "refs/heads/");
  }

  lemma PushRefOfRemoteBranch(remote: string, branch: string)
    ensures PushRef("refs/remotes/" + remote + "/" + branch, remote) == "refs/heads/" + branch
  {
    var refName := "refs/remotes/" + remote + "/" + branch;
    var prefix := Branches.RemoteRefPrefix(remote);
    assert refName == prefix + branch;
    assert refName[..|prefix|] == prefix;
    PushRefOfTargetBranch(refName, remote);
    assert refName[|prefix|..] == branch;
  }

  /** The module-level state of src/git/remote.js, with the pushes it has made. */
  class TargetRemote {
    var targetRemote: Option<Remote>
    var remoteFetched: bool
    /** The credentials of the last fetch attempt, reduced to their method. */
    var gitOpts: Option<AuthMethod>
    /** The refspecs pushed to the target remote, in order. */
    var pushes: seq<string>

    constructor()
      ensures targetRemote.None? && !remoteFetched && gitOpts.None? && pushes == []
    {
      targetRemote := None;
      remoteFetched := false;
      gitOpts := None;
      pushes := [];
    }

    /**
     * `selectRemote()`: `remotes` is the repository's remote list, `picked` the answer when the user is
     * asked and `lookup` the repository's remote lookup. The result holds the list offered, if any.
     */
    method SelectRemote(remotes: seq<string>, picked: string, lookup: string -> Option<Remote>)
      returns (r: Result<Option<seq<string>>, string>)
      modifies this
      ensures r.Err? <==> |remotes| == 0
      ensures r.Err? ==> r.error == NoRemotesMessage && targetRemote == old(targetRemote)
      ensures r.Ok? ==> (r.value.Some? <==> |remotes| > 1)
      ensures r.Ok? && r.value.Some? ==>
        r.value.value == BaseBranch.MovedToFront(remotes, "origin") && targetRemote == lookup(picked)
      ensures r.Ok? && r.value.None? ==> targetRemote == lookup(remotes[0])
      ensures remoteFetched == old(remoteFetched) && gitOpts == old(gitOpts) && pushes == old(pushes)
    {
      var choices := remotes;
      var originIndex := Collections.IndexOf(choices, "origin");
      if originIndex > 0 {
        choices := Collections.RemoveAt(choices, originIndex);
        choices := ["origin"] + choices;
      }
      if |choices| == 0 {
        return Err(NoRemotesMessage);
      }
      var remoteName := choices[0];
      if |choices| > 1 {
        remoteName := picked;
        r := Ok(Some(choices));
      } else {
        r := Ok(None);
      }
      targetRemote := lookup(remoteName);
    }

    /** `setRemote(remoteName, remoteUrl)`: the remote must exist and have exactly the given URL. */
    method SetRemote(remoteName: string, remoteUrl: string, lookup: string -> Option<Remote>)
      returns (err: Option<string>)
      modifies this
      ensures targetRemote == lookup(remoteName)
      ensures err.None? <==> lookup(remoteName).Some? && lookup(remoteName).value.url == remoteUrl
      ensures lookup(remoteName).None? ==> err == Some(NotFoundMessage(remoteName))
      ensures lookup(remoteName).Some? && lookup(remoteName).value.url != remoteUrl ==>
        err == Some(UrlMismatchMessage(remoteName, remoteUrl))
      ensures remoteFetched == old(remoteFetched) && gitOpts == old(gitOpts) && pushes == old(pushes)
    {
      targetRemote := lookup(remoteName);
      if targetRemote.None? {
        return Some(NotFoundMessage(remoteName));
      }
      if targetRemote.value.url != remoteUrl {
        return Some(UrlMismatchMessage(remoteName, remoteUrl));
      }
      err := None;
    }

    /** `attemptFetchRemote(authMethod)`: sets up the credentials, then fetches; `succeeds` is the fetch's result. */
    method AttemptFetch(authMethod: AuthMethod, succeeds: bool) returns (ok: bool)
      modifies this
      ensures ok == succeeds && gitOpts == Some(authMethod)
      ensures targetRemote == old(targetRemote) && remoteFetched == old(remoteFetched) && pushes == old(pushes)
    {
      gitOpts := Some(authMethod);
      ok := succeeds;
    }

    /**
     * `fetchRemote()`: attempts with the method the URL suggests, then with each method picked after
     * a failure, until a fetch succeeds or the user exits. `rounds` holds each turn's fetch result and answer.
     */
    method FetchRemote(rounds: seq<Round>) returns (outcome: FetchOutcome, tried: seq<AuthMethod>)
      requires targetRemote.Some?
      modifies this
      ensures targetRemote == old(targetRemote) && pushes == old(pushes)
      ensures Fetch(outcome, tried) == FetchFrom(InitialAuthMethod(targetRemote.value.url), rounds, 0)
      ensures remoteFetched == (old(remoteFetched) || outcome == Fetched)
      ensures |tried| > 0 ==> gitOpts == Some(tried[|tried| - 1])
      ensures |tried| == 0 ==> gitOpts == old(gitOpts)
    {
      var start := InitialAuthMethod(targetRemote.value.url);
      var authMethod := start;
      tried := [];
      var i := 0;
      ghost var total := FetchFrom(start, rounds, 0);
      while i < |rounds|
        invariant 0 <= i <= |rounds| && |tried| == i
        invariant FetchFrom(authMethod, rounds, i).outcome == total.outcome
        invariant tried + FetchFrom(authMethod, rounds, i).tried == total.tried
        invariant i > 0 ==> gitOpts == Some(tried[i - 1])
        invariant i == 0 ==> gitOpts == old(gitOpts)
        invariant targetRemote == old(targetRemote) && pushes == old(pushes) && remoteFetched == old(remoteFetched)
        decreases |rounds| - i
      {
        var authenticated := AttemptFetch(authMethod, rounds[i].fetched);
        ghost var prev := tried;
        tried := tried + [authMethod];
        FetchFromStops(authMethod, rounds, i);
        if authenticated {
          remoteFetched := true;
          return Fetched, tried;
        }
        var answer := rounds[i].retry;
        if answer.None? {
          return Exited, tried;
        }
        FetchFromRetry(authMethod, rounds, i);
        assert prev + ([authMethod] + FetchFrom(answer.value, rounds, i + 1).tried) == tried + FetchFrom(answer.value, rounds, i + 1).tried;
        authMethod := answer.value;
        i := i + 1;
      }
      outcome := Pending;
    }

    /**
     * `removeReference(reference)`: the `git push` command for deleting the branch on the target
     * remote; it is pushed unless `dryRun`.
     */
    method RemoveReference(refName: string, dryRun: bool) returns (command: string)
      requires targetRemote.Some?
      requires dryRun || gitOpts.Some?
      modifies this
      ensures targetRemote == old(targetRemote) && remoteFetched == old(remoteFetched) && gitOpts == old(gitOpts)
      ensures command == "git push " + targetRemote.value.name + " :" + PushRef(refName, targetRemote.value.name)
      ensures pushes == old(pushes) + if dryRun then [] else [":" + PushRef(refName, targetRemote.value.name)]
    {
      var remoteBranchName := PushRef(refName, targetRemote.value.name);
      command := "git push " + targetRemote.value.name + " :" + remoteBranchName;
      if !dryRun {
        pushes := pushes + [":" + remoteBranchName];
      }
    }
  }
}
