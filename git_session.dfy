/**
 * The older session module src/git.js: it opens a repository, picks its remote ('origin' first) and
 * fetches it with the authentication retry loop.
 */
module GitSession {
  import opened Wrappers
  import opened Auth
  import Collections
  import BaseBranch
  import RemoteSession

  const NotOpenMessage: string := "Please open repository first"

  function OpenFailedMessage(repositoryPath: string): string {
    "Could not open repository at \"" + repositoryPath + "\""
  }

  /** The module-level `repository`, `remote` and `gitOpts` of src/git.js. */
  class Session {
    /** The path of the open repository. */
    var repository: Option<string>
    var remote: Option<RemoteSession.Remote>
    /** The credentials of the last fetch attempt, reduced to their method. */
    var gitOpts: Option<AuthMethod>

    constructor()
      ensures repository.None? && remote.None? && gitOpts.None?
    {
      repository := None;
      remote := None;
      gitOpts := None;
    }

    /**
     * `openRepository(repositoryPath)`: `remoteList` is the repository's remote list, or `None` when it
     * cannot be opened; `picked` is the answer when the user is asked and `lookup` the remote lookup.
     * The result is the error message, or the list offered, if any.
     */
    method OpenRepository(repositoryPath: string, remoteList: Option<seq<string>>, picked: string,
                          lookup: string -> Option<RemoteSession.Remote>)
      returns (r: Result<Option<seq<string>>, string>)
      modifies this
      ensures r.Err? <==> remoteList.None?
      ensures r.Err? ==> r.error == OpenFailedMessage(repositoryPath)
      ensures r.Err? ==> repository == old(repository) && remote == old(remote)
      ensures r.Ok? ==> repository == Some(repositoryPath)
      ensures r.Ok? ==> (r.value.Some? <==> |remoteList.value| > 1)
      ensures r.Ok? && r.value.Some? ==>
        r.value.value == BaseBranch.MovedToFront(remoteList.value, "origin") && remote == lookup(picked)
      ensures r.Ok? && |remoteList.value| == 1 ==> remote == lookup(remoteList.value[0])
      ensures r.Ok? && |remoteList.value| == 0 ==> remote.None?
      ensures gitOpts == old(gitOpts)
    {
      if remoteList.None? {
        return Err(OpenFailedMessage(repositoryPath));
      }
      repository := Some(repositoryPath);
      var remotes := remoteList.value;
      var originIndex := Collections.IndexOf(remotes, "origin");
      if originIndex > 0 {
        remotes := Collections.RemoveAt(remotes, originIndex);
        remotes := ["origin"] + remotes;
      }
      var remoteName: Option<string> := if |remotes| > 0 then Some(remotes[0]) else None;
      if |remotes| > 1 {
        remoteName := Some(picked);
        r := Ok(Some(remotes));
      } else {
        r := Ok(None);
      }
      remote := if remoteName.Some? then lookup(remoteName.value) else None;
    }

    /** `attemptFetch(authMethod)`: sets up the credentials, then fetches; `succeeds` is the fetch's result. */
    method AttemptFetch(authMethod: AuthMethod, succeeds: bool) returns (ok: bool)
      modifies this
      ensures ok == succeeds && gitOpts == Some(authMethod)
      ensures repository == old(repository) && remote == old(remote)
    {
      gitOpts := Some(authMethod);
      ok := succeeds;
    }

    /**
     * `fetchRemote()`: refused until a repository and a remote are set; then the same retry loop as
     * the newer module, with `rounds` holding each turn's fetch result and answer.
     */
    method FetchRemote(rounds: seq<Round>) returns (r: Result<Fetch, string>)
      modifies this
      ensures repository == old(repository) && remote == old(remote)
      ensures r.Err? <==> repository.None? || remote.None?
      ensures r.Err? ==> r.error == NotOpenMessage && gitOpts == old(gitOpts)
      ensures r.Ok? ==> r.value == FetchFrom(InitialAuthMethod(remote.value.url), rounds, 0)
      ensures r.Ok? && |r.value.tried| > 0 ==> gitOpts == Some(r.value.tried[|r.value.tried| - 1])
      ensures r.Ok? && |r.value.tried| == 0 ==> gitOpts == old(gitOpts)
    {
      if repository.None? || remote.None? {
        return Err(NotOpenMessage);
      }
      var fetch := RetryFetch(InitialAuthMethod(remote.value.url), rounds);
      r := Ok(fetch);
    }

    /** The `while (!authenticated)` loop of `fetchRemote`, starting with method `start`. */
    method RetryFetch(start: AuthMethod, rounds: seq<Round>) returns (f: Fetch)
      modifies this
      ensures repository == old(repository) && remote == old(remote)
      ensures f == FetchFrom(start, rounds, 0)
      ensures |f.tried| > 0 ==> gitOpts == Some(f.tried[|f.tried| - 1])
      ensures |f.tried| == 0 ==> gitOpts == old(gitOpts)
    {
      var authMethod := start;
      var tried := [];
      var i := 0;
      ghost var total := FetchFrom(start, rounds, 0);
      while i < |rounds|
        invariant 0 <= i <= |rounds| && |tried| == i
        invariant FetchFrom(authMethod, rounds, i).outcome == total.outcome
        invariant tried + FetchFrom(authMethod, rounds, i).tried == total.tried
        invariant i > 0 ==> gitOpts == Some(tried[i - 1])
        invariant i == 0 ==> gitOpts == old(gitOpts)
        invariant repository == old(repository) && remote == old(remote)
        decreases |rounds| - i
      {
        var authenticated := AttemptFetch(authMethod, rounds[i].fetched);
        ghost var prev := tried;
        tried := tried + [authMethod];
        FetchFromStops(authMethod, rounds, i);
        if authenticated {
          return Fetch(Fetched, tried);
        }
        var answer := rounds[i].retry;
        if answer.None? {
          return Fetch(Exited, tried);
        }
        FetchFromRetry(authMethod, rounds, i);
        assert prev + ([authMethod] + FetchFrom(answer.value, rounds, i + 1).tried) == tried + FetchFrom(answer.value, rounds, i + 1).tried;
        authMethod := answer.value;
        i := i + 1;
      }
      f := Fetch(Pending, tried);
    }
  }
}
