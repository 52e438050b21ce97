/**
 * The authentication methods a fetch may use and the retry protocol around a failed fetch, shared by
 * src/git/remote.js and the older src/git.js: the first method follows the remote URL, and after each
 * failure the user picks a method to try again with, or exits.
 */
module Auth {
  import opened Wrappers
  import opened Text

  datatype AuthMethod = Https | Ssh

  /** `Object.keys(authMethods)`: the methods in their declared order. */
  const AuthMethods: seq<AuthMethod> := [Https, Ssh]

  /** `url.startsWith('http') ? AUTH_METHOD_HTTPS : AUTH_METHOD_SSH` */
  function InitialAuthMethod(url: string): (r: AuthMethod)
    ensures r == Https <==> StartsWith(url, "http")
  {
    if StartsWith(url, "http") then Https else Ssh
  }

  /** An https or ssh remote URL picks its own method. */
  lemma InitialAuthMethodOfUrls(rest: string)
    ensures InitialAuthMethod("https://" + rest) == Https
    ensures InitialAuthMethod("http://" + rest) == Https
    ensures InitialAuthMethod("git@" + rest) == Ssh
    ensures InitialAuthMethod("ssh://" + rest) == Ssh
  {
    assert ("https://" + rest)[..4] == "http";
    assert ("http://" + rest)[..4] == "http";
    assert ("git@" + rest)[0] != 'h';
    assert ("ssh://" + rest)[0] != 'h';
  }

  /**
   * The "Would you like to try again?" menu of src/git/remote.js: the current method, the other
   * methods in declared order, then `null` for "no, exit".
   */
  function RetryMenu(current: AuthMethod): seq<Option<AuthMethod>> {
    [Some(current)] + OtherMethods(AuthMethods, current) + [None]
  }

  function OtherMethods(methods: seq<AuthMethod>, current: AuthMethod): (r: seq<Option<AuthMethod>>)
    ensures forall o :: o in r <==> o.Some? && o.value in methods && o.value != current
    decreases |methods|
  {
    if |methods| == 0 then []
    else (if methods[0] == current then [] else [Some(methods[0])]) + OtherMethods(methods[1..], current)
  }

  /** The three answers, each listed once: both methods and exit. */
  predicate ListsEveryAnswerOnce(menu: seq<Option<AuthMethod>>) {
    |menu| == 3 && Some(Https) in menu && Some(Ssh) in menu && None in menu
  }

  /** The menu offers the current method first and exit last, and lists each of the three answers exactly once. */
  lemma RetryMenuOffersEachMethodOnce(current: AuthMethod)
    ensures RetryMenu(current)[0] == Some(current)
    ensures RetryMenu(current)[|RetryMenu(current)| - 1] == None
    ensures ListsEveryAnswerOnce(RetryMenu(current))
  {
    if current == Https {
      assert OtherMethods(AuthMethods, current) == [Some(Ssh)];
      assert RetryMenu(current) == [Some(Https), Some(Ssh), None];
    } else {
      assert OtherMethods(AuthMethods, current) == [Some(Https)];
      assert RetryMenu(current) == [Some(Ssh), Some(Https), None];
    }
  }

  /** The older menu of src/git.js: every method in declared order, then `null` for "no, exit". */
  function LegacyRetryMenu(): (r: seq<Option<AuthMethod>>)
    ensures ListsEveryAnswerOnce(r) && r[0] == Some(Https) && r[2] == None
  {
    [Some(AuthMethods[0]), Some(AuthMethods[1]), None]
  }

  /**
   * One turn of the `while (!authenticated)` loop: whether the fetch attempt succeeded and, when it
   * failed, the answer to the retry menu (`None` for "no, exit").
   */
  datatype Round = Round(fetched: bool, retry: Option<AuthMethod>)

  /** How the loop ends: fetched, the user exited, or the given turns ran out before either. */
  datatype FetchOutcome = Fetched | Exited | Pending

  /** The outcome and the method used by each attempt, in order. */
  datatype Fetch = Fetch(outcome: FetchOutcome, tried: seq<AuthMethod>)

  /** The retry loop from turn `i` on, starting with method `m`. */
  function FetchFrom(m: AuthMethod, rounds: seq<Round>, i: nat): Fetch
    decreases |rounds| - i
  {
    if i >= |rounds| then Fetch(Pending, [])
    else if rounds[i].fetched then Fetch(Fetched, [m])
    else if rounds[i].retry.None? then Fetch(Exited, [m])
    else
      var rest := FetchFrom(rounds[i].retry.value, rounds, i + 1);
      Fetch(rest.outcome, [m] + rest.tried)
  }

  /** A successful turn ends the loop fetched, and a failed turn answered with `null` ends it exited. */
  lemma FetchFromStops(m: AuthMethod, rounds: seq<Round>, i: nat)
    requires i < |rounds|
    ensures rounds[i].fetched ==> FetchFrom(m, rounds, i) == Fetch(Fetched, [m])
    ensures !rounds[i].fetched && rounds[i].retry.None? ==> FetchFrom(m, rounds, i) == Fetch(Exited, [m])
  {
  }

  /** A failed turn answered with a method hands the rest of the loop to that method. */
  lemma FetchFromRetry(m: AuthMethod, rounds: seq<Round>, i: nat)
    requires i < |rounds| && !rounds[i].fetched && rounds[i].retry.Some?
    ensures FetchFrom(m, rounds, i).outcome == FetchFrom(rounds[i].retry.value, rounds, i + 1).outcome
    ensures FetchFrom(m, rounds, i).tried == [m] + FetchFrom(rounds[i].retry.value, rounds, i + 1).tried
  {
  }

  /**
   * The loop attempts once per turn: the first attempt uses the starting method, each later one the
   * method picked after the previous failure; it ends fetched exactly at the first success, exits at
   * the first `null` answer, and is still pending only when every given turn failed with a retry.
   */
  lemma {:induction false} FetchTrace(m: AuthMethod, rounds: seq<Round>, i: nat)
    requires i <= |rounds|
    ensures var f := FetchFrom(m, rounds, i);
      && |f.tried| <= |rounds| - i
      && (i < |rounds| ==> |f.tried| > 0 && f.tried[0] == m)
      && (forall j :: i <= j < i + |f.tried| - 1 ==> !rounds[j].fetched && rounds[j].retry == Some(f.tried[j - i + 1]))
      && (f.outcome == Fetched ==> |f.tried| > 0 && rounds[i + |f.tried| - 1].fetched)
      && (f.outcome == Exited ==> |f.tried| > 0 && !rounds[i + |f.tried| - 1].fetched && rounds[i + |f.tried| - 1].retry.None?)
      && (f.outcome == Pending ==> |f.tried| == |rounds| - i)
    decreases |rounds| - i
  {
    if i < |rounds| && !rounds[i].fetched && rounds[i].retry.Some? {
      FetchTrace(rounds[i].retry.value, rounds, i + 1);
      var rest := FetchFrom(rounds[i].retry.value, rounds, i + 1);
      var f := FetchFrom(m, rounds, i);
      assert f.tried == [m] + rest.tried;
      forall j | i <= j < i + |f.tried| - 1
        ensures !rounds[j].fetched && rounds[j].retry == Some(f.tried[j - i + 1])
      {
        assert f.tried[j - i + 1] == rest.tried[j - (i + 1) + 1];
      }
    }
  }

  /** A turn whose attempt succeeds ends the loop fetched, whatever later turns hold. */
  lemma {:induction false} FetchedOnFirstSuccess(m: AuthMethod, rounds: seq<Round>, i: nat)
    requires i <= |rounds|
    requires exists j :: i <= j < |rounds| && rounds[j].fetched
    requires forall j :: i <= j < |rounds| ==> rounds[j].fetched || rounds[j].retry.Some?
    ensures FetchFrom(m, rounds, i).outcome == Fetched
    decreases |rounds| - i
  {
    if !rounds[i].fetched {
      var j :| i <= j < |rounds| && rounds[j].fetched;
      assert j != i;
      FetchedOnFirstSuccess(rounds[i].retry.value, rounds, i + 1);
    }
  }
}
