/**
 * The join verification pipelines of `AuthMePlayerListener.onPreLogin` and
 * `onPlayerLogin`. Each `OnJoinVerifier` check is uninterpreted; a check call is
 * recorded together with the arguments the listener passes it, and the verifier is
 * an uninterpreted answer per call: `None` when the check passes, `Some(failure)`
 * when it throws `FailedVerificationException`.
 */
module JoinPipeline {
  import opened Optional
  import opened Text

  /** What a `FailedVerificationException` carries: a message key and its arguments. */
  datatype Failure = Failure(reason: string, args: seq<string>)

  /** The stored account, as far as the listener sees it. */
  datatype PlayerAuth = PlayerAuth(name: string, realName: string)

  datatype Player = Player(name: string)

  datatype LoginResult = Allowed | KickFull | KickWhitelist | KickBanned | KickOther

  /** A kick message: either text already on the event or `Messages.retrieveSingle(reason, args)`. */
  datatype KickMessage = Plain(text: string) | Retrieved(failure: Failure)

  /** The fields of a `PlayerLoginEvent` the listener and the checks see. */
  datatype LoginEvent = LoginEvent(player: Player, address: string, result: LoginResult, kickMessage: KickMessage)

  /** One call on `OnJoinVerifier`, with the arguments the listener supplies. */
  datatype CheckCall =
    | CheckAntibot(name: string, isAuthAvailable: bool)
    | CheckKickNonRegistered(isAuthAvailable: bool)
    | CheckIsValidName(name: string)
    | CheckNameCasing(player: Player, auth: Option<PlayerAuth>)
    | CheckSingleSession(player: Player)
    | CheckPlayerCountry(isAuthAvailable: bool, event: LoginEvent)  // the event as the handler holds it

  type Verifier = CheckCall -> Option<Failure>

  /** The calls made before the pipeline stopped, and the failure that stopped it, if any. */
  datatype PipelineRun = PipelineRun(ran: seq<CheckCall>, failure: Option<Failure>)

  predicate AllPass(calls: seq<CheckCall>, verifier: Verifier)
  {
    forall i :: 0 <= i < |calls| ==> verifier(calls[i]).None?
  }

  /**
   * The body of the `try` block: calls run in order and the first failing one ends
   * the block. Only a prefix of the calls is made; every call before the last one made
   * passed; there is a failure exactly when the last call made failed, and otherwise
   * every call was made and passed.
   */
  function RunChecks(calls: seq<CheckCall>, verifier: Verifier): (r: PipelineRun)
    ensures |r.ran| <= |calls| && r.ran == calls[..|r.ran|]
    ensures r.failure.None? <==> r.ran == calls && AllPass(calls, verifier)
    ensures r.failure.Some? ==> |r.ran| > 0 && verifier(r.ran[|r.ran| - 1]) == r.failure
    ensures r.ran == [] || AllPass(r.ran[..|r.ran| - 1], verifier)
    decreases |calls|
  {
    if calls == [] then PipelineRun([], None)
    else
      match verifier(calls[0])
      case Some(f) => PipelineRun([calls[0]], Some(f))
      case None =>
        var rest := RunChecks(calls[1..], verifier);
        assert AllPass(calls, verifier) <==> AllPass(calls[1..], verifier) by {
          assert forall i :: 0 < i < |calls| ==> calls[i] == calls[1..][i - 1];
        }
        PipelineRun([calls[0]] + rest.ran, rest.failure)
  }

  /** Running a concatenation is running the first part and, only if it all passed, the second. */
  lemma {:induction false} RunChecksAppend(a: seq<CheckCall>, b: seq<CheckCall>, verifier: Verifier)
    ensures RunChecks(a + b, verifier) ==
      (var first := RunChecks(a, verifier);
       if first.failure.Some? then first
       else var second := RunChecks(b, verifier); PipelineRun(a + second.ran, second.failure))
    decreases |a|
  {
    if a == [] {
      assert a + b == b;
    } else {
      var ab := a + b;
      assert ab[0] == a[0];
      assert ab[1..] == a[1..] + b;
      if verifier(a[0]).None? {
        var tail := RunChecks(a[1..] + b, verifier);
        assert RunChecks(ab, verifier) == PipelineRun([a[0]] + tail.ran, tail.failure);
        var first := RunChecks(a[1..], verifier);
        assert RunChecks(a, verifier) == PipelineRun([a[0]] + first.ran, first.failure);
        RunChecksAppend(a[1..], b, verifier);
        if first.failure.None? {
          var second := RunChecks(b, verifier);
          assert [a[0]] + (a[1..] + second.ran) == a + second.ran;
        }
      } else {
        assert RunChecks(ab, verifier) == PipelineRun([a[0]], verifier(a[0]));
      }
    }
  }

  /**
   * The run depends only on the verifier's answers to the calls in the list: two
   * verifiers that answer those calls alike give the same run.
   */
  lemma {:induction false} RunChecksAgree(calls: seq<CheckCall>, v1: Verifier, v2: Verifier)
    requires forall i :: 0 <= i < |calls| ==> v1(calls[i]) == v2(calls[i])
    ensures RunChecks(calls, v1) == RunChecks(calls, v2)
    decreases |calls|
  {
    if calls != [] {
      assert forall i :: 0 <= i < |calls[1..]| ==> calls[1..][i] == calls[i + 1];
      RunChecksAgree(calls[1..], v1, v2);
    }
  }

  /** The checks of the pre-login event: `onPreLogin` lower-cases the name for the checks. */
  function PreLoginChecks(name: string, isAuthAvailable: bool): seq<CheckCall>
  {
    [CheckAntibot(ToLower(name), isAuthAvailable),
     CheckKickNonRegistered(isAuthAvailable),
     CheckIsValidName(ToLower(name))]
  }

  /** The checks of the login event: the pre-login three, then casing, single session and country. */
  function LoginChecks(event: LoginEvent, auth: Option<PlayerAuth>): seq<CheckCall>
  {
    var isAuthAvailable := auth.Some?;
    var player := event.player;
    [CheckAntibot(ToLower(player.name), isAuthAvailable),
     CheckKickNonRegistered(isAuthAvailable),
     CheckIsValidName(ToLower(player.name)),
     CheckNameCasing(player, auth),
     CheckSingleSession(player),
     CheckPlayerCountry(isAuthAvailable, event)]
  }

  /**
   * Both events start with the same three calls in the same order. So for the same
   * name and account answer, and a verifier that answers both events alike, a
   * pre-login refusal is reproduced by the login event, with the same failure after the
   * same calls; when the pre-login checks pass, the login event continues with its
   * three further checks. `RunChecksAgree` says when two verifiers count as alike.
   */
  lemma PreLoginIsLoginPrefix(event: LoginEvent, auth: Option<PlayerAuth>, verifier: Verifier)
    ensures LoginChecks(event, auth)[..3] == PreLoginChecks(event.player.name, auth.Some?)
    ensures var pre := RunChecks(PreLoginChecks(event.player.name, auth.Some?), verifier);
            var full := RunChecks(LoginChecks(event, auth), verifier);
            && (pre.failure.Some? ==> full == pre)
            && (pre.failure.None? ==> full.ran[..3] == pre.ran && |full.ran| > 3)
  {
    var checks := LoginChecks(event, auth);
    assert checks == checks[..3] + checks[3..];
    RunChecksAppend(checks[..3], checks[3..], verifier);
  }
}
