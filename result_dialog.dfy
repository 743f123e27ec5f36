/**
 * The result dialog's reward-ad attempt (src/components/ResultDialog.tsx).
 * `handleWatchAd` is an async function that sets `adState` and
 * `errorMessage` step by step around two awaits; the dialog is a class whose
 * `phase` field says at which await the function is suspended, with one
 * method per resumption. What the awaited promises settle to is an input.
 */
module ResultDialog {
  import Ad = AppsInTossAd

  datatype AdState = Idle | Loading | Showing | Success | Error

  const LoadFailedMessage: string := "광고를 불러올 수 없습니다"
  const NotWatchedMessage: string := "광고를 끝까지 시청해주세요"
  const ShowFailedMessage: string := "광고 표시에 실패했습니다"
  const ProcessingErrorMessage: string := "광고 처리 중 오류가 발생했습니다"

  /** The error messages the dialog can show. */
  predicate IsErrorMessage(m: string)
  {
    m == LoadFailedMessage || m == NotWatchedMessage || m == ShowFailedMessage || m == ProcessingErrorMessage
  }

  /** Each failure cause has its own message, and none of them is empty. */
  lemma MessagesDistinct()
    ensures LoadFailedMessage != NotWatchedMessage && LoadFailedMessage != ShowFailedMessage
    ensures LoadFailedMessage != ProcessingErrorMessage && NotWatchedMessage != ShowFailedMessage
    ensures NotWatchedMessage != ProcessingErrorMessage && ShowFailedMessage != ProcessingErrorMessage
    ensures !IsErrorMessage("")
  {
    assert LoadFailedMessage[4] != NotWatchedMessage[4];
    assert LoadFailedMessage[2] != ShowFailedMessage[2];
    assert LoadFailedMessage[2] != ProcessingErrorMessage[2];
    assert NotWatchedMessage[2] != ShowFailedMessage[2];
    assert NotWatchedMessage[2] != ProcessingErrorMessage[2];
    assert ShowFailedMessage[3] != ProcessingErrorMessage[3];
  }

  /** `isAdButtonDisabled`: a new attempt can be started exactly from idle and from an error. */
  function IsAdButtonDisabled(s: AdState): (disabled: bool)
    ensures !disabled <==> s == Idle || s == Error
  {
    s == Loading || s == Showing || s == Success
  }

  /** An awaited promise: fulfilled with a value, or rejected (the `catch` branch). */
  datatype Settled<T> = Fulfilled(value: T) | Rejected

  /** Where `handleWatchAd` is suspended. */
  datatype Phase = NoAttempt | AwaitingLoad | AwaitingShow

  /** The state and message after `show` settled (lines 40-55). */
  function ShowOutcome(result: Settled<Ad.ShowResult>): (o: (AdState, string))
    ensures o.0 == Success <==> result.Fulfilled? && result.value.success && result.value.rewarded
    ensures o.0 == Success ==> o.1 == ""
    ensures o.0 != Success ==> o.0 == Error && IsErrorMessage(o.1)
    ensures o.1 == NotWatchedMessage <==> result.Fulfilled? && result.value.success && !result.value.rewarded
    ensures o.1 == ShowFailedMessage <==> result.Fulfilled? && !result.value.success
    ensures o.1 == ProcessingErrorMessage <==> result.Rejected?
  {
    MessagesDistinct();
    match result
    case Rejected => (Error, ProcessingErrorMessage)
    case Fulfilled(r) =>
      if r.success && r.rewarded then (Success, "")
      else if r.success then (Error, NotWatchedMessage)
      else (Error, ShowFailedMessage)
  }

  /** Whatever `show` settles to, the attempt ends where a retry is possible, except after a success. */
  lemma RetryUnlessSuccess(result: Settled<Ad.ShowResult>)
    ensures !IsAdButtonDisabled(ShowOutcome(result).0) <==> ShowOutcome(result).0 != Success
  {
  }

  /** A result of the manager's `show` reports success when rewarded, so a rewarded attempt always ends in success. */
  lemma RewardedShowSucceeds(events: seq<Ad.ShowEvent>)
    requires Ad.ShowSettlement(events).Resolved? && Ad.ShowSettlement(events).value.rewarded
    ensures ShowOutcome(Fulfilled(Ad.ShowSettlement(events).value)).0 == Success
  {
  }

  class Dialog {
    var adState: AdState
    var errorMessage: string
    var phase: Phase
    /** The `setTimeout(onRestart, 500)` of a successful attempt has been scheduled. */
    var restartScheduled: bool

    /**
     * A suspended attempt shows its progress and keeps the button disabled;
     * an error always carries one of the four messages, any other state none.
     */
    ghost predicate Valid()
      reads this
    {
      && (phase == AwaitingLoad ==> adState == Loading)
      && (phase == AwaitingShow ==> adState == Showing)
      && (phase == NoAttempt ==> adState != Loading && adState != Showing)
      && (adState == Error ==> IsErrorMessage(errorMessage))
      && (adState != Error ==> errorMessage == "")
      && (restartScheduled <==> adState == Success)
    }

    constructor ()
      ensures Valid()
      ensures adState == Idle && errorMessage == "" && phase == NoAttempt && !restartScheduled
    {
      adState := Idle;
      errorMessage := "";
      phase := NoAttempt;
      restartScheduled := false;
    }

    /** A click on the enabled ad button: lines 23-29 up to the awaited `load`. */
    method HandleWatchAd()
      requires Valid() && !IsAdButtonDisabled(adState)
      modifies this
      ensures Valid()
      ensures adState == Loading && errorMessage == "" && phase == AwaitingLoad && !restartScheduled
    {
      adState := Loading;
      errorMessage := "";
      phase := AwaitingLoad;
    }

    /** `load` settled: a failure ends the attempt without calling `show`; a success moves on to showing. */
    method ResumeAfterLoad(loaded: Settled<bool>)
      requires Valid() && phase == AwaitingLoad
      modifies this
      ensures Valid() && !restartScheduled
      ensures loaded == Fulfilled(true) ==> adState == Showing && errorMessage == "" && phase == AwaitingShow
      ensures loaded == Fulfilled(false) ==>
        adState == Error && errorMessage == LoadFailedMessage && phase == NoAttempt
      ensures loaded == Rejected ==> adState == Error && errorMessage == ProcessingErrorMessage && phase == NoAttempt
    {
      match loaded
      case Rejected =>
        adState := Error;
        errorMessage := ProcessingErrorMessage;
        phase := NoAttempt;
      case Fulfilled(ok) =>
        if !ok {
          adState := Error;
          errorMessage := LoadFailedMessage;
          phase := NoAttempt;
        } else {
          adState := Showing;
          phase := AwaitingShow;
        }
    }

    /** `show` settled: the attempt ends in success (the restart is scheduled) or in an error with its message. */
    method ResumeAfterShow(shown: Settled<Ad.ShowResult>)
      requires Valid() && phase == AwaitingShow
      modifies this
      ensures Valid() && phase == NoAttempt
      ensures (adState, errorMessage) == ShowOutcome(shown)
      ensures restartScheduled <==> adState == Success
    {
      var o := ShowOutcome(shown);
      adState, errorMessage := o.0, o.1;
      restartScheduled := o.0 == Success;
      phase := NoAttempt;
    }
  }
}
