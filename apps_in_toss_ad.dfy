/**
 * The rewarded-ad wrapper of src/lib/appsInTossAd.ts. The platform SDK is
 * represented by its inputs only: whether a call is supported, and the
 * sequence of callback events it delivers. A promise that no event settles
 * is `Unresolved`.
 */
module AppsInTossAd {
  import opened Wrappers

  datatype AdLoadStatus = Idle | Loading | Loaded | Error

  /** A promise as its awaiting caller sees it. */
  datatype Promise<T> = Resolved(value: T) | Unresolved

  datatype Reward = Reward(unitType: string, unitAmount: int)

  datatype ShowResult = ShowResult(success: bool, rewarded: bool, reward: Option<Reward>)

  /** `{ success: false, rewarded: false }`. */
  const NotShown: ShowResult := ShowResult(false, false, None)

  /** Callbacks of `loadAppsInTossAdMob`: `onEvent` with type "loaded", `onEvent` with another type, `onError`. */
  datatype LoadEvent = LoadedEvent | OtherLoadEvent | LoadError

  /** Callbacks of `showAppsInTossAdMob`: the four event types the source handles, any other, and `onError`. */
  datatype ShowEvent =
    | Requested
    | UserEarnedReward(data: Reward)
    | Dismissed
    | FailedToShow
    | OtherShowEvent
    | ShowError

  /** `TEST_AD_IDS.REWARDED`, the ad group id `getRewardedAdManager` uses by default. */
  const RewardedAdId: string := "ait.v2.live.4a5c7ebb64314d0f"

  /** The index of the first element satisfying `p`, if any. */
  function FirstIndex<T>(s: seq<T>, p: T -> bool): (k: Option<nat>)
    ensures k.Some? ==> k.value < |s| && p(s[k.value]) && forall j :: 0 <= j < k.value ==> !p(s[j])
    ensures k.None? <==> forall j :: 0 <= j < |s| ==> !p(s[j])
  {
    if s == [] then None
    else if p(s[0]) then Some(0)
    else match FirstIndex(s[1..], p)
      case None => None
      case Some(k) => Some(k + 1)
  }

  /** The load events that settle `load`'s promise. */
  predicate IsLoadTerminal(e: LoadEvent)
  {
    e.LoadedEvent? || e.LoadError?
  }

  /** The show events that settle `show`'s promise. */
  predicate IsShowTerminal(e: ShowEvent)
  {
    e.Dismissed? || e.FailedToShow? || e.ShowError?
  }

  // ---------------------------------------------------------------------------
  // Specification of load
  // ---------------------------------------------------------------------------

  /** What `load` leaves on a supported platform: its promise, the status, and whether a cleanup is held. */
  datatype LoadEffect = LoadEffect(result: Promise<bool>, status: AdLoadStatus, cleanup: bool)

  /**
   * `load` on a supported platform: the first "loaded" or error callback
   * decides the result and releases the listener; until then the status is
   * loading and the cleanup is held.
   */
  function LoadSpec(events: seq<LoadEvent>): (e: LoadEffect)
    ensures e.result == Resolved(true) <==> e.status == Loaded
    ensures e.result == Resolved(false) <==> e.status == Error
    ensures e.result == Unresolved <==> e.cleanup
    ensures e.result == Unresolved <==> forall j :: 0 <= j < |events| ==> !IsLoadTerminal(events[j])
    ensures FirstIndex(events, IsLoadTerminal).Some? ==>
      (e.result == Resolved(true) <==> events[FirstIndex(events, IsLoadTerminal).value].LoadedEvent?)
    ensures FirstIndex(events, IsLoadTerminal).Some? ==>
      (e.result == Resolved(false) <==> events[FirstIndex(events, IsLoadTerminal).value].LoadError?)
  {
    match FirstIndex(events, IsLoadTerminal)
    case None => LoadEffect(Unresolved, Loading, true)
    case Some(k) =>
      if events[k].LoadedEvent? then LoadEffect(Resolved(true), Loaded, false)
      else LoadEffect(Resolved(false), Error, false)
  }

  /** Once `load` has settled, later events change nothing: the listener is gone. */
  lemma LoadSettlesOnce(events: seq<LoadEvent>, later: seq<LoadEvent>)
    requires LoadSpec(events).result.Resolved?
    ensures LoadSpec(events + later) == LoadSpec(events)
  {
    var k := FirstIndex(events, IsLoadTerminal).value;
    assert (events + later)[k] == events[k];
    assert FirstIndex(events + later, IsLoadTerminal) == Some(k) by {
      forall j | 0 <= j < k ensures !IsLoadTerminal((events + later)[j]) {
        assert (events + later)[j] == events[j];
      }
    }
  }

  // ---------------------------------------------------------------------------
  // Specification of show
  // ---------------------------------------------------------------------------

  /** Some `userEarnedReward` event is among `events`. */
  predicate Earned(events: seq<ShowEvent>)
  {
    exists j :: 0 <= j < |events| && events[j].UserEarnedReward?
  }

  /** The data of the last `userEarnedReward` event among `events`. */
  function LastReward(events: seq<ShowEvent>): (r: Option<Reward>)
    ensures r.Some? <==> Earned(events)
  {
    if events == [] then None
    else match events[|events| - 1]
      case UserEarnedReward(d) => Some(d)
      case _ =>
        var rest := events[..|events| - 1];
        assert forall j :: 0 <= j < |rest| ==> rest[j] == events[j];
        LastReward(rest)
  }

  /**
   * What `show`'s promise settles to once the ad is shown: the first terminal
   * event decides; "dismissed" succeeds, rewarded exactly when a reward event
   * came before it, carrying the last reward's data.
   */
  function ShowSettlement(events: seq<ShowEvent>): (r: Promise<ShowResult>)
    ensures r.Resolved? && r.value.rewarded ==> r.value.success
    ensures r.Resolved? && !r.value.success ==> r.value == NotShown
  {
    match FirstIndex(events, IsShowTerminal)
    case None => Unresolved
    case Some(k) =>
      if events[k].Dismissed? then Resolved(ShowResult(true, Earned(events[..k]), LastReward(events[..k])))
      else Resolved(NotShown)
  }

  /** What `show` leaves: its promise and the new status. */
  datatype ShowEffect = ShowEffect(result: Promise<ShowResult>, status: AdLoadStatus)

  /**
   * `show` from a given status: without a loaded ad or without platform
   * support it fails at once and changes nothing; otherwise the events decide
   * the result, and any "requested" event puts the status back to idle.
   */
  function ShowSpec(status: AdLoadStatus, supported: bool, events: seq<ShowEvent>): (e: ShowEffect)
    ensures status != Loaded || !supported ==> e == ShowEffect(Resolved(NotShown), status)
    ensures e.status == status || e.status == Idle
  {
    if status != Loaded || !supported then ShowEffect(Resolved(NotShown), status)
    else ShowEffect(ShowSettlement(events), if Requested in events then Idle else Loaded)
  }

  /** A dismissal as the first terminal event succeeds, rewarded exactly when a reward event came earlier. */
  lemma DismissedRewardedIffEarned(events: seq<ShowEvent>, k: nat)
    requires k < |events| && events[k].Dismissed?
    requires forall j :: 0 <= j < k ==> !IsShowTerminal(events[j])
    ensures ShowSettlement(events).Resolved?
    ensures ShowSettlement(events).value.success
    ensures ShowSettlement(events).value.rewarded <==> exists j :: 0 <= j < k && events[j].UserEarnedReward?
  {
    assert FirstIndex(events, IsShowTerminal) == Some(k);
    var pre := events[..k];
    assert forall j :: 0 <= j < k ==> pre[j] == events[j];
  }

  /** Extending the events by one: a settled promise stays settled, an unsettled one settles on a terminal event. */
  lemma {:induction false} ShowSettlementStep(events: seq<ShowEvent>, e: ShowEvent)
    ensures ShowSettlement(events).Resolved? ==> ShowSettlement(events + [e]) == ShowSettlement(events)
    ensures ShowSettlement(events).Unresolved? ==>
      ShowSettlement(events + [e]) ==
        if e.Dismissed? then Resolved(ShowResult(true, Earned(events), LastReward(events)))
        else if IsShowTerminal(e) then Resolved(NotShown)
        else Unresolved
  {
    var evs := events + [e];
    assert forall j :: 0 <= j < |events| ==> evs[j] == events[j];
    match FirstIndex(events, IsShowTerminal)
    case Some(k) =>
      assert FirstIndex(evs, IsShowTerminal) == Some(k);
      assert evs[..k] == events[..k];
    case None =>
      assert evs[..|events|] == events;
      assert evs[|events|] == e;
      if IsShowTerminal(e) {
        assert FirstIndex(evs, IsShowTerminal) == Some(|events|);
      } else {
        assert FirstIndex(evs, IsShowTerminal) == None;
      }
  }

  /** Extending the events by one: how the reward flag, the reward data and the "requested" check move. */
  lemma ShowPrefixStep(events: seq<ShowEvent>, e: ShowEvent)
    ensures Earned(events + [e]) == (Earned(events) || e.UserEarnedReward?)
    ensures LastReward(events + [e]) == if e.UserEarnedReward? then Some(e.data) else LastReward(events)
    ensures (Requested in events + [e]) == (Requested in events || e == Requested)
  {
    var evs := events + [e];
    assert evs[..|events|] == events;
    assert evs[|events|] == e;
    if Earned(events) {
      var j :| 0 <= j < |events| && events[j].UserEarnedReward?;
      assert evs[j] == events[j];
    }
    if Earned(evs) && !e.UserEarnedReward? {
      var j :| 0 <= j < |evs| && evs[j].UserEarnedReward?;
      assert events[j] == evs[j];
    }
  }

  /** A promise settles once: events after the first terminal one do not change what `show` resolves to. */
  lemma {:induction false} ShowSettlesOnce(events: seq<ShowEvent>, later: seq<ShowEvent>)
    requires ShowSettlement(events).Resolved?
    ensures ShowSettlement(events + later) == ShowSettlement(events)
    decreases |later|
  {
    if later == [] {
      assert events + later == events;
    } else {
      var n := |later| - 1;
      ShowSettlesOnce(events, later[..n]);
      ShowSettlementStep(events + later[..n], later[n]);
      assert events + later[..n] + [later[n]] == events + later;
    }
  }

  /** A "requested" event leaves the status idle, so a second `show` without a new `load` fails at once. */
  lemma SecondShowFails(supported: bool, events: seq<ShowEvent>, supported2: bool, events2: seq<ShowEvent>)
    requires Requested in events
    ensures ShowSpec(Loaded, supported, events).status == (if supported then Idle else Loaded)
    ensures supported ==>
      ShowSpec(ShowSpec(Loaded, supported, events).status, supported2, events2)
      == ShowEffect(Resolved(NotShown), Idle)
  {
  }

  /** `loadAndShow` as a function of the SDK inputs and the status before it. */
  function LoadAndShowSpec(status: AdLoadStatus, cleanup: bool, loadSupported: bool, loadEvents: seq<LoadEvent>,
                           showSupported: bool, showEvents: seq<ShowEvent>): (r: (Promise<ShowResult>, AdLoadStatus, bool))
    ensures r.0.Resolved? && r.0.value.success ==>
      loadSupported && LoadSpec(loadEvents).result == Resolved(true) && showSupported
    ensures !loadSupported ==> r == (Resolved(NotShown), status, cleanup)
    ensures loadSupported && LoadSpec(loadEvents).result == Unresolved ==> r == (Unresolved, Loading, true)
    ensures loadSupported && LoadSpec(loadEvents).result == Resolved(false) ==> r == (Resolved(NotShown), Error, false)
    ensures loadSupported && LoadSpec(loadEvents).result == Resolved(true) ==>
      r == (ShowSpec(Loaded, showSupported, showEvents).result, ShowSpec(Loaded, showSupported, showEvents).status, false)
  {
    if !loadSupported then (Resolved(NotShown), status, cleanup)
    else
      var l := LoadSpec(loadEvents);
      match l.result
      case Unresolved => (Unresolved, l.status, l.cleanup)
      case Resolved(false) => (Resolved(NotShown), l.status, l.cleanup)
      case Resolved(true) =>
        var s := ShowSpec(l.status, showSupported, showEvents);
        (s.result, s.status, l.cleanup)
  }

  // ---------------------------------------------------------------------------
  // The manager
  // ---------------------------------------------------------------------------

  class RewardedAdManager {
    const adGroupId: string
    var status: AdLoadStatus
    /** Whether a cleanup function returned by the SDK is held (the field is not null). */
    var cleanup: bool

    constructor (adGroupId: string)
      ensures this.adGroupId == adGroupId && status == Idle && !cleanup
    {
      this.adGroupId := adGroupId;
      status := Idle;
      cleanup := false;
    }

    function GetStatus(): AdLoadStatus
      reads this
    {
      status
    }

    /**
     * `load`: unsupported platforms get `false` and nothing changes; otherwise
     * the status is loading until the first "loaded" or error callback, which
     * releases the listener (so no later event is delivered) and settles the result.
     */
    method Load(supported: bool, events: seq<LoadEvent>) returns (r: Promise<bool>)
      modifies this
      ensures !supported ==> r == Resolved(false) && status == old(status) && cleanup == old(cleanup)
      ensures supported ==> LoadEffect(r, status, cleanup) == LoadSpec(events)
    {
      if !supported {
        return Resolved(false);
      }
      status := Loading;
      cleanup := true;
      r := Unresolved;
      var i := 0;
      while i < |events| && r == Unresolved
        invariant 0 <= i <= |events|
        invariant r == Unresolved ==> status == Loading && cleanup
        invariant r == Unresolved ==> forall j :: 0 <= j < i ==> !IsLoadTerminal(events[j])
        invariant r != Unresolved ==> 0 < i && FirstIndex(events, IsLoadTerminal) == Some(i - 1)
        invariant r != Unresolved ==> LoadEffect(r, status, cleanup) == LoadSpec(events)
      {
        match events[i] {
          case LoadedEvent =>
            status := Loaded;
            cleanup := false;
            r := Resolved(true);
          case LoadError =>
            status := Error;
            cleanup := false;
            r := Resolved(false);
          case OtherLoadEvent =>
        }
        i := i + 1;
      }
    }

    /**
     * `show`: fails at once unless an ad is loaded and the platform supports
     * showing; otherwise it folds every delivered event (the listener is never
     * released), and the first terminal event settles the result.
     */
    method Show(supported: bool, events: seq<ShowEvent>) returns (r: Promise<ShowResult>)
      modifies this
      ensures ShowEffect(r, status) == ShowSpec(old(status), supported, events)
      ensures cleanup == old(cleanup)
    {
      if status != Loaded {
        return Resolved(NotShown);
      }
      if !supported {
        return Resolved(NotShown);
      }
      var rewarded := false;
      var rewardData: Option<Reward> := None;
      r := Unresolved;
      var i := 0;
      ghost var seen: seq<ShowEvent> := [];
      while i < |events|
        invariant 0 <= i <= |events|
        invariant seen == events[..i]
        invariant rewarded == Earned(seen)
        invariant rewardData == LastReward(seen)
        invariant status == if Requested in seen then Idle else Loaded
        invariant r == ShowSettlement(seen)
        invariant cleanup == old(cleanup)
      {
        var e := events[i];
        assert events[..i + 1] == seen + [e];
        ShowSettlementStep(seen, e);
        ShowPrefixStep(seen, e);
        match e {
          case Requested =>
            status := Idle;
          case UserEarnedReward(d) =>
            rewarded := true;
            rewardData := Some(d);
          case Dismissed =>
            if r == Unresolved {
              r := Resolved(ShowResult(true, rewarded, rewardData));
            }
          case FailedToShow =>
            if r == Unresolved {
              r := Resolved(NotShown);
            }
          case ShowError =>
            if r == Unresolved {
              r := Resolved(NotShown);
            }
          case OtherShowEvent =>
        }
        seen := seen + [e];
        i := i + 1;
      }
      assert events[..i] == events;
    }

    /** `loadAndShow`: `show` runs only after `load` settled to true. */
    method LoadAndShow(loadSupported: bool, loadEvents: seq<LoadEvent>, showSupported: bool,
                       showEvents: seq<ShowEvent>) returns (r: Promise<ShowResult>)
      modifies this
      ensures (r, status, cleanup)
              == LoadAndShowSpec(old(status), old(cleanup), loadSupported, loadEvents, showSupported, showEvents)
    {
      var loaded := Load(loadSupported, loadEvents);
      match loaded
      case Unresolved =>
        r := Unresolved;
      case Resolved(ok) =>
        if !ok {
          r := Resolved(NotShown);
        } else {
          r := Show(showSupported, showEvents);
        }
    }

    /** `dispose`: release the cleanup and go back to idle. */
    method Dispose()
      modifies this
      ensures status == Idle && !cleanup
    {
      cleanup := false;
      status := Idle;
    }
  }

  /** The module-level `rewardedAdInstance` variable behind `getRewardedAdManager`. */
  class ManagerCache {
    var instance: RewardedAdManager?

    constructor ()
      ensures instance == null
    {
      instance := null;
    }

    /**
     * `getRewardedAdManager`: the cached manager when its ad group id matches,
     * otherwise a new idle manager for the id, which replaces the cached one.
     */
    method GetRewardedAdManager(adGroupId: string := RewardedAdId) returns (m: RewardedAdManager)
      modifies this
      ensures old(instance) != null && old(instance).adGroupId == adGroupId ==> m == old(instance)
      ensures !(old(instance) != null && old(instance).adGroupId == adGroupId) ==>
        fresh(m) && m.adGroupId == adGroupId && m.status == Idle && !m.cleanup
      ensures instance == m && m.adGroupId == adGroupId
    {
      if instance == null || instance.adGroupId != adGroupId {
        instance := new RewardedAdManager(adGroupId);
      }
      m := instance;
    }
  }
}
