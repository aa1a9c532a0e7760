/**
  Switching the shared headroom pool on and off, by its over-subscribe ratio or
  by its size: which profiles are recalculated, and when the pool itself may be
  written.
 */
module SharedHeadroom {
  import opened BufferTypes
  import opened Wrappers

  /** `ports` are the ports with a priority group that references the profile. */
  datatype Profile = Profile(staticConfigured: bool, params: Params, headroom: Headroom, ports: set<string>)

  datatype Field = Xoff | Xon | Size

  /** What happens at the databases: writes by the manager, and values it reads back from orchagent. */
  datatype Event =
    | WroteProfile(name: string, headroom: Headroom)
    | Observed(name: string, field: Field, value: string)
    | WrotePool(xoff: string)
    | RecalculatedPool(xoff: string)
    | SawPool(applied: string)

  const MAX_CHECKS: nat := 30

  /** The events of a run. */
  datatype Step =
    | DefaultParam(isSet: bool, ratio: string, hasPool: bool)
    | LosslessPool(size: string, dynamicSize: bool, mode: Option<string>)
    | RemovePool
    | Allocate(name: string, params: Params)
    | Refer(name: string, ports: set<string>)
    | Release(name: string)
    | PortsInitialized

  /** The pool is never removed, and has a mode whenever a profile is allocated; `mode` is the one it starts with. */
  predicate AllocatesInTime(mode: string, steps: seq<Step>)
    decreases |steps|
  {
    steps == [] ||
    match steps[0]
    case RemovePool => false
    case LosslessPool(_, _, given) => AllocatesInTime(if given.Some? then given.value else mode, steps[1..])
    case Allocate(_, _) => mode != "" && AllocatesInTime(mode, steps[1..])
    case _ => AllocatesInTime(mode, steps[1..])
  }

  // ---------- the order of events ----------

  ghost predicate Seen(log: seq<Event>, from: nat, to: nat, name: string, h: Headroom)
    requires from <= to <= |log|
  {
    && Observed(name, Xoff, h.xoff) in log[from..to]
    && Observed(name, Xon, h.xon) in log[from..to]
    && Observed(name, Size, h.size) in log[from..to]
  }

  ghost predicate NoPoolWrite(log: seq<Event>, from: nat)
    requires from <= |log|
  {
    forall i | from <= i < |log| :: !log[i].WrotePool?
  }

  ghost predicate OnlyObserved(log: seq<Event>, from: nat)
    requires from <= |log|
  {
    forall i | from <= i < |log| :: log[i].Observed?
  }

  ghost predicate OnlyPool(log: seq<Event>, from: nat)
    requires from <= |log|
  {
    forall i | from <= i < |log| :: log[i].WrotePool? || log[i].RecalculatedPool?
  }

  /** Since `from`, the pool was only written after every profile written before was seen as written. */
  ghost predicate PoolAfterProfiles(log: seq<Event>, from: nat)
    requires from <= |log|
  {
    forall i, j | from <= i < j < |log| && log[i].WroteProfile? && log[j].WrotePool? ::
      Seen(log, i, j, log[i].name, log[i].headroom)
  }

  ghost predicate Wrote(log: seq<Event>, from: nat, name: string, h: Headroom)
    requires from <= |log|
  {
    WroteProfile(name, h) in log[from..]
  }

  /** The event shows that orchagent has the pool enabled, or that none is to be. */
  predicate ShowsEnabled(e: Event) {
    (e.RecalculatedPool? && !IsNonZero(e.xoff)) || (e.SawPool? && IsNonZero(e.applied))
  }

  ghost predicate SawEnabled(log: seq<Event>, from: nat)
    requires from <= |log|
  {
    exists i | from <= i < |log| :: ShowsEnabled(log[i])
  }

  lemma SawEnabledStays(log: seq<Event>, longer: seq<Event>, from: nat)
    requires from <= |log| && log <= longer && SawEnabled(log, from)
    ensures SawEnabled(longer, from)
  {
    var i :| from <= i < |log| && ShowsEnabled(log[i]);
    assert longer[i] == log[i];
  }

  /** A field was read that is not the one of the cached profile, or is not there yet. */
  predicate Differs(e: Event, name: string, h: Headroom) {
    e.Observed? && e.name == name &&
    match e.field
    case Xoff => e.value == "" || e.value != h.xoff
    case Xon => e.value != h.xon
    case Size => e.value != h.size
  }

  /** What was seen in a part of the log was seen in every larger part of a longer log. */
  lemma SeenStays(log: seq<Event>, longer: seq<Event>, from: nat, to: nat, start: nat, end: nat, name: string,
                  h: Headroom)
    requires start <= from <= to <= |log| && log <= longer && to <= end <= |longer| && Seen(log, from, to, name, h)
    ensures Seen(longer, start, end, name, h)
  {
    assert longer[start..end] == longer[start..from] + log[from..to] + longer[to..end];
  }

  class BufferManager {
    /** The vendor's plugins; the headroom depends on whether there is a shared headroom pool. */
    const plugin: (Params, bool) -> Headroom
    const fits: (string, string, Headroom) -> bool

    var portInitDone: bool
    var poolReady: bool
    var ratio: string
    var shpSize: string
    var disablePending: bool
    var profiles: map<string, Profile>
    var toCheck: seq<string>

    /** The ingress lossless pool; its mode is empty until the pool is configured. */
    var poolMode: string
    var poolXoff: string
    var poolSize: string

    ghost var log: seq<Event>

    constructor (plugin: (Params, bool) -> Headroom, fits: (string, string, Headroom) -> bool)
      ensures Fresh() && !Enabled() && profiles == map[] && poolMode == "" && !portInitDone && log == []
      ensures this.plugin == plugin && this.fits == fits
    {
      this.plugin, this.fits, this.poolMode := plugin, fits, "";
      portInitDone, poolReady, ratio, shpSize, disablePending := false, false, "", "", false;
      profiles, toCheck, poolXoff, poolSize, log := map[], [], "", "", [];
    }

    predicate Enabled()
      reads this`ratio, this`shpSize
    {
      IsNonZero(ratio) || IsNonZero(shpSize)
    }

    /** A dynamic profile holds what the plugin says for its parameters. */
    ghost predicate IsFresh(p: string, enabled: bool)
      requires p in profiles
      reads this`profiles
    {
      !profiles[p].staticConfigured ==> profiles[p].headroom == plugin(profiles[p].params, enabled)
    }

    ghost predicate Fresh()
      reads this`profiles, this`ratio, this`shpSize
    {
      forall p <- profiles.Keys :: IsFresh(p, Enabled())
    }

    // ---------- writing ----------

    method UpdatePool()
      modifies this`log
      ensures log == old(log) + [WrotePool(poolXoff)]
    {
      log := log + [WrotePool(poolXoff)];
    }

    /** recalculateSharedBufferPool; what the pool plugin returns is arbitrary. */
    method RecalculatePool()
      modifies this`poolXoff, this`poolSize, this`poolReady, this`log
      ensures log == old(log) + [RecalculatedPool(poolXoff)]
        || log == old(log) + [RecalculatedPool(poolXoff)] + [WrotePool(poolXoff)]
      ensures log == old(log) + [RecalculatedPool(poolXoff)] ==> (poolXoff, poolSize) == old((poolXoff, poolSize))
      ensures old(poolReady) ==> poolReady
    {
      var update: bool := *;
      if update {
        poolXoff, poolSize := *, *;
      }
      log := log + [RecalculatedPool(poolXoff)];
      if update {
        UpdatePool();
      }
      var ready: bool := *;
      poolReady := poolReady || ready;
    }

    method UpdateProfile(name: string) returns (written: bool)
      requires name in profiles
      modifies this`log
      ensures written == poolReady
      ensures log == if poolReady then old(log) + [WroteProfile(name, profiles[name].headroom)] else old(log)
    {
      written := poolReady;
      if poolReady {
        log := log + [WroteProfile(name, profiles[name].headroom)];
      }
    }

    /** Every port that uses the profile can afford it. */
    predicate Affordable(name: string, profile: Profile) {
      forall port <- profile.ports :: fits(port, name, profile.headroom)
    }

    /** doUpdateBufferProfileForSize, without the pool update. */
    method UpdateProfileForSize(name: string) returns (status: Status, written: bool)
      requires name in profiles && !profiles[name].staticConfigured
      modifies this`log
      ensures status == if Affordable(name, profiles[name]) then Success else Failed
      ensures written == (poolReady && status == Success)
      ensures log == if written then old(log) + [WroteProfile(name, profiles[name].headroom)] else old(log)
    {
      var todo := profiles[name].ports;
      while todo != {}
        invariant todo <= profiles[name].ports && log == old(log)
        invariant forall port <- profiles[name].ports - todo :: fits(port, name, profiles[name].headroom)
        decreases todo
      {
        var port :| port in todo;
        if !fits(port, name, profiles[name].headroom) {
          return Failed, false;
        }
        todo := todo - {port};
      }
      written := UpdateProfile(name);
      status := Success;
    }

    /** Whether the recalculated headroom of a profile is accepted. */
    predicate Accepts(p: string, profile: Profile, enabled: bool) {
      Affordable(p, profile.(headroom := plugin(profile.params, enabled)))
    }

    /** The treatment of one profile by refreshSharedHeadroomPool: a rejected headroom is taken back. */
    method RefreshProfile(name: string) returns (status: Status, written: bool)
      requires name in profiles && !profiles[name].staticConfigured
      modifies this`profiles, this`log
      ensures status == if Accepts(name, old(profiles)[name], Enabled()) then Success else Failed
      ensures profiles == if status != Success then old(profiles) else
        old(profiles)[name := old(profiles)[name].(headroom := plugin(old(profiles)[name].params, Enabled()))]
      ensures written == (poolReady && status == Success)
      ensures log == if written then old(log) + [WroteProfile(name, profiles[name].headroom)] else old(log)
    {
      var before := profiles[name].headroom;
      profiles := profiles[name := profiles[name].(headroom := plugin(profiles[name].params, Enabled()))];
      status, written := UpdateProfileForSize(name);
      if status != Success {
        profiles := profiles[name := profiles[name].(headroom := before)];
        assert profiles == old(profiles);
      }
    }

    // ---------- waiting for orchagent ----------

    /** isLosslessProfileSyncedInSai: each field is read on its own. */
    method IsSynced(name: string) returns (synced: bool)
      modifies this`log
      ensures |log| >= |old(log)| && log[..|old(log)|] == old(log) && OnlyObserved(log, |old(log)|)
      ensures synced && name in profiles ==> Seen(log, |old(log)|, |log|, name, profiles[name].headroom)
      ensures !synced ==>
        name in profiles && |log| > |old(log)| && Differs(log[|log| - 1], name, profiles[name].headroom)
    {
      if name !in profiles {
        return true;
      }
      var xoff: string, xon: string, size: string := *, *, *;
      log := log + [Observed(name, Xoff, xoff)];
      if xoff == "" || xoff != profiles[name].headroom.xoff {
        return false;
      }
      log := log + [Observed(name, Xon, xon)];
      if xon != profiles[name].headroom.xon {
        return false;
      }
      log := log + [Observed(name, Size, size)];
      synced := size == profiles[name].headroom.size;
      assert log == old(log) + [Observed(name, Xoff, xoff), Observed(name, Xon, xon), Observed(name, Size, size)];
      assert log[|old(log)|..|log|] == [Observed(name, Xoff, xoff),
        Observed(name, Xon, xon), Observed(name, Size, size)];
    }

    /** The last thing read tells that a profile to check has not been applied. */
    ghost predicate SomeDiffers(names: seq<string>)
      reads this`profiles, this`log
    {
      exists name <- names :: |log| > 0 && name in profiles && Differs(log[|log| - 1], name, profiles[name].headroom)
    }

    /** checkPendingProfilesSyncStatus. */
    method CheckPendingProfiles() returns (status: Status)
      modifies this`toCheck, this`log
      ensures old(log) <= log && OnlyObserved(log, |old(log)|) && status != Failed
      ensures status == Success ==> toCheck == [] && forall name <- old(toCheck) | name in profiles ::
        Seen(log, |old(log)|, |log|, name, profiles[name].headroom)
      ensures status != Success ==> toCheck == old(toCheck) && SomeDiffers(toCheck)
    {
      for i := 0 to |toCheck|
        invariant toCheck == old(toCheck)
        invariant old(log) <= log && OnlyObserved(log, |old(log)|)
        invariant forall name <- toCheck[..i] | name in profiles ::
          Seen(log, |old(log)|, |log|, name, profiles[name].headroom)
      {
        ghost var before := log;
        var synced := IsSynced(toCheck[i]);
        if !synced {
          return NeedRetry;
        }
        forall name <- toCheck[..i + 1] | name in profiles
          ensures Seen(log, |old(log)|, |log|, name, profiles[name].headroom) {
          if name in toCheck[..i] {
            SeenStays(before, log, |old(log)|, |before|, |old(log)|, |log|, name, profiles[name].headroom);
          } else {
            SeenStays(log, log, |before|, |log|, |old(log)|, |log|, name, profiles[name].headroom);
          }
        }
      }
      assert toCheck[..|toCheck|] == toCheck;
      toCheck := [];
      status := Success;
    }

    // ---------- recalculating the profiles ----------

    /** A profile after it was offered its new headroom. */
    function Recalculated(p: string, profile: Profile, enabled: bool): Profile {
      if profile.staticConfigured || !Accepts(p, profile, enabled) then profile
      else profile.(headroom := plugin(profile.params, enabled))
    }

    /** A dynamic profile whose new headroom is rejected. */
    predicate Rejected(p: string, profile: Profile, enabled: bool) {
      !profile.staticConfigured && !Accepts(p, profile, enabled)
    }

    function RejectedIn(some: map<string, Profile>, keys: set<string>, enabled: bool): set<string> {
      set p | p in some && p in keys && Rejected(p, some[p], enabled)
    }

    /** The loop body of refreshSharedHeadroomPool. */
    method RecalculateOne(name: string) returns (failed: bool, wrote: bool)
      requires name in profiles
      modifies this`profiles, this`log
      ensures profiles == old(profiles)[name := Recalculated(name, old(profiles)[name], Enabled())]
      ensures failed <==> Rejected(name, old(profiles)[name], Enabled())
      ensures wrote <==> poolReady && !profiles[name].staticConfigured && !failed
      ensures log == if wrote then old(log) + [WroteProfile(name, profiles[name].headroom)] else old(log)
    {
      failed, wrote := false, false;
      if profiles[name].staticConfigured {
        assert profiles == profiles[name := profiles[name]];
        return;
      }
      var status;
      status, wrote := RefreshProfile(name);
      failed := status != Success;
      assert failed ==> profiles == profiles[name := profiles[name]];
    }

    /** How one profile stands when those in `todo` are still to be offered their headroom. */
    ghost predicate Offered(before: map<string, Profile>, now: map<string, Profile>, enabled: bool, ready: bool,
                            written: seq<string>, todo: set<string>, p: string)
      requires p in before
    {
      p in now &&
      if p in todo then now[p] == before[p] && p !in written
      else now[p] == Recalculated(p, before[p], enabled)
           && (ready ==> now[p].staticConfigured || Rejected(p, before[p], enabled) || p in written)
    }

    ghost predicate AllOffered(before: map<string, Profile>, now: map<string, Profile>, enabled: bool, ready: bool,
                               written: seq<string>, todo: set<string>)
    {
      && now.Keys == before.Keys
      && forall p {:trigger Offered(before, now, enabled, ready, written, todo, p)} ::
           p in before ==> Offered(before, now, enabled, ready, written, todo, p)
    }

    lemma OfferedNext(before: map<string, Profile>, now: map<string, Profile>, after: map<string, Profile>,
                      enabled: bool, ready: bool,
                      written: seq<string>, todo: set<string>, name: string, wrote: bool)
      requires AllOffered(before, now, enabled, ready, written, todo) && name in before && name in todo
      requires after == now[name := Recalculated(name, now[name], enabled)]
      requires wrote <==> ready && !after[name].staticConfigured && !Rejected(name, now[name], enabled)
      ensures AllOffered(before, after, enabled, ready, if wrote then written + [name] else written, todo - {name})
    {
      assert Offered(before, now, enabled, ready, written, todo, name);
      forall p | p in before
        ensures Offered(before, after, enabled, ready, if wrote then written + [name] else written, todo - {name}, p) {
        assert Offered(before, now, enabled, ready, written, todo, p);
      }
    }

    lemma RejectedNext(some: map<string, Profile>, keys: set<string>, name: string, enabled: bool)
      requires name in some
      ensures RejectedIn(some, keys + {name}, enabled)
              == RejectedIn(some, keys, enabled) + if Rejected(name, some[name], enabled) then {name} else {}
    {
    }

    /** The loop of refreshSharedHeadroomPool over the profiles. */
    method RecalculateAll() returns (failed: bool, written: seq<string>)
      modifies this`profiles, this`log
      ensures AllOffered(old(profiles), profiles, Enabled(), poolReady, written, {})
      ensures failed <==> RejectedIn(old(profiles), old(profiles).Keys, Enabled()) != {}
      ensures old(log) <= log && OnlyProfiles(profiles, log, |old(log)|, written)
    {
      failed, written := false, [];
      ghost var before, enabled, done := profiles, Enabled(), {};
      var todo := profiles.Keys;
      while todo != {}
        invariant todo + done == before.Keys && AllOffered(before, profiles, enabled, poolReady, written, todo)
        invariant failed <==> RejectedIn(before, done, enabled) != {}
        invariant old(log) <= log && OnlyProfiles(profiles, log, |old(log)|, written)
        decreases todo
      {
        var name :| name in todo;
        ghost var profiles0, log0 := profiles, log;
        assert Offered(before, profiles, enabled, poolReady, written, todo, name);
        var rejected, wrote := RecalculateOne(name);
        NextProfile(profiles0, log0, profiles, log, |old(log)|, written, name, wrote);
        OfferedNext(before, profiles0, profiles, enabled, poolReady, written, todo, name, wrote);
        RejectedNext(before, done, name, enabled);
        failed := failed || rejected;
        written := if wrote then written + [name] else written;
        todo, done := todo - {name}, done + {name};
      }
      assert done == before.Keys;
    }

    // ---------- refreshing ----------

    predicate NeedsRefresh(byRatio: bool, bySize: bool)
      reads this`ratio, this`shpSize
    {
      (byRatio && !IsNonZero(shpSize)) || (bySize && !IsNonZero(ratio))
    }

    ghost predicate AllRecalculated(before: map<string, Profile>, now: map<string, Profile>, enabled: bool) {
      now.Keys == before.Keys && forall p <- now.Keys :: now[p] == Recalculated(p, before[p], enabled)
    }

    /** Every dynamic profile whose headroom is accepted was written since `from`. */
    ghost predicate AllWritten(before: map<string, Profile>, now: map<string, Profile>, enabled: bool, log: seq<Event>,
                               from: nat)
      requires from <= |log|
    {
      forall p {:trigger WrittenUnless(before, now, enabled, log, from, p)} ::
        p in now && p in before ==> WrittenUnless(before, now, enabled, log, from, p)
    }

    ghost predicate WrittenUnless(before: map<string, Profile>, now: map<string, Profile>, enabled: bool,
                                  log: seq<Event>, from: nat, p: string)
      requires from <= |log| && p in now && p in before
    {
      now[p].staticConfigured || Rejected(p, before[p], enabled) || Wrote(log, from, p, now[p].headroom)
    }

    lemma OfferedToAll(before: map<string, Profile>, now: map<string, Profile>, enabled: bool, ready: bool,
                       written: seq<string>, log: seq<Event>, from: nat)
      requires from <= |log| && AllOffered(before, now, enabled, ready, written, {})
        && OnlyProfiles(now, log, from, written)
      ensures AllRecalculated(before, now, enabled) && NoPoolWrite(log, from)
      ensures ready ==> AllWritten(before, now, enabled, log, from)
    {
      forall p <- now.Keys
        ensures Offered(before, now, enabled, ready, written, {}, p)
        ensures ready ==> WrittenUnless(before, now, enabled, log, from, p)
      {
      }
    }

    lemma WrittenStays(before: map<string, Profile>, now: map<string, Profile>, enabled: bool, log1: seq<Event>,
                       log: seq<Event>, from: nat)
      requires from <= |log1| && log1 <= log
      ensures AllWritten(before, now, enabled, log1, from) ==> AllWritten(before, now, enabled, log, from)
    {
      assert log1[from..] <= log[from..];
      if AllWritten(before, now, enabled, log1, from) {
        forall p | p in now && p in before ensures WrittenUnless(before, now, enabled, log, from, p) {
          assert WrittenUnless(before, now, enabled, log1, from, p);
        }
      }
    }

    /** refreshSharedHeadroomPool up to the pool: recalculate the profiles, and when disabling see them applied. */
    method SettleProfiles(byRatio: bool, bySize: bool) returns (status: Status)
      modifies this`profiles, this`toCheck, this`log
      ensures if NeedsRefresh(byRatio, bySize) then AllRecalculated(old(profiles), profiles, Enabled())
              else profiles == old(profiles)
      ensures old(log) <= log && NoPoolWrite(log, |old(log)|)
      ensures byRatio && !Enabled() && portInitDone && status == Success ==> Settled(log, |old(log)|)
      ensures byRatio && !Enabled() && poolReady ==> AllWritten(old(profiles), profiles, Enabled(), log, |old(log)|)
      ensures status == Failed <==>
        NeedsRefresh(byRatio, bySize) && byRatio && !IsNonZero(ratio) && SomeRejected(old(profiles))
      ensures status == NeedRetry ==> byRatio && !Enabled() && portInitDone && SomeDiffers(toCheck)
    {
      status := Success;
      if NeedsRefresh(byRatio, bySize) {
        status := RecalculateAndAwait(byRatio);
      }
    }

    ghost predicate SomeRejected(before: map<string, Profile>)
      reads this`ratio, this`shpSize
    {
      RejectedIn(before, before.Keys, Enabled()) != {}
    }

    method RecalculateAndAwait(byRatio: bool) returns (status: Status)
      modifies this`profiles, this`toCheck, this`log
      ensures AllRecalculated(old(profiles), profiles, Enabled())
      ensures old(log) <= log && NoPoolWrite(log, |old(log)|)
      ensures byRatio && !Enabled() && portInitDone && status == Success ==> Settled(log, |old(log)|)
      ensures poolReady ==> AllWritten(old(profiles), profiles, Enabled(), log, |old(log)|)
      ensures status == Failed <==> byRatio && !IsNonZero(ratio) && SomeRejected(old(profiles))
      ensures status == NeedRetry ==> byRatio && !Enabled() && portInitDone && SomeDiffers(toCheck)
    {
      var disabling := byRatio && !IsNonZero(ratio);
      var failed, written := RecalculateListed(!byRatio || disabling);
      if failed && disabling {
        return Failed;
      }
      ghost var log1 := log;
      status := AwaitProfiles(disabling);
      WrittenStays(old(profiles), profiles, Enabled(), log1, log, |old(log)|);
      if disabling && !IsNonZero(shpSize) && portInitDone && status == Success {
        ProfilesSettled(profiles, log1, log, |old(log)|, written);
      }
    }

    /** Every profile is offered its new headroom, and those written may have to be checked. */
    method RecalculateListed(listed: bool) returns (failed: bool, written: seq<string>)
      modifies this`profiles, this`toCheck, this`log
      ensures AllRecalculated(old(profiles), profiles, Enabled()) && (failed <==> SomeRejected(old(profiles)))
      ensures old(log) <= log && NoPoolWrite(log, |old(log)|) && OnlyProfiles(profiles, log, |old(log)|, written)
      ensures poolReady ==> AllWritten(old(profiles), profiles, Enabled(), log, |old(log)|)
      ensures toCheck == if portInitDone && listed then written else []
    {
      toCheck := [];
      failed, written := RecalculateAll();
      OfferedToAll(old(profiles), profiles, Enabled(), poolReady, written, log, |old(log)|);
      if portInitDone && listed {
        toCheck := written;
      }
    }

    /** Turning the pool off, the profiles to check must have been applied. */
    method AwaitProfiles(disabling: bool) returns (status: Status)
      modifies this`toCheck, this`log
      ensures old(log) <= log && OnlyObserved(log, |old(log)|)
      ensures disabling && !IsNonZero(shpSize) && status == Success ==>
        forall name <- old(toCheck) | name in profiles ::
          Seen(log, |old(log)|, |log|, name, profiles[name].headroom)
      ensures status != Success ==> status == NeedRetry && disabling && !IsNonZero(shpSize) && SomeDiffers(toCheck)
      ensures toCheck == old(toCheck) || (toCheck == [] && status == Success)
    {
      status := Success;
      if disabling && !IsNonZero(shpSize) && toCheck != [] {
        status := CheckPendingProfiles();
      }
    }

    method RefreshSharedHeadroomPool(byRatio: bool, bySize: bool) returns (status: Status, ghost settled: seq<Event>)
      modifies this`profiles, this`toCheck, this`poolXoff, this`poolSize, this`poolReady, this`log
      ensures if old(NeedsRefresh(byRatio, bySize))
              then AllRecalculated(old(profiles), profiles, Enabled()) else profiles == old(profiles)
      ensures old(log) <= log
      ensures byRatio && !Enabled() && portInitDone ==>
        PoolAfterProfiles(log, |old(log)|) && (status != Success ==> NoPoolWrite(log, |old(log)|))
      ensures byRatio && !Enabled() && old(poolReady) ==>
        AllWritten(old(profiles), profiles, Enabled(), log, |old(log)|)
      ensures status == Failed <==>
        old(NeedsRefresh(byRatio, bySize)) && byRatio && !IsNonZero(ratio) && SomeRejected(old(profiles))
      ensures status == NeedRetry ==> byRatio && !Enabled() && portInitDone && SomeDiffers(toCheck)
      ensures old(log) <= settled <= log && NoPoolWrite(settled, |old(log)|) && (status != Success ==> log == settled)
      ensures status == Success ==> PoolWritten(byRatio, old(poolSize), settled, log)
      ensures status != Success ==> (poolXoff, poolSize, poolReady) == old((poolXoff, poolSize, poolReady))
    {
      status := SettleProfiles(byRatio, bySize);
      settled := log;
      if status != Success {
        return;
      }
      RefreshPool(byRatio);
      WrittenStays(old(profiles), profiles, Enabled(), settled, log, |old(log)|);
      if byRatio && !Enabled() && portInitDone {
        PoolAfterSettled(settled, log, |old(log)|);
      }
    }

    /** The size of the pool that refreshSharedHeadroomPool sets: the configured one, or none after turning it off. */
    function TargetXoff(byRatio: bool): Option<string>
      reads this`ratio, this`shpSize
    {
      if IsNonZero(shpSize) then Some(shpSize) else if !IsNonZero(ratio) && byRatio then Some("0") else None
    }

    /** The writes that follow: only a pool that has a total size is written, and it is recalculated once ports are. */
    ghost predicate PoolWritten(byRatio: bool, size: string, log0: seq<Event>, log1: seq<Event>)
      reads this`ratio, this`shpSize, this`portInitDone, this`poolXoff
    {
      var target := TargetXoff(byRatio);
      var written := if target.Some? && IsNonZero(size) then log0 + [WrotePool(target.value)] else log0;
      if !portInitDone then log1 == written && (target.Some? ==> poolXoff == target.value)
      else (log1 == written + [RecalculatedPool(poolXoff)] && (target.Some? ==> poolXoff == target.value))
           || log1 == written + [RecalculatedPool(poolXoff)] + [WrotePool(poolXoff)]
    }

    /** The end of refreshSharedHeadroomPool, which concerns the pool alone. */
    method RefreshPool(byRatio: bool)
      modifies this`poolXoff, this`poolSize, this`poolReady, this`log
      ensures old(log) <= log && OnlyPool(log, |old(log)|) && PoolWritten(byRatio, old(poolSize), old(log), log)
    {
      if IsNonZero(shpSize) {
        poolXoff := shpSize;
        if IsNonZero(poolSize) {
          UpdatePool();
        }
      } else if !IsNonZero(ratio) && byRatio {
        poolXoff := "0";
        if IsNonZero(poolSize) {
          UpdatePool();
        }
      }
      if portInitDone {
        RecalculatePool();
      }
    }

    // ---------- events ----------

    /** The rejected profiles happen to hold what the plugin says. */
    ghost predicate FreshWhereRejected(before: map<string, Profile>, now: map<string, Profile>, enabled: bool) {
      forall p <- RejectedIn(before, before.Keys, enabled) | p in now ::
        now[p].headroom == plugin(now[p].params, enabled)
    }

    /** After a recalculation the profiles are fresh but for those that were rejected. */
    lemma FreshAfter(before: map<string, Profile>, enabled: bool)
      requires AllRecalculated(before, profiles, Enabled()) || (profiles == before && enabled == Enabled())
      requires forall p <- before.Keys ::
        !before[p].staticConfigured ==> before[p].headroom == plugin(before[p].params, enabled)
      ensures Fresh() <==> FreshWhereRejected(before, profiles, Enabled())
    {
      if FreshWhereRejected(before, profiles, Enabled()) {
        forall p <- profiles.Keys ensures IsFresh(p, Enabled()) {
          if Rejected(p, before[p], Enabled()) {
            assert p in RejectedIn(before, before.Keys, Enabled());
          }
        }
      }
    }

    /** isSharedHeadroomPoolEnabledInSai, polled by waitWithRetry; what orchagent has applied is arbitrary. */
    method WaitPoolEnabled() returns (status: Status)
      modifies this`poolXoff, this`poolSize, this`poolReady, this`log
      ensures old(log) <= log && status in {Success, Failed}
      ensures status == Success <==> SawEnabled(log, |old(log)|)
      ensures status == Failed ==> |log| >= |old(log)| + 2 * MAX_CHECKS
    {
      for i := 0 to MAX_CHECKS
        invariant old(log) <= log && |log| >= |old(log)| + 2 * i && !SawEnabled(log, |old(log)|)
      {
        ghost var k := |log|;
        RecalculatePool();
        if !IsNonZero(poolXoff) {
          assert log[k] == RecalculatedPool(poolXoff);
          return Success;
        }
        var applied: string := *;
        log := log + [SawPool(applied)];
        if IsNonZero(applied) {
          assert log[|log| - 1] == SawPool(applied);
          return Success;
        }
      }
      return Failed;
    }

    /** waitPendingProfilesSyncStatus. */
    method WaitPendingProfiles() returns (status: Status)
      modifies this`toCheck, this`log
      ensures old(log) <= log && status != NeedRetry
      ensures if status == Success then toCheck == [] else toCheck == old(toCheck) && SomeDiffers(toCheck)
    {
      for i := 0 to MAX_CHECKS
        invariant old(log) <= log && toCheck == old(toCheck) && (i > 0 ==> SomeDiffers(toCheck))
      {
        status := CheckPendingProfiles();
        if status == Success {
          return;
        }
      }
      return Failed;
    }

    /**
      handleDefaultLossLessBufferParam.  When it turns the pool off, the pool is
      written last or not at all, and a retry writes and checks every profile again.
     */
    method HandleDefaultParam(isSet: bool, givenRatio: string, hasPool: bool) returns (status: Status)
      modifies this`ratio, this`disablePending, this`profiles, this`toCheck,
        this`poolXoff, this`poolSize, this`poolReady, this`log
      ensures old(log) <= log
      ensures old(Fresh()) ==> (Fresh() <==> FreshWhereRejected(old(profiles), profiles, Enabled()))
      ensures TurnsOff(isSet, givenRatio, hasPool, old(ratio), old(disablePending)) && portInitDone ==>
        PoolAfterProfiles(log, |old(log)|) && (status != Success ==> NoPoolWrite(log, |old(log)|))
      ensures TurnsOff(isSet, givenRatio, hasPool, old(ratio), old(disablePending)) && old(poolReady) ==>
        AllWritten(old(profiles), profiles, Enabled(), log, |old(log)|)
      ensures TurnsOff(isSet, givenRatio, hasPool, old(ratio), old(disablePending)) && status == NeedRetry ==>
        disablePending
      ensures var newRatio := if isSet then givenRatio else "";
              if isSet && !hasPool then
                && status == NeedRetry
                && (ratio, disablePending, profiles, log) == old((ratio, disablePending, profiles, log))
              else if newRatio == old(ratio) && !old(disablePending) then
                && status == Success
                && (ratio, disablePending, profiles, log) == old((ratio, disablePending, profiles, log))
              else
                RatioTaken(newRatio, status, old(ratio), old(disablePending), old(profiles), old(log))
    {
      ghost var before, enabled := profiles, Enabled();
      if isSet && !hasPool {
        if old(Fresh()) { FreshAfter(before, enabled); }
        return NeedRetry;
      }
      var newRatio := if isSet then givenRatio else "";
      status := Success;
      if newRatio != ratio || disablePending {
        ghost var settled, size;
        status, settled, size := ChangeRatio(newRatio);
      }
      if old(Fresh()) { FreshAfter(before, enabled); }
    }

    /**
      The new ratio is stored unless orchagent would not enable the pool. Turning the pool on or off recalculates
      the profiles, and only a refresh that cannot finish leaves turning it off pending.
     */
    ghost predicate RatioTaken(newRatio: string, status: Status, oldRatio: string, pending: bool,
                               before: map<string, Profile>, log0: seq<Event>)
      requires log0 <= log
      reads this`ratio, this`shpSize, this`disablePending, this`profiles, this`portInitDone, this`log
    {
      if ratio != newRatio then
        && NotEnabled(newRatio, oldRatio) && status == Failed && !SawEnabled(log, |log0|)
        && (ratio, disablePending, profiles) == (oldRatio, pending, before)
      else
        && disablePending == (status != Success && (pending || (status == NeedRetry && !IsNonZero(newRatio))))
        && (status == Failed ==> !IsNonZero(newRatio) && SomeRejected(before))
        && (NotEnabled(newRatio, oldRatio) ==> SawEnabled(log, |log0|))
        && (if !IsNonZero(shpSize) && RatioFlips(newRatio, oldRatio, pending)
            then AllRecalculated(before, profiles, Enabled()) else profiles == before)
    }

    /** The event is processed, and leaves the pool without ratio and without size. */
    predicate TurnsOff(isSet: bool, givenRatio: string, hasPool: bool, oldRatio: string, pending: bool)
      reads this`shpSize
    {
      && (!isSet || hasPool) && (isSet ==> !IsNonZero(givenRatio))
      && (IsNonZero(oldRatio) || pending) && !IsNonZero(shpSize)
    }

    /** The ratio turns the pool on or off, or must turn it off again. */
    predicate RatioFlips(newRatio: string, oldRatio: string, pending: bool) {
      IsNonZero(oldRatio) != IsNonZero(newRatio) || (pending && !IsNonZero(newRatio))
    }

    /** Turning the pool on needs orchagent to have it enabled. */
    predicate NotEnabled(newRatio: string, oldRatio: string)
      reads this`portInitDone
    {
      newRatio != oldRatio && portInitDone && !IsNonZero(oldRatio) && IsNonZero(newRatio)
    }

    /** handleDefaultLossLessBufferParam, once the ratio differs; `settled` and `size` are the log and the pool's size
        when the profiles have settled. */
    method ChangeRatio(newRatio: string) returns (status: Status, ghost settled: seq<Event>, ghost size: string)
      requires newRatio != ratio || disablePending
      modifies this`ratio, this`disablePending, this`profiles, this`toCheck,
        this`poolXoff, this`poolSize, this`poolReady, this`log
      ensures old(log) <= log
      ensures AllRecalculated(old(profiles), profiles, Enabled())
        || (profiles == old(profiles) && Enabled() == old(Enabled()))
      ensures !IsNonZero(newRatio) && (IsNonZero(old(ratio)) || old(disablePending)) && !IsNonZero(shpSize) ==>
        && (portInitDone ==> PoolAfterProfiles(log, |old(log)|) && (status != Success ==> NoPoolWrite(log, |old(log)|)))
        && (old(poolReady) ==> AllWritten(old(profiles), profiles, Enabled(), log, |old(log)|))
      ensures RatioTaken(newRatio, status, old(ratio), old(disablePending), old(profiles), old(log))
      ensures old(log) <= settled <= log && (status != Success ==> log == settled)
      ensures ratio == newRatio && NotEnabled(newRatio, old(ratio)) ==> SawEnabled(settled, |old(log)|)
      ensures status == Success ==>
        PoolWritten(RatioFlips(newRatio, old(ratio), old(disablePending)), size, settled, log)
    {
      var wasEnabled, willBe := IsNonZero(ratio), IsNonZero(newRatio);
      status := SetRatio(newRatio);
      settled, size := log, poolSize;
      if status != Success {
        return;
      }
      var retrying := disablePending && !willBe;
      ghost var log1 := log;
      status, settled := RefreshSharedHeadroomPool(wasEnabled != willBe || retrying, false);
      if SawEnabled(log1, |old(log)|) {
        SawEnabledStays(log1, settled, |old(log)|);
        SawEnabledStays(log1, log, |old(log)|);
      }
      RememberDisable(status, willBe);
    }

    /** Turning the pool off is pending until a refresh succeeds. */
    method RememberDisable(status: Status, willBe: bool)
      modifies this`disablePending
      ensures disablePending == (status != Success && (old(disablePending) || (status == NeedRetry && !willBe)))
    {
      if status != Success {
        if status == NeedRetry && !willBe {
          disablePending := true;
        }
        return;
      }
      disablePending := false;
    }

    /** The ratio is taken over, once orchagent has the pool enabled if the ratio is what turns it on. */
    method SetRatio(newRatio: string) returns (status: Status)
      modifies this`ratio, this`poolXoff, this`poolSize, this`poolReady, this`log
      ensures old(log) <= log && (!NotEnabled(newRatio, old(ratio)) ==> unchanged(this`log, this`poolReady))
      ensures status == if !NotEnabled(newRatio, old(ratio)) || SawEnabled(log, |old(log)|) then Success else Failed
      ensures ratio == if status == Success then newRatio else old(ratio)
    {
      status := Success;
      if newRatio != ratio && portInitDone && !IsNonZero(ratio) && IsNonZero(newRatio) {
        status := WaitPoolEnabled();
        if status != Success {
          return;
        }
      }
      if newRatio != ratio {
        ratio := newRatio;
      }
    }

    /** handleBufferPoolTable, SET of the ingress lossless pool; the mode field may be missing. */
    method HandleLosslessPool(newSize: string, dynamicSize: bool, mode: Option<string>) returns (status: Status)
      modifies this`shpSize, this`profiles, this`toCheck, this`poolMode, this`poolXoff, this`poolSize, this`poolReady
      modifies this`log
      ensures old(log) <= log
      ensures poolMode == if mode.Some? then mode.value else old(poolMode)
      ensures newSize != old(shpSize) ==> SizeSet(newSize, old(shpSize), status, old(log), log)
      ensures RecalculatedBySize(newSize, old(shpSize), old(profiles))
      ensures newSize == old(shpSize) ==> status == Success && profiles == old(profiles)
      ensures old(Fresh()) ==> (Fresh() <==> FreshWhereRejected(old(profiles), profiles, Enabled()))
      ensures status == Success && !dynamicSize && !(!IsNonZero(newSize) && IsNonZero(ratio)) ==>
        |log| > 0 && log[|log| - 1] == WrotePool(newSize)
      ensures newSize == old(shpSize) && (dynamicSize || (!IsNonZero(newSize) && IsNonZero(ratio))) ==> log == old(log)
    {
      poolMode := if mode.Some? then mode.value else poolMode;
      status := Resize(newSize);
      if status != Success {
        return;
      }
      if !dynamicSize && !(!IsNonZero(newSize) && IsNonZero(ratio)) {
        ghost var log1 := log;
        WriteSize(newSize);
        if SawEnabled(log1, |old(log)|) { SawEnabledStays(log1, log, |old(log)|); }
      }
    }

    method WriteSize(size: string)
      modifies this`log
      ensures log == old(log) + [WrotePool(size)]
    {
      log := log + [WrotePool(size)];
    }

    method Resize(newSize: string) returns (status: Status)
      modifies this`shpSize, this`profiles, this`toCheck, this`poolXoff, this`poolSize, this`poolReady, this`log
      ensures old(log) <= log
      ensures newSize != old(shpSize) ==> SizeSet(newSize, old(shpSize), status, old(log), log)
      ensures newSize == old(shpSize) ==> status == Success && unchanged(this)
      ensures RecalculatedBySize(newSize, old(shpSize), old(profiles))
      ensures old(Fresh()) ==> (Fresh() <==> FreshWhereRejected(old(profiles), profiles, Enabled()))
    {
      ghost var before, enabled := profiles, Enabled();
      status := Success;
      if newSize != shpSize {
        ghost var size, settled, written;
        status, size, settled, written := ChangeSize(newSize);
      }
      if old(Fresh()) { FreshAfter(before, enabled); }
    }

    /** Without a ratio, a size that comes or goes recalculates every dynamic profile. */
    ghost predicate RecalculatedBySize(newSize: string, oldSize: string, before: map<string, Profile>)
      reads this`shpSize, this`ratio, this`profiles
    {
      if shpSize == newSize && !IsNonZero(ratio) && IsNonZero(oldSize) != IsNonZero(newSize)
      then AllRecalculated(before, profiles, Enabled()) else profiles == before
    }

    /** The size is the configured one, unless it is what turns the pool on and orchagent would not enable it. */
    ghost predicate SizeSet(newSize: string, oldSize: string, status: Status, log0: seq<Event>, log1: seq<Event>)
      requires log0 <= log1
      reads this`shpSize, this`portInitDone
    {
      var enables := portInitDone && !IsNonZero(oldSize) && IsNonZero(newSize);
      (shpSize == newSize && (enables ==> SawEnabled(log1, |log0|)))
      || (shpSize == oldSize && status == Failed && enables && !SawEnabled(log1, |log0|))
    }

    /**
      `size` is the pool's total size when the profiles have settled; the log is then `settled`, and `written` once
      the pool is written.
     */
    method ChangeSize(newSize: string)
      returns (status: Status, ghost size: string, ghost settled: seq<Event>, ghost written: seq<Event>)
      modifies this`shpSize, this`profiles, this`toCheck, this`poolXoff, this`poolSize, this`poolReady, this`log
      ensures old(log) <= settled <= written <= log
      ensures AllRecalculated(old(profiles), profiles, Enabled())
        || (profiles == old(profiles) && Enabled() == old(Enabled()))
      ensures SizeSet(newSize, old(shpSize), status, old(log), log)
      ensures if shpSize == newSize then PoolWritten(false, size, settled, written) else log == settled
      ensures RecalculatedBySize(newSize, old(shpSize), old(profiles))
      ensures status == Success ==> toCheck == []
      ensures status == Failed && shpSize == newSize != old(shpSize) ==> SomeDiffers(toCheck)
      ensures status != NeedRetry
    {
      var wasEnabled, willBe := IsNonZero(shpSize), IsNonZero(newSize);
      status := SetSize(newSize);
      size, settled, written := poolSize, log, log;
      if status != Success {
        return;
      }
      ghost var log1 := log;
      status, settled := RefreshSharedHeadroomPool(false, wasEnabled != willBe);
      written := log;
      if status != Success {
        return;
      }
      if toCheck != [] {
        status := WaitPendingProfiles();
      }
      if SawEnabled(log1, |old(log)|) { SawEnabledStays(log1, log, |old(log)|); }
    }

    /** The size is taken over, once orchagent has the pool enabled if the size is what turns it on. */
    method SetSize(newSize: string) returns (status: Status)
      modifies this`shpSize, this`poolXoff, this`poolSize, this`poolReady, this`log
      ensures old(log) <= log && SizeSet(newSize, old(shpSize), status, old(log), log)
      ensures status == if shpSize == newSize then Success else Failed
    {
      if portInitDone && !IsNonZero(shpSize) && IsNonZero(newSize) {
        status := WaitPoolEnabled();
        if status != Success {
          return;
        }
      }
      shpSize := newSize;
      status := Success;
    }

    /**
      Removing the pool forgets its size without recalculating: harmless if a ratio is
      set or no size was, and otherwise exactly if the plugin does not care.
     */
    method RemoveLosslessPool()
      modifies this`shpSize, this`poolMode
      ensures shpSize == poolMode == ""
      ensures old(Fresh()) ==>
        (Fresh() <==> IsNonZero(ratio) || !IsNonZero(old(shpSize)) || IgnoresPool(profiles))
    {
      ghost var fresh0 := Fresh();
      assert fresh0 ==> forall p <- profiles.Keys :: IsFresh(p, Enabled());
      shpSize, poolMode := "", "";
      assert fresh0 ==> forall p <- profiles.Keys :: IsFresh(p, old(Enabled()));
      if Fresh() {
        assert forall p <- profiles.Keys :: IsFresh(p, Enabled());
      }
    }

    /** The plugin gives the dynamic profiles the same values with and without a shared pool. */
    ghost predicate IgnoresPool(some: map<string, Profile>) {
      forall p <- some.Keys | !some[p].staticConfigured ::
        plugin(some[p].params, true) == plugin(some[p].params, false)
    }

    /**
      allocateProfile: without a pool mode an empty profile stays behind, which the
      next allocation of the name takes for a finished one.
     */
    method AllocateProfile(name: string, params: Params) returns (status: Status)
      modifies this`profiles, this`log
      ensures old(log) <= log
      ensures status == if name in old(profiles) || poolMode != "" then Success else NeedRetry
      ensures profiles == if name in old(profiles) then old(profiles)
                          else if poolMode == "" then old(profiles)[name := Profile(false, NO_PARAMS, NO_HEADROOM, {})]
                          else old(profiles)[name := Profile(false, params, plugin(params, Enabled()), {})]
      ensures old(Fresh()) ==>
        (Fresh() <==> name in old(profiles) || poolMode != "" || plugin(NO_PARAMS, Enabled()) == NO_HEADROOM)
    {
      assert Fresh() <==> forall p <- profiles.Keys :: IsFresh(p, Enabled());
      if name !in profiles {
        profiles := profiles[name := Profile(false, NO_PARAMS, NO_HEADROOM, {})];
        assert IsFresh(name, Enabled()) <==> plugin(NO_PARAMS, Enabled()) == NO_HEADROOM;
        if poolMode == "" {
          return NeedRetry;
        }
        profiles := profiles[name := Profile(false, params, plugin(params, Enabled()), {})];
        var written := UpdateProfile(name);
      }
      status := Success;
    }

    /** References come and go without touching the headroom. */
    method Reference(name: string, ports: set<string>)
      requires name in profiles
      modifies this`profiles
      ensures (old(Fresh()) ==> Fresh()) && profiles == old(profiles)[name := old(profiles)[name].(ports := ports)]
    {
      assert Fresh() ==> forall p <- profiles.Keys :: IsFresh(p, Enabled());
      profiles := profiles[name := profiles[name].(ports := ports)];
    }

    /** releaseProfile of a profile nothing references. */
    method ReleaseProfile(name: string)
      modifies this`profiles
      ensures (old(Fresh()) ==> Fresh()) && profiles == old(profiles) - {name}
    {
      assert Fresh() ==> forall p <- profiles.Keys :: IsFresh(p, Enabled());
      profiles := profiles - {name};
    }

    /** Ports are initialized from now on. */
    method InitializePorts()
      modifies this`portInitDone
      ensures portInitDone
    {
      portInitDone := true;
    }

    /** The check plugin accepts every headroom. */
    ghost predicate AcceptsAll() {
      forall port, name, h :: fits(port, name, h)
    }

    lemma NothingRejected(before: map<string, Profile>, now: map<string, Profile>, enabled: bool)
      requires AcceptsAll()
      ensures FreshWhereRejected(before, now, enabled)
    {
    }

    /** What an event must not do to keep a cache fresh in which no headroom is rejected. */
    ghost predicate Harmless(step: Step)
      reads this
    {
      match step
      case RemovePool => IsNonZero(ratio) || !IsNonZero(shpSize) || IgnoresPool(profiles)
      case Allocate(name, _) => name in profiles || poolMode != "" || plugin(NO_PARAMS, Enabled()) == NO_HEADROOM
      case _ => true
    }

    /** One event of a run. */
    method Perform(step: Step)
      requires AcceptsAll()
      modifies this
      ensures old(Fresh()) ==> (Fresh() <==> old(Harmless(step)))
      ensures poolMode == match step
                          case LosslessPool(_, _, mode) => if mode.Some? then mode.value else old(poolMode)
                          case RemovePool => ""
                          case _ => old(poolMode)
      ensures match step
              case Refer(name, ports) =>
                profiles == if name !in old(profiles) then old(profiles)
                            else old(profiles)[name := old(profiles)[name].(ports := ports)]
              case Release(name) => profiles == old(profiles) - {name}
              case Allocate(name, params) => name in profiles && profiles - {name} == old(profiles) - {name}
              case RemovePool => shpSize == "" && profiles == old(profiles)
              case PortsInitialized => portInitDone && profiles == old(profiles)
              case _ => profiles.Keys == old(profiles).Keys
    {
      ghost var before := profiles;
      match step {
        case DefaultParam(isSet, ratio, hasPool) =>
          var status := HandleDefaultParam(isSet, ratio, hasPool);
          NothingRejected(before, profiles, Enabled());
        case LosslessPool(size, dynamicSize, mode) =>
          var status := HandleLosslessPool(size, dynamicSize, mode);
          NothingRejected(before, profiles, Enabled());
        case RemovePool => RemoveLosslessPool();
        case Allocate(name, params) =>
          var status := AllocateProfile(name, params);
        case Refer(name, ports) =>
          if name in profiles {
            Reference(name, ports);
          }
        case Release(name) => ReleaseProfile(name);
        case PortsInitialized => InitializePorts();
      }
    }

    /**
      Over every run from start-up on in which no headroom is rejected, the pool stays
      and has a mode by the time profiles are allocated, every dynamic profile holds
      the plugin's value under the current flag, although the profiles are
      recalculated only when the flag flips.
     */
    method Run(steps: seq<Step>)
      requires AcceptsAll()
      modifies this
      ensures old(Fresh()) && AllocatesInTime(old(poolMode), steps) ==> Fresh()
    {
      for i := 0 to |steps|
        invariant old(Fresh()) && AllocatesInTime(old(poolMode), steps) ==>
          Fresh() && AllocatesInTime(poolMode, steps[i..])
      {
        assert steps[i..][1..] == steps[i + 1..];
        Perform(steps[i]);
      }
    }
  }

  /** Every profile written since `from` has been seen as it was written. */
  ghost predicate Settled(log: seq<Event>, from: nat)
    requires from <= |log|
  {
    forall i | from <= i < |log| && log[i].WroteProfile? :: Seen(log, i, |log|, log[i].name, log[i].headroom)
  }

  lemma ProfilesSettled(profiles: map<string, Profile>, log1: seq<Event>, log: seq<Event>, from: nat,
                        written: seq<string>)
    requires from <= |log1| && OnlyProfiles(profiles, log1, from, written) && log1 <= log && OnlyObserved(log, |log1|)
    requires forall name <- written | name in profiles :: Seen(log, |log1|, |log|, name, profiles[name].headroom)
    ensures Settled(log, from)
  {
    forall i | from <= i < |log| && log[i].WroteProfile? ensures Seen(log, i, |log|, log[i].name, log[i].headroom) {
      assert i < |log1| && IsProfileWrite(profiles, log1[i], written);
      SeenStays(log, log, |log1|, |log|, i, |log|, log[i].name, log[i].headroom);
    }
  }

  lemma PoolAfterSettled(log1: seq<Event>, log: seq<Event>, from: nat)
    requires from <= |log1| && NoPoolWrite(log1, from) && Settled(log1, from) && log1 <= log && OnlyPool(log, |log1|)
    ensures PoolAfterProfiles(log, from)
  {
    forall i, j | from <= i < j < |log| && log[i].WroteProfile? && log[j].WrotePool?
      ensures Seen(log, i, j, log[i].name, log[i].headroom) {
      SeenStays(log1, log, i, |log1|, i, j, log[i].name, log[i].headroom);
    }
  }

  /** Since `from` only profiles were written, each with the headroom it holds now. */
  ghost predicate OnlyProfiles(profiles: map<string, Profile>, log: seq<Event>, from: nat, written: seq<string>)
    requires from <= |log|
  {
    && (forall i {:trigger log[i]} | from <= i < |log| :: IsProfileWrite(profiles, log[i], written))
    && (forall name <- written :: name in profiles && Wrote(log, from, name, profiles[name].headroom))
  }

  predicate IsProfileWrite(profiles: map<string, Profile>, e: Event, written: seq<string>) {
    e.WroteProfile? && e.name in profiles && e.headroom == profiles[e.name].headroom && e.name in written
  }

  lemma NextProfile(profiles0: map<string, Profile>, log0: seq<Event>, profiles: map<string, Profile>, log: seq<Event>,
                    from: nat,
                    written: seq<string>, name: string, wrote: bool)
    requires from <= |log0| && OnlyProfiles(profiles0, log0, from, written) && name !in written
    requires name in profiles && profiles == profiles0[name := profiles[name]]
    requires log == if wrote then log0 + [WroteProfile(name, profiles[name].headroom)] else log0
    ensures OnlyProfiles(profiles, log, from, if wrote then written + [name] else written)
  {
    var now := if wrote then written + [name] else written;
    forall n <- now ensures n in profiles && Wrote(log, from, n, profiles[n].headroom) {
      if n in written {
        assert Wrote(log0, from, n, profiles0[n].headroom);
        assert log0[from..] <= log[from..];
      } else {
        assert log[|log| - 1] in log[from..];
      }
    }
  }

  // ---------- stale profiles ----------

  /** A plugin that gives less headroom once there is a shared pool. */
  function SampleHeadroom(params: Params, enabled: bool): Headroom {
    Headroom("19456", if enabled then "18432" else "36864", "", if enabled then "19456" else "56320")
  }

  /** A profile allocated before the pool has a mode does not hold the plugin's values. */
  method StaleAllocation() returns (m: BufferManager, status: Status)
    ensures fresh(m) && !m.Fresh() && status == Success
  {
    m := new BufferManager(SampleHeadroom, (port, name, h) => true);
    status := m.AllocateProfile("pg_lossless_100000_5m_profile", Params("100000", "5m", DEFAULT_MTU, "", 4));
    status := m.AllocateProfile("pg_lossless_100000_5m_profile", Params("100000", "5m", DEFAULT_MTU, "", 4));
  }

  /** A profile outlives the size it was calculated for. */
  method StaleAfterRemoval() returns (m: BufferManager)
    ensures fresh(m) && !m.Fresh()
  {
    m := new BufferManager(SampleHeadroom, (port, name, h) => true);
    ghost var before := m.profiles;
    var status := m.HandleLosslessPool("1024000", false, Some("dynamic"));
    m.NothingRejected(before, m.profiles, m.Enabled());
    assert m.Enabled() && m.profiles == map[];
    var name, params := "pg_lossless_100000_5m_profile", Params("100000", "5m", DEFAULT_MTU, "", 4);
    status := m.AllocateProfile(name, params);
    m.RemoveLosslessPool();
    assert m.profiles[name].headroom == SampleHeadroom(params, true) != SampleHeadroom(params, m.Enabled());
    assert !m.IsFresh(name, m.Enabled());
  }
}
