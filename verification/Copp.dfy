/**
  The COPP_TABLE rows coppmgrd keeps up to date while features are switched on
  and off and trap groups are configured, for a fixed table of traps.
 */
module Copp {
  import opened Texts
  import opened Wrappers

  type Fields = map<string, string>

  /** `trapIds` is the comma-separated list as configured. */
  datatype TrapConf = TrapConf(trapIds: string, group: string, alwaysEnabled: string)

  const TRAP_IDS := "trap_ids"

  predicate Contains(text: string, part: string) {
    exists i | 0 <= i <= |text| :: part <= text[i..]
  }

  type TrapTable = map<string, TrapConf>

  /** The state of each known feature; None when the row has no such field. */
  type FeatureTable = map<string, Option<string>>

  // ---------- what the rows must be ----------

  ghost predicate FeatureOn(features: FeatureTable, feature: string) {
    feature in features && features[feature] in {Some("enabled"), Some("always_enabled")}
  }

  ghost predicate TrapOn(traps: TrapTable, features: FeatureTable, trap: string) {
    trap in traps && (traps[trap].alwaysEnabled == "true" || FeatureOn(features, trap))
  }

  /** Some trap that lists the id is enabled. */
  ghost predicate IdOn(traps: TrapTable, features: FeatureTable, id: string) {
    exists t <- traps.Keys :: Contains(traps[t].trapIds, id) && TrapOn(traps, features, t)
  }

  ghost predicate RowAgrees(row: Fields, config: Option<Fields>, pending: bool, idField: Fields) {
    if config.Some? then row == if pending then map[] else config.value + idField
    else row == map[] || (!pending && row == idField)
  }

  /** Whether a field of a group SET has to be sent. */
  predicate IsModified(config: Option<Fields>, field: string, value: string) {
    field == TRAP_IDS || config.None? || field !in config.value || config.value[field] != value
  }

  function Modified(config: Option<Fields>, fvs: Fields): Fields {
    map f | f in fvs && IsModified(config, f, fvs[f]) :: fvs[f]
  }

  /** The configuration after a group SET; trap_ids is never part of it. */
  function Accumulated(config: Option<Fields>, fvs: Fields): Option<Fields> {
    if fvs - {TRAP_IDS} == map[] then config
    else Some((if config.Some? then config.value else map[]) + (fvs - {TRAP_IDS}))
  }

  /** A trap_ids field of the SET itself stays in the row only when nothing overrides it. */
  predicate Clean(fvs: Fields, config: Option<Fields>, pending: bool, idField: Fields) {
    pending || TRAP_IDS !in fvs || idField != map[]
    || (config.Some? && TRAP_IDS in config.value && config.value[TRAP_IDS] == fvs[TRAP_IDS])
  }

  class CoppMgr {
    /** The configured trap ids in the order of m_coppTrapIdTrapGroupMap, and their groups. */
    const ids: seq<string>
    const groupOf: map<string, string>

    var traps: TrapTable
    var features: FeatureTable
    var groupFvs: map<string, Fields>

    /** Groups whose first SET repeats what the constructor read. */
    var initSet: set<string>

    /** The rows of the APPL_DB table; a row without fields does not exist. */
    var rows: map<string, Fields>

    /** A trap lists only ids of its own group, as when no id is part of another trap's list. */
    ghost predicate TrapsApart(ts: TrapTable) {
      && (forall id <- ids :: id in groupOf && id != "" && groupOf[id] != "")
      && (forall t <- ts.Keys, id <- ids :: Contains(ts[t].trapIds, id) ==> groupOf[id] == ts[t].group)
    }

    ghost predicate InGroup(id: string, group: string) {
      id in groupOf && groupOf[id] == group
    }

    /** A group with traps waits until one of them is enabled. */
    ghost predicate Pending(ts: TrapTable, fs: FeatureTable, group: string) {
      (exists id <- ids :: InGroup(id, group)) && forall id <- ids :: InGroup(id, group) ==> !IdOn(ts, fs, id)
    }

    ghost function EnabledIds(ts: TrapTable, fs: FeatureTable, group: string, n: nat): seq<string>
      requires n <= |ids|
    {
      if n == 0 then []
      else if InGroup(ids[n - 1], group) && IdOn(ts, fs, ids[n - 1]) then
        EnabledIds(ts, fs, group, n - 1) + [ids[n - 1]]
      else EnabledIds(ts, fs, group, n - 1)
    }

    /** The trap_ids field of a group, left out when no id is enabled. */
    ghost function IdField(ts: TrapTable, fs: FeatureTable, group: string): Fields {
      var enabled := EnabledIds(ts, fs, group, |ids|);
      if enabled == [] then map[] else map[TRAP_IDS := Join(enabled, ',')]
    }

    ghost function Row(group: string): Fields
      reads this`rows
    {
      if group in rows then rows[group] else map[]
    }

    /**
      The row of a configured group holds its accumulated configuration and its
      enabled trap ids, and exists only while the group is not pending.  A group
      not configured yet has at most its trap ids.
     */
    ghost predicate GroupAgrees(ts: TrapTable, fs: FeatureTable, group: string)
      reads this`rows, this`groupFvs
    {
      RowAgrees(Row(group), Config(group), Pending(ts, fs, group), IdField(ts, fs, group))
    }

    ghost function Config(group: string): Option<Fields>
      reads this`groupFvs
    {
      if group in groupFvs then Some(groupFvs[group]) else None
    }

    /** The row of one group is what recomputing it from scratch would give. */
    ghost predicate AgreesOn(group: string)
      reads this`traps, this`features, this`rows, this`groupFvs
    {
      GroupAgrees(traps, features, group)
    }

    ghost predicate Agrees()
      reads this
    {
      TrapsApart(traps) && forall g: string {:trigger AgreesOn(g)} :: AgreesOn(g)
    }

    lemma {:induction false} NoneEnabled(ts: TrapTable, fs: FeatureTable, group: string, n: nat)
      requires n <= |ids|
      ensures EnabledIds(ts, fs, group, n) == [] <==>
        forall j | 0 <= j < n :: InGroup(ids[j], group) ==> !IdOn(ts, fs, ids[j])
    {
      if n > 0 { NoneEnabled(ts, fs, group, n - 1); }
    }

    /** Among the groups with traps, exactly the pending ones publish no trap ids. */
    lemma PendingIffNoneEnabled(ts: TrapTable, fs: FeatureTable, group: string)
      ensures Pending(ts, fs, group) <==> IdField(ts, fs, group) == map[] && exists id <- ids :: InGroup(id, group)
      ensures (forall id <- ids :: !InGroup(id, group)) ==> IdField(ts, fs, group) == map[]
    {
      NoneEnabled(ts, fs, group, |ids|);
      assert forall id <- ids :: exists j | 0 <= j < |ids| :: ids[j] == id;
      assert TRAP_IDS in map[TRAP_IDS := Join(EnabledIds(ts, fs, group, |ids|), ',')];
    }

    lemma {:induction false} SameEnabled(ts: TrapTable, fs: FeatureTable, ts': TrapTable, fs': FeatureTable,
                                         group: string, n: nat)
      requires n <= |ids|
      requires forall id <- ids | InGroup(id, group) :: IdOn(ts, fs, id) <==> IdOn(ts', fs', id)
      ensures EnabledIds(ts, fs, group, n) == EnabledIds(ts', fs', group, n)
    {
      if n > 0 { SameEnabled(ts, fs, ts', fs', group, n - 1); }
    }

    /** A feature switches only ids of the group of its trap. */
    lemma OtherGroupsStay(ts: TrapTable, fs: FeatureTable, fs': FeatureTable, feature: string, group: string)
      requires TrapsApart(ts) && fs' - {feature} == fs - {feature}
      requires feature in ts ==> ts[feature].group != group
      ensures Pending(ts, fs, group) <==> Pending(ts, fs', group)
      ensures IdField(ts, fs, group) == IdField(ts, fs', group)
    {
      forall t | t != feature ensures TrapOn(ts, fs, t) <==> TrapOn(ts, fs', t) {
        assert t in fs <==> t in fs - {feature};
        assert t in fs' <==> t in fs' - {feature};
        if t in fs { assert (fs - {feature})[t] == (fs' - {feature})[t]; }
      }
      forall id <- ids | InGroup(id, group) ensures IdOn(ts, fs, id) <==> IdOn(ts, fs', id) {
      }
      SameEnabled(ts, fs, ts, fs', group, |ids|);
    }

    /** The published list holds exactly the enabled ids of the group. */
    lemma {:induction false} ExactlyTheEnabledIds(ts: TrapTable, fs: FeatureTable, group: string, n: nat, id: string)
      requires n <= |ids|
      ensures id in EnabledIds(ts, fs, group, n) <==> id in ids[..n] && InGroup(id, group) && IdOn(ts, fs, id)
    {
      if n > 0 {
        ExactlyTheEnabledIds(ts, fs, group, n - 1, id);
        assert ids[..n] == ids[..n - 1] + [ids[n - 1]];
      }
    }

    /** Splitting the published list at commas gives the enabled ids of the group back. */
    lemma PublishedIds(ts: TrapTable, fs: FeatureTable, group: string)
      requires forall id <- ids :: ',' !in id
      ensures TRAP_IDS in IdField(ts, fs, group) ==>
        Split(IdField(ts, fs, group)[TRAP_IDS], ',') == EnabledIds(ts, fs, group, |ids|)
      ensures TRAP_IDS !in IdField(ts, fs, group) ==> EnabledIds(ts, fs, group, |ids|) == []
    {
      var enabled := EnabledIds(ts, fs, group, |ids|);
      forall id <- enabled ensures ',' !in id {
        ExactlyTheEnabledIds(ts, fs, group, |ids|, id);
      }
      if enabled != [] { SplitJoin(enabled, ','); }
    }

    lemma SameFeaturesStay(ts: TrapTable, fs: FeatureTable, fs': FeatureTable, group: string)
      requires forall t :: FeatureOn(fs, t) <==> FeatureOn(fs', t)
      ensures Pending(ts, fs, group) <==> Pending(ts, fs', group)
      ensures IdField(ts, fs, group) == IdField(ts, fs', group)
    {
      forall id <- ids ensures IdOn(ts, fs, id) <==> IdOn(ts, fs', id) {
      }
      SameEnabled(ts, fs, ts, fs', group, |ids|);
    }

    /** A trap without ids switches nothing. */
    lemma EmptyTrapStays(ts: TrapTable, fs: FeatureTable, feature: string, group: string)
      requires TrapsApart(ts) && feature !in ts
      ensures TrapsApart(ts[feature := TrapConf("", "", "")])
      ensures Pending(ts, fs, group) <==> Pending(ts[feature := TrapConf("", "", "")], fs, group)
      ensures IdField(ts, fs, group) == IdField(ts[feature := TrapConf("", "", "")], fs, group)
    {
      var ts' := ts[feature := TrapConf("", "", "")];
      forall id <- ids ensures !Contains(ts'[feature].trapIds, id) {
      }
      forall id <- ids ensures IdOn(ts, fs, id) <==> IdOn(ts', fs, id) {
        if IdOn(ts, fs, id) {
          var t :| t in ts && Contains(ts[t].trapIds, id) && TrapOn(ts, fs, t);
          assert t in ts' && ts'[t] == ts[t];
        }
        if IdOn(ts', fs, id) {
          var t :| t in ts' && Contains(ts'[t].trapIds, id) && TrapOn(ts', fs, t);
          assert t in ts && ts'[t] == ts[t];
        }
      }
      SameEnabled(ts, fs, ts', fs, group, |ids|);
    }

    /** Start-up with an empty APPL_DB table; `userGroups` are the groups found in CONFIG_DB. */
    constructor (ids: seq<string>, groupOf: map<string, string>, traps: TrapTable, features: FeatureTable,
                 groups: map<string, Fields>, userGroups: set<string>)
      requires forall id <- ids :: id in groupOf && id != "" && groupOf[id] != ""
      requires forall t <- traps.Keys, id <- ids :: Contains(traps[t].trapIds, id) ==> groupOf[id] == traps[t].group
      ensures this.ids == ids && this.groupOf == groupOf && this.traps == traps && this.features == features
      ensures Agrees() && initSet == Shown(traps, features, groups.Keys * userGroups)
      ensures forall g: string :: Config(g) == if g in groups && groups[g] != map[] then Some(groups[g]) else None
    {
      this.ids, this.groupOf, this.traps, this.features := ids, groupOf, traps, features;
      groupFvs, initSet, rows := map[], {}, map[];
      new;
      forall g: string ensures AgreesOn(g) {
      }
      LoadAll(groups, userGroups);
    }

    /** The groups that the start-up shows as applied. */
    ghost function Shown(ts: TrapTable, fs: FeatureTable, groups: set<string>): set<string> {
      set g <- groups | !Pending(ts, fs, g)
    }

    lemma ShownMore(ts: TrapTable, fs: FeatureTable, done: set<string>, userGroups: set<string>, group: string)
      ensures Shown(ts, fs, (done + {group}) * userGroups)
        == Shown(ts, fs, done * userGroups) + if group in userGroups && !Pending(ts, fs, group) then {group} else {}
    {
    }

    method LoadAll(groups: map<string, Fields>, userGroups: set<string>)
      requires Agrees() && forall g: string :: Config(g).None? && Row(g) == map[]
      modifies this`groupFvs, this`initSet, this`rows
      ensures Agrees()
      ensures initSet == old(initSet) + Shown(traps, features, groups.Keys * userGroups)
      ensures forall g: string :: Config(g) == if g in groups && groups[g] != map[] then Some(groups[g]) else None
    {
      var todo := groups.Keys;
      ghost var done := {};
      while todo != {}
        invariant todo !! done && todo + done == groups.Keys && Agrees()
        invariant initSet == old(initSet) + Shown(traps, features, done * userGroups)
        invariant forall g <- todo :: Row(g) == map[]
        invariant forall g: string {:trigger Config(g)} ::
          Config(g) == if g in done && groups[g] != map[] then Some(groups[g]) else None
        decreases todo
      {
        var group :| group in todo;
        ShownMore(traps, features, done, userGroups, group);
        todo, done := todo - {group}, done + {group};
        LoadGroup(group, groups[group], userGroups);
      }
    }

    method LoadGroup(group: string, fvs: Fields, userGroups: set<string>)
      requires Agrees() && Config(group).None? && Row(group) == map[]
      modifies this`groupFvs, this`initSet, this`rows
      ensures Agrees()
      ensures initSet == old(initSet) + if group in userGroups && !Pending(traps, features, group) then {group} else {}
      ensures Config(group) == if fvs == map[] then None else Some(fvs)
      ensures forall g: string :: g != group ==> Config(g) == old(Config(g)) && Row(g) == old(Row(g))
    {
      var published := Load(group, fvs);
      forall g: string ensures AgreesOn(g) {
        assert old(AgreesOn(g));
      }
      if published && group in userGroups {
        initSet := initSet + {group};
      }
    }

    // ---------- queries ----------

    predicate IsFeatureEnabled(feature: string)
      reads this
      ensures IsFeatureEnabled(feature) <==> FeatureOn(features, feature)
    {
      feature in features && features[feature].Some?
      && (features[feature].value == "enabled" || features[feature].value == "always_enabled")
    }

    method IsTrapIdDisabled(id: string) returns (disabled: bool)
      ensures disabled <==> !IdOn(traps, features, id)
    {
      var todo := traps.Keys;
      while todo != {}
        invariant todo <= traps.Keys
        invariant forall t <- traps.Keys - todo :: !(Contains(traps[t].trapIds, id) && TrapOn(traps, features, t))
        decreases todo
      {
        var t :| t in todo;
        if Contains(traps[t].trapIds, id) {
          if traps[t].alwaysEnabled == "true" || IsFeatureEnabled(t) {
            return false;
          }
        }
        todo := todo - {t};
      }
      return true;
    }

    method CheckTrapGroupPending(group: string) returns (pending: bool)
      requires TrapsApart(traps)
      ensures pending <==> Pending(traps, features, group)
    {
      var trapsPresent := false;
      for i := 0 to |ids|
        invariant trapsPresent <==> exists j | 0 <= j < i :: InGroup(ids[j], group)
        invariant forall j | 0 <= j < i :: InGroup(ids[j], group) ==> !IdOn(traps, features, ids[j])
      {
        if groupOf[ids[i]] == group {
          trapsPresent := true;
          var disabled := IsTrapIdDisabled(ids[i]);
          if !disabled {
            return false;
          }
        }
      }
      return trapsPresent;
    }

    method GetTrapGroupTrapIds(group: string) returns (trapIds: string)
      requires TrapsApart(traps)
      ensures trapIds == Join(EnabledIds(traps, features, group, |ids|), ',')
      ensures trapIds == "" <==> EnabledIds(traps, features, group, |ids|) == []
    {
      trapIds := "";
      for i := 0 to |ids|
        invariant trapIds == Join(EnabledIds(traps, features, group, i), ',')
        invariant trapIds == "" <==> EnabledIds(traps, features, group, i) == []
      {
        if groupOf[ids[i]] == group {
          var disabled := IsTrapIdDisabled(ids[i]);
          if disabled {
            continue;
          }
          assert EnabledIds(traps, features, group, i + 1) == EnabledIds(traps, features, group, i) + [ids[i]];
          if trapIds == "" {
            trapIds := ids[i];
          } else {
            assert EnabledIds(traps, features, group, i)
              == EnabledIds(traps, features, group, i + 1)[..|EnabledIds(traps, features, group, i)|];
            trapIds := trapIds + "," + ids[i];
          }
        }
      }
    }

    /** The trap_ids field joins the fields to send unless it is empty. */
    method AppendTrapIds(group: string, fvs: Fields) returns (all: Fields)
      requires TrapsApart(traps)
      ensures all == fvs + IdField(traps, features, group)
    {
      var trapIds := GetTrapGroupTrapIds(group);
      Overridden(fvs, map[], map[TRAP_IDS := trapIds]);
      all := if trapIds != "" then fvs[TRAP_IDS := trapIds] else fvs;
    }

    // ---------- publishing ----------

    /** ProducerStateTable set: fields are merged into the row. */
    method SetRow(group: string, fvs: Fields)
      modifies this`rows
      ensures Row(group) == old(Row(group)) + fvs
      ensures forall g: string :: g != group ==> Row(g) == old(Row(g))
      ensures forall g: string {:trigger AgreesOn(g)} :: g != group && old(AgreesOn(g)) ==> AgreesOn(g)
    {
      rows := rows[group := (if group in rows then rows[group] else map[]) + fvs];
    }

    method Send(group: string, fvs: Fields)
      modifies this`rows
      ensures Row(group) == old(Row(group)) + fvs
      ensures forall g: string :: g != group ==> Row(g) == old(Row(g))
      ensures forall g: string {:trigger AgreesOn(g)} :: g != group && old(AgreesOn(g)) ==> AgreesOn(g)
    {
      Overridden(Row(group), map[], map[]);
      if fvs != map[] {
        SetRow(group, fvs);
      }
    }

    method DelRow(group: string)
      modifies this`rows
      ensures Row(group) == map[]
      ensures forall g: string {:trigger AgreesOn(g)} :: g != group && old(AgreesOn(g)) ==> AgreesOn(g)
    {
      rows := rows - {group};
    }

    /** The constructor's treatment of one configured group. */
    method Load(group: string, fvs: Fields) returns (published: bool)
      requires TrapsApart(traps) && Config(group).None? && Row(group) == map[]
      modifies this`groupFvs, this`rows
      ensures AgreesOn(group) && published == !Pending(traps, features, group)
      ensures forall g: string {:trigger AgreesOn(g)} :: g != group && old(AgreesOn(g)) ==> AgreesOn(g)
      ensures Config(group) == if fvs == map[] then None else Some(fvs)
      ensures forall g: string :: g != group ==> Config(g) == old(Config(g)) && Row(g) == old(Row(g))
    {
      Overridden(fvs, map[], IdField(traps, features, group));
      Overridden(map[], map[], fvs);
      Accumulate(group, fvs);
      var pending := CheckTrapGroupPending(group);
      if !pending {
        var all := AppendTrapIds(group, fvs);
        Overridden(all, map[], all);
        Send(group, all);
      }
      published := !pending;
    }

    // ---------- features ----------

    /** The row of the feature has a state field. */
    predicate HasState(fs: FeatureTable, feature: string) {
      feature in fs && fs[feature].Some?
    }

    predicate AlwaysEnabled(ts: TrapTable, feature: string) {
      feature in ts && ts[feature].alwaysEnabled == "true"
    }

    /** Only this feature's state, and only if it has one, and perhaps an empty trap of its name have changed. */
    predicate OnlyState(fs: FeatureTable, fs': FeatureTable, ts: TrapTable, ts': TrapTable, feature: string,
                        enable: bool) {
      && (fs' == fs || (HasState(fs, feature) && fs' == fs[feature := Some(if enable then "enabled" else "disabled")]))
      && (ts' == ts || (feature !in ts && ts' == ts[feature := TrapConf("", "", "")]))
    }

    /**
      A feature is on after it has been switched on, and off after it has been
      switched off.  One without a state field stays off, and one whose trap is
      always enabled is not switched on.
     */
    method SetFeatureTrapIdsStatus(feature: string, enable: bool)
      requires TrapsApart(traps)
      modifies this`traps, this`features, this`groupFvs, this`rows
      ensures TrapsApart(traps) && forall g: string {:trigger AgreesOn(g)} :: old(AgreesOn(g)) ==> AgreesOn(g)
      ensures FeatureOn(features, feature) <==>
        enable && old(HasState(features, feature) && (FeatureOn(features, feature) || !AlwaysEnabled(traps, feature)))
      ensures OnlyState(old(features), features, old(traps), traps, feature, enable)
    {
      var disabledTrap := true;
      if (feature in traps && traps[feature].alwaysEnabled == "true") || IsFeatureEnabled(feature) {
        disabledTrap := false;
      }
      if (enable && !disabledTrap) || (!enable && disabledTrap) {
        return;
      }
      SwitchFeature(feature, enable);
    }

    method SwitchFeature(feature: string, enable: bool)
      requires TrapsApart(traps)
      modifies this`traps, this`features, this`groupFvs, this`rows
      ensures TrapsApart(traps) && forall g: string {:trigger AgreesOn(g)} :: old(AgreesOn(g)) ==> AgreesOn(g)
      ensures features == if old(HasState(features, feature))
        then old(features)[feature := Some(if enable then "enabled" else "disabled")] else old(features)
      ensures traps == if feature in old(traps) then old(traps) else old(traps)[feature := TrapConf("", "", "")]
    {
      KnowTrap(feature);
      var group := traps[feature].group;
      ghost var before := features;
      label known:
      var pendingBefore := CheckTrapGroupPending(group);
      SetState(feature, if enable then "enabled" else "disabled");
      Republish(group, pendingBefore, before);
      forall g: string | old(AgreesOn(g)) ensures AgreesOn(g) {
        assert old@known(AgreesOn(g));
      }
    }

    /** Looking a trap up creates it. */
    method KnowTrap(feature: string)
      requires TrapsApart(traps)
      modifies this`traps
      ensures TrapsApart(traps) && forall g: string {:trigger AgreesOn(g)} :: old(AgreesOn(g)) ==> AgreesOn(g)
      ensures feature in traps
      ensures traps == if feature in old(traps) then old(traps) else old(traps)[feature := TrapConf("", "", "")]
    {
      if feature !in traps {
        var after := traps[feature := TrapConf("", "", "")];
        EmptyTrapStays(traps, features, feature, "");
        forall g: string | AgreesOn(g) ensures GroupAgrees(after, features, g) {
          EmptyTrapStays(traps, features, feature, g);
        }
        traps := after;
      }
    }

    method SetState(feature: string, state: string)
      requires TrapsApart(traps) && feature in traps
      modifies this`features
      ensures TrapsApart(traps)
      ensures forall g: string {:trigger AgreesOn(g)} :: g != traps[feature].group && old(AgreesOn(g)) ==> AgreesOn(g)
      ensures old(AgreesOn(traps[feature].group)) ==> GroupAgrees(traps, old(features), traps[feature].group)
      ensures features
        == if old(HasState(features, feature)) then old(features)[feature := Some(state)] else old(features)
    {
      if feature in features && features[feature].Some? {
        var after := features[feature := Some(state)];
        assert after - {feature} == features - {feature};
        forall g: string | g != traps[feature].group && AgreesOn(g) ensures GroupAgrees(traps, after, g) {
          OtherGroupsStay(traps, features, after, feature, g);
        }
        features := after;
      }
    }

    /** The end of setFeatureTrapIdsStatus: only what the switch changed is sent. */
    method Republish(group: string, pendingBefore: bool, ghost fs0: FeatureTable)
      requires TrapsApart(traps) && pendingBefore == Pending(traps, fs0, group)
      modifies this`groupFvs, this`rows
      ensures old(GroupAgrees(traps, fs0, group)) ==> AgreesOn(group)
      ensures forall g: string {:trigger AgreesOn(g)} :: g != group && old(AgreesOn(g)) ==> AgreesOn(g)
      ensures var pending := Pending(traps, features, group);
              Row(group) == if pending && !pendingBefore then map[]
                            else old(Row(group)
                                     + ((if !pending && pendingBefore && Config(group).Some? then Config(group).value
                                         else map[]) + IdField(traps, features, group)))
    {
      var pending := CheckTrapGroupPending(group);
      if pending && !pendingBefore {
        DelRow(group);
        return;
      }
      PendingIffNoneEnabled(traps, fs0, group);
      PendingIffNoneEnabled(traps, features, group);
      if GroupAgrees(traps, fs0, group) {
        Republished(Row(group), Config(group), pendingBefore, IdField(traps, fs0, group), pending,
                    IdField(traps, features, group));
      }
      Resend(group, pendingBefore && !pending);
    }

    method Resend(group: string, whole: bool)
      requires TrapsApart(traps)
      modifies this`groupFvs, this`rows
      ensures Row(group) == old(Row(group) + ((if whole && Config(group).Some? then Config(group).value else map[])
                                              + IdField(traps, features, group)))
      ensures Config(group) == if whole && old(Config(group)).None? then Some(map[]) else old(Config(group))
      ensures forall g: string {:trigger AgreesOn(g)} :: g != group && old(AgreesOn(g)) ==> AgreesOn(g)
    {
      var fvs: Fields := map[];
      if whole {
        fvs := WholeConfig(group);
      }
      fvs := AppendTrapIds(group, fvs);
      Send(group, fvs);
    }

    /** Looking the configuration of a group up creates it. */
    method WholeConfig(group: string) returns (fvs: Fields)
      modifies this`groupFvs
      ensures fvs == if old(Config(group)).Some? then old(Config(group)).value else map[]
      ensures Config(group) == Some(fvs)
      ensures forall g: string {:trigger AgreesOn(g)} :: g != group && old(AgreesOn(g)) ==> AgreesOn(g)
    {
      if group !in groupFvs {
        groupFvs := groupFvs[group := map[]];
      }
      fvs := groupFvs[group];
    }

    /** "enabled" and "always_enabled" switch a feature on, all else off. */
    predicate SwitchesOn(state: string) {
      state in {"enabled", "always_enabled"}
    }

    /** FEATURE SET; the state field may be missing. */
    method SetFeature(feature: string, state: Option<string>)
      requires TrapsApart(traps)
      modifies this`traps, this`features, this`groupFvs, this`rows
      ensures TrapsApart(traps) && forall g: string {:trigger AgreesOn(g)} :: old(AgreesOn(g)) ==> AgreesOn(g)
      ensures feature in features && features - {feature} == old(features) - {feature}
      ensures state.None? ==>
        (FeatureOn(features, feature) <==> old(FeatureOn(features, feature))) && traps == old(traps)
      ensures state.Some? ==>
        (FeatureOn(features, feature) <==>
           && SwitchesOn(state.value) && old(feature !in features || HasState(features, feature))
           && old(FeatureOn(features, feature) || !AlwaysEnabled(traps, feature)))
      ensures traps in {old(traps), old(if feature in traps then traps else traps[feature := TrapConf("", "", "")])}
    {
      KnowFeature(feature);
      label known:
      if state.Some? {
        SetFeatureTrapIdsStatus(feature, state.value == "enabled" || state.value == "always_enabled");
      }
      forall g: string | old(AgreesOn(g)) ensures AgreesOn(g) {
        assert old@known(AgreesOn(g));
      }
    }

    method KnowFeature(feature: string)
      requires TrapsApart(traps)
      modifies this`features
      ensures TrapsApart(traps) && forall g: string {:trigger AgreesOn(g)} :: old(AgreesOn(g)) ==> AgreesOn(g)
      ensures feature in features
      ensures features == if feature in old(features) then old(features) else old(features)[feature := Some("")]
    {
      if feature !in features {
        var after := features[feature := Some("")];
        forall g: string | AgreesOn(g) ensures GroupAgrees(traps, after, g) {
          SameFeaturesStay(traps, features, after, g);
        }
        features := after;
      }
    }

    method DelFeature(feature: string)
      requires TrapsApart(traps)
      modifies this`traps, this`features, this`groupFvs, this`rows
      ensures TrapsApart(traps) && forall g: string {:trigger AgreesOn(g)} :: old(AgreesOn(g)) ==> AgreesOn(g)
      ensures !FeatureOn(features, feature) && OnlyState(old(features), features, old(traps), traps, feature, false)
    {
      SetFeatureTrapIdsStatus(feature, false);
    }

    // ---------- groups ----------

    /** COPP_GROUP SET: only fields that differ from the accumulated configuration are sent. */
    method SetGroup(group: string, fvs: Fields)
      requires TrapsApart(traps)
      modifies this`groupFvs, this`initSet, this`rows
      ensures old(AgreesOn(group)) ==>
        (AgreesOn(group) <==> group in old(initSet) || Clean(fvs, old(Config(group)), Pending(traps, features, group),
                                                             IdField(traps, features, group)))
      ensures TrapsApart(traps) && forall g: string {:trigger AgreesOn(g)} ::
        g != group && old(AgreesOn(g)) ==> AgreesOn(g)
      ensures initSet == old(initSet) - {group}
      ensures Row(group) == old(if group in initSet || Pending(traps, features, group) then Row(group)
                                else Row(group) + Modified(Config(group), fvs + IdField(traps, features, group)))
      ensures Config(group)
        == if group in old(initSet) then old(Config(group)) else Accumulated(old(Config(group)), fvs)
      ensures forall g: string :: g != group ==> Config(g) == old(Config(g))
    {
      if group in initSet {
        initSet := initSet - {group};
        return;
      }
      PendingIffNoneEnabled(traps, features, group);
      if AgreesOn(group) {
        GroupSent(Row(group), Config(group), Pending(traps, features, group), IdField(traps, features, group), fvs);
      }
      SendModified(group, fvs);
    }

    method SendModified(group: string, fvs: Fields)
      requires TrapsApart(traps)
      modifies this`groupFvs, this`rows
      ensures Row(group) == old(if Pending(traps, features, group) then Row(group)
                                else Row(group) + Modified(Config(group), fvs + IdField(traps, features, group)))
      ensures Config(group) == Accumulated(old(Config(group)), fvs)
      ensures forall g: string :: g != group ==> Config(g) == old(Config(g))
      ensures forall g: string {:trigger AgreesOn(g)} :: g != group && old(AgreesOn(g)) ==> AgreesOn(g)
    {
      var all := AppendTrapIds(group, fvs);
      assert all - {TRAP_IDS} == fvs - {TRAP_IDS};
      var modified := CoppGroupGetModifiedFvs(group, all);
      var pending := CheckTrapGroupPending(group);
      if !pending {
        Send(group, modified);
      }
      Accumulate(group, all - {TRAP_IDS});
    }

    method Accumulate(group: string, fvs: Fields)
      modifies this`groupFvs
      ensures Config(group) == if fvs == map[] then old(Config(group))
                               else Some((if old(Config(group)).Some? then old(Config(group)).value else map[]) + fvs)
      ensures forall g: string :: g != group ==> Config(g) == old(Config(g))
      ensures forall g: string {:trigger AgreesOn(g)} :: g != group && old(AgreesOn(g)) ==> AgreesOn(g)
    {
      if fvs != map[] {
        groupFvs := groupFvs[group := (if group in groupFvs then groupFvs[group] else map[]) + fvs];
      }
    }

    method CoppGroupGetModifiedFvs(group: string, fvs: Fields) returns (modified: Fields)
      ensures modified == Modified(Config(group), fvs)
    {
      modified := fvs;
      if group !in groupFvs {
        return;
      }
      var todo := fvs.Keys;
      while todo != {}
        invariant todo <= fvs.Keys
        invariant modified == map f | f in fvs && (f in todo || IsModified(Config(group), f, fvs[f])) :: fvs[f]
        decreases todo
      {
        var f :| f in todo;
        todo := todo - {f};
        if f != TRAP_IDS && f in groupFvs[group] && groupFvs[group][f] == fvs[f] {
          modified := modified - {f};
        }
      }
    }
  }

  /** Sending the trap ids, and on leaving the pending state the whole configuration, restores a row. */
  lemma Republished(row: Fields, config: Option<Fields>, pending0: bool, ids0: Fields, pending: bool, idField: Fields)
    requires RowAgrees(row, config, pending0, ids0) && ids0.Keys <= idField.Keys + (if pending then ids0.Keys else {})
    requires (pending0 ==> ids0 == map[]) && (pending ==> idField == map[] && pending0)
    ensures var whole := if config.Some? then config.value else map[];
            var fvs := (if pending0 && !pending then whole else map[]) + idField;
            RowAgrees(row + fvs, if pending0 && !pending then Some(whole) else config, pending, idField)
  {
    Overridden(if config.Some? then config.value else map[], ids0, idField);
    Overridden(row, map[], map[]);
    Overridden(map[], map[], idField);
  }

  /** Sending what a group SET modified brings the row up to date, exactly when the SET is clean. */
  lemma GroupSent(row: Fields, config: Option<Fields>, pending: bool, idField: Fields, fvs: Fields)
    requires RowAgrees(row, config, pending, idField) && idField.Keys <= {TRAP_IDS} && (pending ==> idField == map[])
    ensures RowAgrees(if pending then row else row + Modified(config, fvs + idField),
                      Accumulated(config, fvs), pending, idField)
            <==> Clean(fvs, config, pending, idField)
  {
    if !pending {
      if config.Some? {
        SentToConfigured(config.value, idField, fvs);
        assert config.value + map[] == config.value;
      } else {
        SentToNew(row, idField, fvs);
      }
    }
  }

  lemma SentToConfigured(config: Fields, idField: Fields, fvs: Fields)
    requires idField.Keys <= {TRAP_IDS}
    ensures config + idField + Modified(Some(config), fvs + idField) == config + (fvs - {TRAP_IDS}) + idField
            <==> Clean(fvs, Some(config), false, idField)
  {
    var sent := config + idField + Modified(Some(config), fvs + idField);
    var due := config + (fvs - {TRAP_IDS}) + idField;
    SentOtherFields(config, idField, fvs);
    SameButOne(sent, due, TRAP_IDS);
  }

  lemma SameButOne(a: Fields, b: Fields, field: string)
    requires a - {field} == b - {field}
    ensures a == b <==> (field in a <==> field in b) && (field in a && field in b ==> a[field] == b[field])
  {
    forall f | f != field ensures (f in a <==> f in b) && (f in a && f in b ==> a[f] == b[f]) {
      assert f in a <==> f in a - {field};
      assert f in b <==> f in b - {field};
      if f in a && f in b { assert (a - {field})[f] == (b - {field})[f]; }
    }
  }

  lemma SentOtherFields(config: Fields, idField: Fields, fvs: Fields)
    requires idField.Keys <= {TRAP_IDS}
    ensures (config + idField + Modified(Some(config), fvs + idField)) - {TRAP_IDS}
            == (config + (fvs - {TRAP_IDS}) + idField) - {TRAP_IDS}
  {
  }

  lemma SentToNew(row: Fields, idField: Fields, fvs: Fields)
    requires idField.Keys <= {TRAP_IDS} && (row == map[] || row == idField)
    ensures row + Modified(None, fvs + idField) == fvs + idField
    ensures fvs + idField == (fvs - {TRAP_IDS}) + idField <==> Clean(fvs, None, false, idField)
    ensures fvs - {TRAP_IDS} == map[] ==>
      (fvs + idField == map[] || fvs + idField == idField <==> Clean(fvs, None, false, idField))
  {
    assert Modified(None, fvs + idField) == fvs + idField;
    if !Clean(fvs, None, false, idField) {
      assert TRAP_IDS in fvs + idField && TRAP_IDS !in (fvs - {TRAP_IDS}) + idField;
    } else {
      assert fvs + idField == (fvs - {TRAP_IDS}) + idField;
      assert map[] + idField == idField;
    }
  }

  lemma Overridden(fields: Fields, a: Fields, b: Fields)
    requires a.Keys <= b.Keys
    ensures fields + a + b == fields + b && a + b == b
    ensures map[] + b == b && fields + map[] == fields && fields + map[] + b == fields + b
  {
  }

  /** Two features that stay off when enabled: the one has no state at start-up, the other's trap is always on. */
  method StaysOff() returns (m: CoppMgr, n: CoppMgr)
    ensures fresh(m) && !FeatureOn(m.features, "sflow")
    ensures fresh(n) && !FeatureOn(n.features, "bgp")
  {
    m := new CoppMgr([], map[], map[], map["sflow" := None], map[], {});
    m.SetFeature("sflow", Some("enabled"));
    n := new CoppMgr([], map[], map["bgp" := TrapConf("", "", "true")], map["bgp" := Some("disabled")], map[], {});
    n.SetFeature("bgp", Some("enabled"));
  }

  /** A group SET that names trap ids of its own leaves them in the row of a group that has no traps. */
  method ForeignTrapIds() returns (m: CoppMgr)
    ensures fresh(m) && !m.AgreesOn("queue1_group3")
  {
    var group, config, fvs := "queue1_group3", map["queue" := "3"], map[TRAP_IDS := "bgp"];
    assert "queue" in config;
    m := new CoppMgr([], map[], map[], map[], map[group := config], {});
    assert m.AgreesOn(group) && m.Config(group) == Some(config);
    assert !Clean(fvs, Some(config), false, map[]);
    m.SetGroup(group, fvs);
  }
}
