/**
  Reference-counted buffer profiles: refreshing the priority groups of a port
  allocates the profiles they need, moves their references and releases the
  profiles nothing uses any more.
 */
module ProfileAllocator {
  import opened BufferTypes
  import opened ProfileNames
  import opened Wrappers

  datatype PgKey = PgKey(port: string, ids: string)

  datatype Profile = Profile(staticConfigured: bool, lossless: bool, params: Params, threshold: string, pool: string,
                             headroom: Headroom, pgs: set<PgKey>)

  datatype Pg = Pg(dynamic: bool, staticConfigured: bool, lossless: bool, configured: string, running: string)

  datatype PortInfo = PortInfo(state: PortState, params: Params)

  /** A row of BUFFER_PROFILE_TABLE; only lossless profiles publish thresholds for flow control. */
  datatype Row = Row(lossless: Option<Headroom>, size: string, pool: string, mode: string, threshold: string)

  const LOSSLESS_POOL := "ingress_lossless_pool"
  const NO_PROFILE := Profile(false, false, NO_PARAMS, "", "", NO_HEADROOM, {})

  const NO_PORT := PortInfo(AdminDown, NO_PARAMS)

  function RowOf(profile: Profile, mode: string): Row {
    Row(if profile.lossless then Some(profile.headroom) else None, profile.headroom.size, profile.pool, mode + "_th",
        profile.threshold)
  }

  /** The cached priority groups and profiles, and the APPL_DB rows for them. */
  datatype Book = Book(pgs: map<PgKey, Pg>, profiles: map<string, Profile>, pgRows: map<PgKey, string>,
                       profileRows: map<string, Row>) {

    /** The profile a group runs is cached and lists it. */
    ghost predicate Listed(k: PgKey)
      requires k in pgs
    {
      pgs[k].running != "" ==> pgs[k].running in profiles && k in profiles[pgs[k].running].pgs
    }

    ghost predicate Sound() {
      forall k {:trigger Listed(k)} :: k in pgs ==> Listed(k)
    }

    /** A dynamic profile lists only groups that run it. */
    ghost predicate Exact(p: string)
      requires p in profiles
    {
      p != "" && (!profiles[p].staticConfigured ==> forall k <- profiles[p].pgs :: k in pgs && pgs[k].running == p)
    }

    /** Profiles named by the configuration are static ones. */
    ghost predicate ConfiguredKnown() {
      forall k {:trigger pgs[k].configured} ::
        k in pgs && (!pgs[k].dynamic || pgs[k].staticConfigured) ==> IsStatic(pgs[k].configured)
    }

    /** Soundness, and in addition no reference and no configuration is stale. */
    ghost predicate Regular() {
      Sound() && ConfiguredKnown() && forall p {:trigger Exact(p)} :: p in profiles ==> Exact(p)
    }

    ghost predicate IsStatic(p: string) {
      p in profiles && profiles[p].staticConfigured
    }

    /** Every dynamic profile is in use and published. */
    ghost predicate NoLeftover() {
      forall p <- profiles.Keys | !profiles[p].staticConfigured :: profiles[p].pgs != {} && p in profileRows
    }

    /** Looking a profile up creates an empty one. */
    function Touch(name: string): Book {
      if name in profiles then this else this.(profiles := profiles[name := NO_PROFILE])
    }

    function Assign(key: PgKey, name: string): Book
      requires key in pgs && name in profiles
    {
      this.(pgs := pgs[key := pgs[key].(running := name)],
            profiles := if name == pgs[key].running then profiles
                        else map p | p in profiles :: profiles[p].(pgs :=
                          if p == name then profiles[p].pgs + {key}
                          else if p == pgs[key].running != "" then profiles[p].pgs - {key} else profiles[p].pgs),
            pgRows := pgRows[key := name])
    }

    function Unassign(key: PgKey): Book
      requires key in pgs
    {
      this.(pgs := pgs[key := pgs[key].(running := "")],
            profiles := map p | p in profiles :: profiles[p].(pgs :=
                          if p == pgs[key].running != "" then profiles[p].pgs - {key} else profiles[p].pgs),
            pgRows := pgRows - {key})
    }

    /** Running groups publish `zero` instead, or nothing when that is empty. */
    function Reclaim(key: PgKey, zero: string): Book
      requires key in pgs
    {
      Unassign(key).(pgRows := if zero != "" then pgRows[key := zero] else pgRows - {key})
    }

    function Allocate(name: string, profile: Profile, row: Row): Book {
      this.(profiles := profiles[name := profile], profileRows := profileRows[name := row])
    }

    predicate Idle(p: string)
      requires p in profiles
    {
      !profiles[p].staticConfigured && profiles[p].pgs == {}
    }

    /** The book without the given profiles, as far as nothing keeps them. */
    function Release(names: set<string>): Book {
      this.(profiles := map p | p in profiles && !(p in names && Idle(p)) :: profiles[p],
            profileRows := map p | p in profileRows && !(p in names && (p !in profiles || Idle(p))) :: profileRows[p])
    }
  }

  lemma AssignKeepsSound(b: Book, key: PgKey, name: string)
    requires b.Sound() && key in b.pgs && name in b.profiles
    ensures b.Assign(key, name).Sound() && (b.Regular() ==> b.Assign(key, name).Regular())
  {
    var after := b.Assign(key, name);
    forall k | k in after.pgs ensures after.Listed(k) {
      assert b.Listed(k);
    }
    if b.Regular() {
      forall p | p in after.profiles ensures after.Exact(p) {
        assert b.Exact(p) && b.Listed(key);
      }
    }
  }

  lemma UnassignKeepsSound(b: Book, key: PgKey)
    requires b.Sound() && key in b.pgs
    ensures b.Unassign(key).Sound() && (b.Regular() ==> b.Unassign(key).Regular())
  {
    var after := b.Unassign(key);
    forall k | k in after.pgs ensures after.Listed(k) {
      assert b.Listed(k);
    }
    if b.Regular() {
      forall p | p in after.profiles ensures after.Exact(p) {
        assert b.Exact(p) && b.Listed(key);
      }
    }
  }

  /** Taking the profile of a group away changes that profile's list alone. */
  lemma OneListLess(b: Book, key: PgKey)
    requires key in b.pgs && (b.pgs[key].running != "" ==> b.pgs[key].running in b.profiles)
    ensures var running := b.pgs[key].running;
            b.Unassign(key).profiles
            == if running == "" then b.profiles
               else b.profiles[running := b.profiles[running].(pgs := b.profiles[running].pgs - {key})]
    ensures b.pgs[key].running == "" ==> b.Unassign(key).pgs == b.pgs
  {
  }

  lemma AllocateKeepsSound(b: Book, name: string, profile: Profile, row: Row)
    requires b.Sound() && name !in b.profiles && name != "" && profile.pgs == {}
    ensures b.Allocate(name, profile, row).Sound() && (b.Regular() ==> b.Allocate(name, profile, row).Regular())
  {
    var after := b.Allocate(name, profile, row);
    forall k | k in after.pgs ensures after.Listed(k) {
      assert b.Listed(k);
    }
    if b.Regular() {
      forall p | p in after.profiles ensures after.Exact(p) {
        assert p != name ==> b.Exact(p);
      }
    }
  }

  /** An empty profile created by looking it up takes no reference away. */
  lemma TouchKeepsSound(b: Book, name: string)
    requires b.Sound()
    ensures b.Touch(name).Sound() && (b.Regular() && name != "" ==> b.Touch(name).Regular())
  {
    var after := b.Touch(name);
    forall k | k in after.pgs ensures after.Listed(k) {
      assert b.Listed(k);
    }
    if b.Regular() && name != "" {
      forall p | p in after.profiles ensures after.Exact(p) {
        assert p in b.profiles ==> b.Exact(p);
      }
    }
  }

  /** A profile some priority group runs is never released. */
  lemma ReleaseKeepsSound(b: Book, names: set<string>)
    requires b.Sound()
    ensures b.Release(names).Sound() && (b.Regular() ==> b.Release(names).Regular())
  {
    var after := b.Release(names);
    forall k | k in after.pgs ensures after.Listed(k) {
      assert b.Listed(k);
    }
    if b.Regular() {
      forall p | p in after.profiles ensures after.Exact(p) {
        assert b.Exact(p);
      }
    }
  }

  // ---------- how far a refresh has come ----------

  function ProfileRowAt(b: Book, p: string): Option<Row> {
    RowAt(b.profileRows, p)
  }

  /** A group in `done` has reached its goal, any other is as before. */
  ghost predicate Reached(b0: Book, b: Book, goal: map<PgKey, string>, done: set<PgKey>, k: PgKey)
    requires done <= goal.Keys
  {
    && (k in b.pgs <==> k in b0.pgs)
    && (k in b.pgs ==> b.pgs[k] == if k in done then b0.pgs[k].(running := goal[k]) else b0.pgs[k])
    && RowAt(b.pgRows, k) == if k in done then (if goal[k] == "" then None else Some(goal[k])) else RowAt(b0.pgRows, k)
  }

  ghost predicate MadeFor(profile: Profile, goal: map<PgKey, string>, made: map<PgKey, Profile>, p: string) {
    exists k <- made.Keys :: k in goal && goal[k] == p && profile.(pgs := {}) == made[k]
  }

  /** Whether a profile must list a group whose reference may have moved. */
  ghost predicate ShouldList(b0: Book, goal: map<PgKey, string>, done: set<PgKey>, p: string, k: PgKey)
    requires done <= goal.Keys <= b0.pgs.Keys
  {
    var before := p in b0.profiles && k in b0.profiles[p].pgs;
    if k in done && goal[k] != b0.pgs[k].running then
      goal[k] == p != "" || (before && (p == "" || p != b0.pgs[k].running))
    else before
  }

  /** A profile keeps what it holds; one that did not exist was made for a goal and published. */
  ghost predicate SameOrMade(b0: Book, b: Book, goal: map<PgKey, string>, made: map<PgKey, Profile>, mode: string,
                             p: string) {
    if p in b0.profiles then
      p in b.profiles && b.profiles[p].(pgs := {}) == b0.profiles[p].(pgs := {})
        && ProfileRowAt(b, p) == ProfileRowAt(b0, p)
    else if p in b.profiles then
      MadeFor(b.profiles[p], goal, made, p) && ProfileRowAt(b, p) == Some(RowOf(b.profiles[p].(pgs := {}), mode))
    else ProfileRowAt(b, p) == ProfileRowAt(b0, p)
  }

  ghost predicate WasRunning(b0: Book, done: set<PgKey>, p: string) {
    exists k <- done :: k in b0.pgs && b0.pgs[k].running == p
  }

  /** What has become of one profile: its content, its references, and whether it is to be released. */
  ghost predicate Carried(b0: Book, b: Book, goal: map<PgKey, string>, made: map<PgKey, Profile>, mode: string,
                          done: set<PgKey>, release: set<string>, p: string)
    requires done <= goal.Keys <= b0.pgs.Keys
  {
    && SameOrMade(b0, b, goal, made, mode, p)
    && (p in b.profiles ==> forall k: PgKey :: k in b.profiles[p].pgs <==> ShouldList(b0, goal, done, p, k))
    && (p in release ==> p in b0.profiles && p != "" && WasRunning(b0, done, p))
  }

  /** A dynamic profile left idle is about to be released. */
  ghost predicate IdleReleased(b0: Book, b: Book, release: set<string>, p: string) {
    p in b.profiles && b.Idle(p) ==> p in release || (p in b0.profiles && b0.Idle(p))
  }

  /** As Progress below, but the goal of the next group exists and may still be idle. */
  ghost predicate Prepared(b0: Book, b: Book, goal: map<PgKey, string>, made: map<PgKey, Profile>, mode: string,
                           done: set<PgKey>, release: set<string>, next: Option<PgKey>) {
    && done <= goal.Keys <= b0.pgs.Keys && b.pgs.Keys == b0.pgs.Keys
    && (next.Some? ==> next.value in goal && goal[next.value] in b.profiles)
    && (forall k {:trigger Reached(b0, b, goal, done, k)} :: Reached(b0, b, goal, done, k))
    && (forall p {:trigger Carried(b0, b, goal, made, mode, done, release, p)} ::
         Carried(b0, b, goal, made, mode, done, release, p))
    && (forall p {:trigger IdleReleased(b0, b, release, p)} ::
          (next.Some? && p == goal[next.value]) || IdleReleased(b0, b, release, p))
  }

  /** The groups in `done` have reached their goals, and what became idle is in `release`. */
  ghost predicate Progress(b0: Book, b: Book, goal: map<PgKey, string>, made: map<PgKey, Profile>, mode: string,
                           done: set<PgKey>, release: set<string>) {
    Prepared(b0, b, goal, made, mode, done, release, None)
  }

  function ToRelease(b0: Book, goal: map<PgKey, string>, key: PgKey): set<string>
    requires key in b0.pgs && key in goal
  {
    if b0.pgs[key].running != "" && b0.pgs[key].running != goal[key] then {b0.pgs[key].running} else {}
  }

  lemma ProgressAtStart(b0: Book, goal: map<PgKey, string>, made: map<PgKey, Profile>, mode: string)
    requires goal.Keys <= b0.pgs.Keys
    ensures Progress(b0, b0, goal, made, mode, {}, {})
  {
  }

  lemma PreparedByAllocate(b0: Book, b: Book, goal: map<PgKey, string>, made: map<PgKey, Profile>, mode: string,
                           done: set<PgKey>, release: set<string>, key: PgKey)
    requires Progress(b0, b, goal, made, mode, done, release) && b.Sound()
    requires key in goal && key in made && goal[key] !in b.profiles && goal[key] != "" && made[key].pgs == {}
    ensures Prepared(b0, b.Allocate(goal[key], made[key], RowOf(made[key], mode)), goal, made, mode, done, release,
                     Some(key))
  {
    var name := goal[key];
    var after := b.Allocate(name, made[key], RowOf(made[key], mode));
    forall k ensures Reached(b0, after, goal, done, k) {
      assert Reached(b0, b, goal, done, k);
    }
    forall k <- done ensures goal[k] != name {
      assert Reached(b0, b, goal, done, k) && b.Listed(k);
    }
    forall p ensures Carried(b0, after, goal, made, mode, done, release, p) {
      assert Carried(b0, b, goal, made, mode, done, release, p);
    }
    forall p ensures p == name || IdleReleased(b0, after, release, p) {
      assert IdleReleased(b0, b, release, p);
    }
  }

  lemma PreparedByFinding(b0: Book, b: Book, goal: map<PgKey, string>, made: map<PgKey, Profile>, mode: string,
                          done: set<PgKey>, release: set<string>, key: PgKey)
    requires Progress(b0, b, goal, made, mode, done, release) && key in goal && goal[key] in b.profiles
    ensures Prepared(b0, b, goal, made, mode, done, release, Some(key))
  {
  }

  lemma MoreWereRunning(b0: Book, goal: map<PgKey, string>, done: set<PgKey>, key: PgKey, p: string)
    requires key in b0.pgs && key in goal && (WasRunning(b0, done, p) || p in ToRelease(b0, goal, key))
    ensures WasRunning(b0, done + {key}, p)
  {
    if WasRunning(b0, done, p) {
      var k :| k in done && k in b0.pgs && b0.pgs[k].running == p;
      assert k in done + {key};
    } else {
      assert key in done + {key};
    }
  }

  /** Moving the reference of one more group. */
  lemma MoveKeeps(b0: Book, b: Book, goal: map<PgKey, string>, made: map<PgKey, Profile>, mode: string,
                  done: set<PgKey>, release: set<string>, key: PgKey)
    requires b0.Sound() && b.Sound()
    requires key in goal && key !in done && goal[key] != ""
      && Prepared(b0, b, goal, made, mode, done, release, Some(key))
    ensures Progress(b0, b.Assign(key, goal[key]), goal, made, mode, done + {key}, release + ToRelease(b0, goal, key))
    ensures b.pgs[key].running == b0.pgs[key].running
  {
    var after, more := b.Assign(key, goal[key]), release + ToRelease(b0, goal, key);
    assert Reached(b0, b, goal, done, key) && b0.Listed(key) && b.Listed(key);
    forall k ensures Reached(b0, after, goal, done + {key}, k) {
      assert Reached(b0, b, goal, done, k);
    }
    forall p ensures Carried(b0, after, goal, made, mode, done + {key}, more, p) {
      CarriedAfterAssign(b0, b, goal, made, mode, done, release, key, p);
    }
    forall p ensures IdleReleased(b0, after, more, p) {
      assert p == goal[key] || IdleReleased(b0, b, release, p);
    }
  }

  lemma CarriedAfterAssign(b0: Book, b: Book, goal: map<PgKey, string>, made: map<PgKey, Profile>, mode: string,
                           done: set<PgKey>, release: set<string>, key: PgKey, p: string)
    requires b0.Sound() && Prepared(b0, b, goal, made, mode, done, release, Some(key))
    requires key in goal && key !in done && goal[key] != ""
    requires key in b.pgs && b.pgs[key].running == b0.pgs[key].running && goal[key] in b.profiles
    ensures Carried(b0, b.Assign(key, goal[key]), goal, made, mode, done + {key}, release + ToRelease(b0, goal, key), p)
  {
    assert Carried(b0, b, goal, made, mode, done, release, p) && b0.Listed(key);
    if p in release || p in ToRelease(b0, goal, key) {
      MoreWereRunning(b0, goal, done, key, p);
    }
    if p in b.profiles {
      ListsAfterAssign(b0, b, goal, done, key, p);
      assert b.Assign(key, goal[key]).profiles[p].(pgs := {}) == b.profiles[p].(pgs := {});
    }
  }

  lemma ListsAfterAssign(b0: Book, b: Book, goal: map<PgKey, string>, done: set<PgKey>, key: PgKey, p: string)
    requires done <= goal.Keys <= b0.pgs.Keys && key in goal && key !in done
      && goal[key] in b.profiles && p in b.profiles
    requires key in b.pgs && b.pgs[key].running == b0.pgs[key].running && b0.Sound()
    requires goal[key] != "" && forall k: PgKey :: k in b.profiles[p].pgs <==> ShouldList(b0, goal, done, p, k)
    ensures forall k: PgKey ::
      k in b.Assign(key, goal[key]).profiles[p].pgs <==> ShouldList(b0, goal, done + {key}, p, k)
  {
    assert b0.Listed(key);
    forall k: PgKey
      ensures k in b.Assign(key, goal[key]).profiles[p].pgs <==> ShouldList(b0, goal, done + {key}, p, k) {
      assert k in b.profiles[p].pgs <==> ShouldList(b0, goal, done, p, k);
    }
  }

  /** Taking the profile of one more group away. */
  lemma TakeAwayKeeps(b0: Book, b: Book, goal: map<PgKey, string>, made: map<PgKey, Profile>, mode: string,
                      done: set<PgKey>, release: set<string>, key: PgKey)
    requires Progress(b0, b, goal, made, mode, done, release) && b0.Sound()
    requires key in goal && key !in done && goal[key] == "" != b0.pgs[key].running
    ensures b.pgs[key].running == b0.pgs[key].running
    ensures Progress(b0, b.Unassign(key), goal, made, mode, done + {key}, release + {b.pgs[key].running})
  {
    var after, more := b.Unassign(key), release + {b0.pgs[key].running};
    assert Reached(b0, b, goal, done, key) && b0.Listed(key);
    forall k ensures Reached(b0, after, goal, done + {key}, k) {
      assert Reached(b0, b, goal, done, k);
    }
    forall p ensures Carried(b0, after, goal, made, mode, done + {key}, more, p) {
      CarriedAfterUnassign(b0, b, goal, made, mode, done, release, key, p);
    }
    forall p ensures IdleReleased(b0, after, more, p) {
      assert IdleReleased(b0, b, release, p);
    }
  }

  lemma CarriedAfterUnassign(b0: Book, b: Book, goal: map<PgKey, string>, made: map<PgKey, Profile>, mode: string,
                             done: set<PgKey>, release: set<string>, key: PgKey, p: string)
    requires b0.Sound() && Progress(b0, b, goal, made, mode, done, release)
    requires key in goal && key !in done && goal[key] == "" != b0.pgs[key].running
    requires key in b.pgs && b.pgs[key].running == b0.pgs[key].running
    ensures Carried(b0, b.Unassign(key), goal, made, mode, done + {key}, release + {b0.pgs[key].running}, p)
  {
    assert Carried(b0, b, goal, made, mode, done, release, p) && b0.Listed(key);
    var after := b.Unassign(key);
    if p in release + {b0.pgs[key].running} {
      MoreWereRunning(b0, goal, done, key, p);
    }
    if p in b.profiles {
      assert after.profiles[p].(pgs := {}) == b.profiles[p].(pgs := {});
      forall k: PgKey ensures k in after.profiles[p].pgs <==> ShouldList(b0, goal, done + {key}, p, k) {
        assert k in b.profiles[p].pgs <==> ShouldList(b0, goal, done, p, k);
      }
    }
  }

  /** A refresh that started without leftovers ends without leftovers. */
  lemma NoLeftoverAfter(b0: Book, b: Book, goal: map<PgKey, string>, made: map<PgKey, Profile>, mode: string,
                        release: set<string>)
    requires Progress(b0, b, goal, made, mode, goal.Keys, release) && b0.NoLeftover()
    ensures b.Release(release).NoLeftover()
  {
    var after := b.Release(release);
    forall p <- after.profiles.Keys | !after.profiles[p].staticConfigured
      ensures after.profiles[p].pgs != {} && p in after.profileRows
    {
      assert Carried(b0, b, goal, made, mode, goal.Keys, release, p) && IdleReleased(b0, b, release, p);
      if p in b0.profiles {
        assert b.profiles[p].(pgs := {}) == b0.profiles[p].(pgs := {});
      }
    }
  }

  // ---------- reclaiming ----------

  /** A group in `done` runs nothing any more, and only its row has changed. */
  ghost predicate Stopped(b0: Book, b: Book, done: set<PgKey>, k: PgKey) {
    && (k in b.pgs <==> k in b0.pgs)
    && (k in b.pgs ==> b.pgs[k] == if k in done then b0.pgs[k].(running := "") else b0.pgs[k])
    && (k !in done ==> RowAt(b.pgRows, k) == RowAt(b0.pgRows, k))
  }

  /** A profile has lost the references of the groups in `done` that ran it, and nothing else. */
  ghost predicate Unlisted(b0: Book, b: Book, done: set<PgKey>, p: string)
    requires done <= b0.pgs.Keys
  {
    && (p in b.profiles <==> p in b0.profiles) && ProfileRowAt(b, p) == ProfileRowAt(b0, p)
    && (p in b.profiles ==> b.profiles[p].(pgs := {}) == b0.profiles[p].(pgs := {}))
    && (p in b.profiles ==> forall k: PgKey ::
          k in b.profiles[p].pgs <==> k in b0.profiles[p].pgs && !(k in done && b0.pgs[k].running == p != ""))
  }

  ghost predicate Reclaimed(b0: Book, b: Book, done: set<PgKey>) {
    && done <= b0.pgs.Keys && b.pgs.Keys == b0.pgs.Keys
    && (forall k {:trigger Stopped(b0, b, done, k)} :: Stopped(b0, b, done, k))
    && (forall p {:trigger Unlisted(b0, b, done, p)} :: Unlisted(b0, b, done, p))
  }

  lemma ReclaimKeeps(b0: Book, b: Book, done: set<PgKey>, key: PgKey, zero: string)
    requires Reclaimed(b0, b, done) && b.Sound() && key in b0.pgs && key !in done
    ensures key in b.pgs && b.pgs[key].running == b0.pgs[key].running
    ensures Reclaimed(b0, b.Reclaim(key, zero), done + {key})
    ensures b.Reclaim(key, zero).Sound() && (b.Regular() ==> b.Reclaim(key, zero).Regular())
    ensures b.pgs[key].running != "" ==> b.pgs[key].running in b.profiles
  {
    assert Stopped(b0, b, done, key) && b.Listed(key);
    UnassignKeepsSound(b, key);
    SameButRows(b.Unassign(key), b.Reclaim(key, zero));
    var after := b.Reclaim(key, zero);
    forall k ensures Stopped(b0, after, done + {key}, k) {
      assert Stopped(b0, b, done, k);
    }
    forall p ensures Unlisted(b0, after, done + {key}, p) {
      assert Unlisted(b0, b, done, p);
    }
  }

  /** The rows of the groups have no part in the references. */
  lemma SameButRows(b: Book, after: Book)
    requires b.Sound() && after == b.(pgRows := after.pgRows)
    ensures after.Sound() && (b.Regular() ==> after.Regular())
  {
    forall k | k in after.pgs ensures after.Listed(k) {
      assert b.Listed(k);
    }
    if b.Regular() {
      forall p | p in after.profiles ensures after.Exact(p) {
        assert b.Exact(p);
      }
    }
  }

  // ---------- the goals of a refresh ----------

  /** What is left of a refresh after one group: the book, how it went, and the profile that may have become idle. */
  datatype Turn = Turn(book: Book, status: Status, release: set<string>)

  /** The parts of the manager's state a refresh reads and does not change. */
  datatype Setting = Setting(plugin: Params -> Headroom, fits: (string, string, Headroom, PgKey) -> bool,
                             defaultThreshold: string, poolMode: string, platform: string, model: nat) {

    function Created(params: Params, threshold: string): Profile {
      Profile(false, true, params, threshold, LOSSLESS_POOL, plugin(params), {})
    }

    function Threshold(pg: Pg, profiles: map<string, Profile>): string {
      if !pg.staticConfigured then defaultThreshold
      else if pg.configured in profiles then profiles[pg.configured].threshold else NO_PROFILE.threshold
    }

    function NameFor(params: Params, threshold: string): (name: string)
      ensures name != ""
    {
      DynamicProfileName(params, threshold, defaultThreshold, platform, model)
    }

    function DynamicName(pg: Pg, profiles: map<string, Profile>, params: Params): string {
      NameFor(params, Threshold(pg, profiles))
    }

    predicate TakesAway(pg: Pg, info: PortInfo) {
      pg.dynamic && info.state == Ready && info.params.cable == "0m" && pg.lossless
    }

    /** The profile a group must run, "" when its lossless profile is taken away, None when it is left alone. */
    function Goal(pg: Pg, profiles: map<string, Profile>, info: PortInfo): Option<string> {
      if !pg.dynamic then Some(pg.configured)
      else if info.state != Ready then None
      else if TakesAway(pg, info) then if pg.running == "" then None else Some("")
      else Some(DynamicName(pg, profiles, info.params))
    }

    /** The configured profile a refresh of the group looks up. */
    function LooksUp(pg: Pg, info: PortInfo): Option<string> {
      if !pg.dynamic || (pg.staticConfigured && info.state == Ready && !TakesAway(pg, info)) then Some(pg.configured)
      else None
    }

    /**
      A profile that was calculated holds the values of its own parameters and lies
      under their name, made while one of the thresholds was the default.
     */
    ghost predicate NamedAt(profiles: map<string, Profile>, defaults: set<string>, p: string)
      requires p in profiles
    {
      var profile := profiles[p].(pgs := {});
      profile.staticConfigured || profile == NO_PROFILE
      || (&& profile == Created(profile.params, profile.threshold)
          && exists d <- defaults :: p == DynamicProfileName(profile.params, profile.threshold, d, platform, model))
    }

    ghost predicate Named(profiles: map<string, Profile>, defaults: set<string>) {
      forall p {:trigger NamedAt(profiles, defaults, p)} :: p in profiles ==> NamedAt(profiles, defaults, p)
    }

    /** Whatever the defaults were, names stay right. */
    ghost predicate KeepsNames(before: map<string, Profile>, after: map<string, Profile>) {
      forall ds {:trigger Named(before, ds)} :: Named(before, ds) && defaultThreshold in ds ==> Named(after, ds)
    }

    /** What a group must run and publish after a refresh, whatever other groups run. */
    ghost predicate Served(b: Book, info: PortInfo, k: PgKey) {
      k in b.pgs &&
      var pg := b.pgs[k];
      if !pg.dynamic then Runs(b, k, pg.configured)
      else if TakesAway(pg, info) then pg.running == ""
      else info.state == Ready ==> exists t {:trigger NameFor(info.params, t)} ::
        && Runs(b, k, NameFor(info.params, t))
        && (pg.staticConfigured ==> !b.IsStatic(pg.configured) || t == b.profiles[pg.configured].threshold)
        && (!pg.staticConfigured ==> t == defaultThreshold)
    }

    /** The threshold of a group is not open to question. */
    predicate HasThreshold(b: Book, k: PgKey)
      requires k in b.pgs
    {
      b.pgs[k].staticConfigured ==>
        b.pgs[k].configured in b.profiles && b.profiles[b.pgs[k].configured].staticConfigured
    }

    /** The treatment of one group by refreshPgsForPort. */
    function Refresh(b: Book, key: PgKey, info: PortInfo): Turn
      requires key in b.pgs
    {
      var pg := b.pgs[key];
      if !pg.dynamic then Place(b.Touch(pg.configured), key, pg.configured)
      else if info.state != Ready then Turn(b, Success, {})
      else if TakesAway(pg, info) then
        if pg.running == "" then Turn(b, Success, {}) else Turn(b.Unassign(key), Success, {pg.running})
      else
        var looked := if pg.staticConfigured then b.Touch(pg.configured) else b;
        var threshold := Threshold(pg, looked.profiles);
        var name := NameFor(info.params, threshold);
        if name in looked.profiles then Place(looked, key, name)
        else if poolMode == "" then Turn(looked.Touch(name), NeedRetry, {})
        else
          var created := Created(info.params, threshold);
          Place(looked.Allocate(name, created, RowOf(created, poolMode)), key, name)
    }

    /** The second half: a profile that does not fit is released, one that does takes the group. */
    function Place(b: Book, key: PgKey, name: string): Turn
      requires key in b.pgs && name in b.profiles
    {
      var running := b.pgs[key].running;
      if !fits(key.port, name, b.profiles[name].headroom, key) then Turn(b.Release({name}), Failed, {})
      else Turn(b.Assign(key, name), Success, if running != "" && running != name then {running} else {})
    }
  }

  /** The group runs the profile, and its row says so. */
  predicate Runs(b: Book, k: PgKey, name: string)
    requires k in b.pgs
  {
    b.pgs[k].running == name && RowAt(b.pgRows, k) == Some(name)
  }

  predicate SameGroup(b0: Book, b: Book, k: PgKey) {
    k in b0.pgs && k in b.pgs && b.pgs[k] == b0.pgs[k] && RowAt(b.pgRows, k) == RowAt(b0.pgRows, k)
  }

  /** Profiles that are only referenced otherwise, or gone, keep the names right. */
  lemma FewerKeepNames(s: Setting, before: map<string, Profile>, after: map<string, Profile>)
    requires forall p <- after.Keys ::
      (p in before && after[p].(pgs := {}) == before[p].(pgs := {})) || after[p].(pgs := {}) == NO_PROFILE
    ensures s.KeepsNames(before, after)
  {
    forall ds | s.Named(before, ds) && s.defaultThreshold in ds ensures s.Named(after, ds) {
      forall p <- after.Keys ensures s.NamedAt(after, ds, p) {
        if p in before { assert s.NamedAt(before, ds, p); }
      }
    }
  }

  lemma ReclaimedKeepsNames(s: Setting, b0: Book, b: Book, keys: set<PgKey>, release: set<string>)
    requires Reclaimed(b0, b, keys)
    ensures s.KeepsNames(b0.profiles, b.Release(release).profiles)
  {
    forall p <- b.profiles.Keys ensures p in b0.profiles && b.profiles[p].(pgs := {}) == b0.profiles[p].(pgs := {}) {
      assert Unlisted(b0, b, keys, p);
    }
    FewerKeepNames(s, b0.profiles, b.Release(release).profiles);
  }

  lemma AllocateKeepsNames(s: Setting, b: Book, params: Params, threshold: string)
    ensures var created := s.Created(params, threshold);
            s.KeepsNames(b.profiles,
                         b.Allocate(s.NameFor(params, threshold), created, RowOf(created, s.poolMode)).profiles)
  {
    var name, created := s.NameFor(params, threshold), s.Created(params, threshold);
    var after := b.Allocate(name, created, RowOf(created, s.poolMode));
    forall ds | s.Named(b.profiles, ds) && s.defaultThreshold in ds ensures s.Named(after.profiles, ds) {
      forall p <- after.profiles.Keys ensures s.NamedAt(after.profiles, ds, p) {
        if p != name { assert s.NamedAt(b.profiles, ds, p); }
      }
    }
  }

  lemma PlaceKeepsNames(s: Setting, b: Book, key: PgKey, name: string)
    requires key in b.pgs && name in b.profiles
    ensures s.KeepsNames(b.profiles, s.Place(b, key, name).book.profiles)
  {
    FewerKeepNames(s, b.profiles, s.Place(b, key, name).book.profiles);
  }

  /** A calculated profile is always found under the name of what it was calculated from. */
  lemma RefreshKeepsNames(s: Setting, b: Book, key: PgKey, info: PortInfo)
    requires key in b.pgs
    ensures s.KeepsNames(b.profiles, s.Refresh(b, key, info).book.profiles)
  {
    var pg := b.pgs[key];
    FewerKeepNames(s, b.profiles, b.Touch(pg.configured).profiles);
    if !pg.dynamic {
      PlaceKeepsNames(s, b.Touch(pg.configured), key, pg.configured);
    } else if s.TakesAway(pg, info) {
      FewerKeepNames(s, b.profiles, b.Unassign(key).profiles);
    } else if info.state == Ready {
      var looked := if pg.staticConfigured then b.Touch(pg.configured) else b;
      var threshold := s.Threshold(pg, looked.profiles);
      var name, created := s.NameFor(info.params, threshold), s.Created(info.params, threshold);
      if name in looked.profiles {
        PlaceKeepsNames(s, looked, key, name);
      } else if s.poolMode == "" {
        FewerKeepNames(s, looked.profiles, looked.Touch(name).profiles);
      } else {
        AllocateKeepsNames(s, looked, info.params, threshold);
        PlaceKeepsNames(s, looked.Allocate(name, created, RowOf(created, s.poolMode)), key, name);
      }
    }
  }

  /** No calculated profile has one of the thresholds. */
  ghost predicate NoneWith(profiles: map<string, Profile>, thresholds: set<string>) {
    forall p <- profiles.Keys :: Calculated(profiles[p]) ==> profiles[p].threshold !in thresholds
  }

  predicate Calculated(profile: Profile) {
    !profile.staticConfigured && profile.(pgs := {}) != NO_PROFILE
  }

  lemma NamedUnderNew(s: Setting, after: Setting, profiles: map<string, Profile>, was: string, value: string)
    requires s.Named(profiles, {was}) && after == s.(defaultThreshold := value)
    ensures after.Named(profiles, {value}) <==> was == value || NoneWith(profiles, {was, value})
  {
    forall p <- profiles.Keys
      ensures s.NamedAt(profiles, {was}, p)
      ensures was == value ==> after.NamedAt(profiles, {value}, p)
      ensures Calculated(profiles[p]) && was != value ==>
        (after.NamedAt(profiles, {value}, p) <==> profiles[p].threshold !in {was, value})
    {
      assert s.NamedAt(profiles, {was}, p);
      var profile := profiles[p].(pgs := {});
      if was != value { SameUnderBoth(profile.params, profile.threshold, was, value, s.platform, s.model); }
    }
    if was != value && after.Named(profiles, {value}) {
      forall p <- profiles.Keys ensures Calculated(profiles[p]) ==> profiles[p].threshold !in {was, value} {
        assert after.NamedAt(profiles, {value}, p);
      }
    }
    if was != value && NoneWith(profiles, {was, value}) {
      forall p <- profiles.Keys ensures after.NamedAt(profiles, {value}, p) {
        assert s.NamedAt(profiles, {was}, p);
      }
    }
  }

  /** Nothing but one group, and no static profile but for its references, has changed. */
  ghost predicate OnlyGroup(b0: Book, b: Book, key: PgKey) {
    && b.pgs.Keys == b0.pgs.Keys && StaticsOf(b0, b)
    && (forall k {:trigger SameGroup(b0, b, k)} :: k in b0.pgs && k != key ==> SameGroup(b0, b, k))
  }

  /** The static profiles are the same but for their references. */
  ghost predicate StaticsOf(b0: Book, b: Book) {
    forall p {:trigger SameStatic(b0, b, p)} :: SameStatic(b0, b, p)
  }

  ghost predicate SameStatic(b0: Book, b: Book, p: string) {
    && (b.IsStatic(p) <==> b0.IsStatic(p))
    && (b0.IsStatic(p) ==> b.profiles[p].(pgs := {}) == b0.profiles[p].(pgs := {}))
  }

  lemma PlaceServes(s: Setting, b0: Book, b: Book, key: PgKey, name: string)
    requires key in b.pgs && name in b.profiles && b.pgs == b0.pgs && b.pgRows == b0.pgRows && StaticsOf(b0, b)
    ensures var t := s.Place(b, key, name);
            && OnlyGroup(b0, t.book, key)
            && (t.status == Success ==> Runs(t.book, key, name) && t.book.pgs[key] == b.pgs[key].(running := name))
  {
    var t := s.Place(b, key, name);
    forall p ensures SameStatic(b0, t.book, p) {
      assert SameStatic(b0, b, p);
    }
    forall k | k in b0.pgs && k != key ensures SameGroup(b0, t.book, k) {
    }
  }

  /** Finding a profile or making one touches no group and no other profile. */
  lemma MakingTouchesNone(b0: Book, b: Book, name: string, profile: Profile, row: Row)
    requires StaticsOf(b0, b) && (name in b.profiles || !profile.staticConfigured)
    ensures name !in b.profiles ==> StaticsOf(b0, b.Allocate(name, profile, row))
    ensures StaticsOf(b0, b.Touch(name))
  {
    forall p
      ensures SameStatic(b0, b.Touch(name), p)
      ensures name !in b.profiles ==> SameStatic(b0, b.Allocate(name, profile, row), p)
    {
      assert SameStatic(b0, b, p);
    }
  }

  /** A group treated with success is served, and no other group is touched. */
  lemma RefreshServes(s: Setting, b: Book, key: PgKey, info: PortInfo)
    requires key in b.pgs
    ensures var t := s.Refresh(b, key, info);
            OnlyGroup(b, t.book, key) && (t.status == Success ==> s.Served(t.book, info, key))
  {
    var pg := b.pgs[key];
    assert forall p :: SameStatic(b, b, p);
    if !pg.dynamic {
      MakingTouchesNone(b, b, pg.configured, NO_PROFILE, RowOf(NO_PROFILE, ""));
      PlaceServes(s, b, b.Touch(pg.configured), key, pg.configured);
    } else if s.TakesAway(pg, info) {
      TakeAwayServes(s, b, key, info);
    } else if info.state == Ready {
      DynamicServes(s, b, key, info);
    }
  }

  lemma TakeAwayServes(s: Setting, b: Book, key: PgKey, info: PortInfo)
    requires key in b.pgs && s.TakesAway(b.pgs[key], info)
    ensures OnlyGroup(b, b.Unassign(key), key) && b.Unassign(key).pgs[key] == b.pgs[key].(running := "")
    ensures OnlyGroup(b, b, key)
  {
    forall p ensures SameStatic(b, b.Unassign(key), p) && SameStatic(b, b, p) {
    }
    forall k | k in b.pgs && k != key ensures SameGroup(b, b.Unassign(key), k) {
    }
  }

  lemma DynamicServes(s: Setting, b: Book, key: PgKey, info: PortInfo)
    requires key in b.pgs && b.pgs[key].dynamic && info.state == Ready && !s.TakesAway(b.pgs[key], info)
    requires StaticsOf(b, b)
    ensures var t := s.Refresh(b, key, info);
            OnlyGroup(b, t.book, key) && (t.status == Success ==> s.Served(t.book, info, key))
  {
    var pg := b.pgs[key];
    MakingTouchesNone(b, b, pg.configured, NO_PROFILE, RowOf(NO_PROFILE, ""));
    var looked := if pg.staticConfigured then b.Touch(pg.configured) else b;
    var threshold := s.Threshold(pg, looked.profiles);
    var name, created := s.NameFor(info.params, threshold), s.Created(info.params, threshold);
    MakingTouchesNone(b, looked, name, created, RowOf(created, s.poolMode));
    if name in looked.profiles {
      PlaceServes(s, b, looked, key, name);
    } else if s.poolMode != "" {
      PlaceServes(s, b, looked.Allocate(name, created, RowOf(created, s.poolMode)), key, name);
    }
    var t := s.Refresh(b, key, info);
    if t.status == Success {
      assert Runs(t.book, key, s.NameFor(info.params, threshold));
      assert SameStatic(b, t.book, pg.configured) && SameStatic(b, looked, pg.configured);
    }
  }

  /** A group that is served stays so while other groups are treated. */
  lemma StillServed(s: Setting, b0: Book, b: Book, info: PortInfo, k: PgKey)
    requires s.Served(b0, info, k) && SameGroup(b0, b, k) && StaticsOf(b0, b)
    ensures s.Served(b, info, k)
  {
    var pg := b0.pgs[k];
    assert SameStatic(b0, b, pg.configured);
    if pg.dynamic && !s.TakesAway(pg, info) && info.state == Ready {
      var t :| && Runs(b0, k, s.NameFor(info.params, t))
               && (pg.staticConfigured ==> !b0.IsStatic(pg.configured) || t == b0.profiles[pg.configured].threshold)
               && (!pg.staticConfigured ==> t == s.defaultThreshold);
      assert Runs(b, k, s.NameFor(info.params, t));
    }
  }

  /**
    A group that is served runs a profile made for its own port: for its speed,
    cable length, MTU, gearbox model and lanes, with what the plugin says for them.
    Only a static profile of that name, or an empty one that an allocation left
    behind too early, can stand in for it.
   */
  lemma RunsItsOwn(s: Setting, b: Book, info: PortInfo, k: PgKey, defaults: set<string>)
    requires b.Sound() && s.Named(b.profiles, defaults) && s.Served(b, info, k) && s.HasThreshold(b, k)
    requires b.pgs[k].dynamic && info.state == Ready && !s.TakesAway(b.pgs[k], info)
    ensures b.pgs[k].running in b.profiles && k in b.profiles[b.pgs[k].running].pgs
    ensures RowAt(b.pgRows, k) == Some(b.pgs[k].running)
    ensures var profile := b.profiles[b.pgs[k].running].(pgs := {});
            || profile.staticConfigured || profile == NO_PROFILE
            || (&& profile == s.Created(profile.params, profile.threshold)
                && (MayTell(profile, info.params, s.Threshold(b.pgs[k], b.profiles), s) ==>
                      && SameClass(profile.params, info.params, s.platform, s.model)
                      && (defaults == {s.defaultThreshold} ==>
                            profile.threshold == s.Threshold(b.pgs[k], b.profiles))))
  {
    var threshold := s.Threshold(b.pgs[k], b.profiles);
    assert b.Listed(k);
    var name := b.pgs[k].running;
    assert name == s.NameFor(info.params, threshold);
    assert s.NamedAt(b.profiles, defaults, name);
    var profile := b.profiles[name].(pgs := {});
    if !profile.staticConfigured && profile != NO_PROFILE {
      var d :| d in defaults && name == DynamicProfileName(profile.params, profile.threshold, d, s.platform, s.model);
      if MayTell(profile, info.params, threshold, s) {
        ReadableNames(profile.params, profile.threshold, d, info.params, threshold, s.defaultThreshold, s.platform,
                      s.model);
      }
    }
  }

  /** What the loop of refreshPgsForPort has served, and what it left alone, when `todo` is still to come. */
  ghost predicate ServedSoFar(s: Setting, b0: Book, b: Book, info: PortInfo, matched: set<PgKey>, todo: set<PgKey>) {
    && b.pgs.Keys == b0.pgs.Keys && StaticsOf(b0, b)
    && (forall k {:trigger s.Served(b, info, k)} :: k in matched && k !in todo ==> s.Served(b, info, k))
    && (forall k {:trigger SameGroup(b0, b, k)} :: k in b0.pgs && (k in todo || k !in matched) ==> SameGroup(b0, b, k))
  }

  lemma ServedAtStart(s: Setting, b: Book, info: PortInfo, matched: set<PgKey>)
    ensures ServedSoFar(s, b, b, info, matched, matched)
  {
    assert forall p :: SameStatic(b, b, p);
  }

  lemma ServedNext(s: Setting, b0: Book, b: Book, after: Book, info: PortInfo, matched: set<PgKey>, todo: set<PgKey>,
                   key: PgKey)
    requires ServedSoFar(s, b0, b, info, matched, todo) && key in matched && key in todo
    requires OnlyGroup(b, after, key) && s.Served(after, info, key)
    ensures ServedSoFar(s, b0, after, info, matched, todo - {key})
  {
    forall p ensures SameStatic(b0, after, p) {
      assert SameStatic(b0, b, p) && SameStatic(b, after, p);
    }
    forall k | k in b0.pgs && (k in todo - {key} || k !in matched) ensures SameGroup(b0, after, k) {
      assert SameGroup(b0, b, k) && SameGroup(b, after, k);
    }
    forall k | k in matched && k !in todo - {key} ensures s.Served(after, info, k) {
      if k != key {
        assert s.Served(b, info, k) && SameGroup(b, after, k);
        StillServed(s, b, after, info, k);
      }
    }
  }

  lemma ServedAfterRelease(s: Setting, b0: Book, b: Book, info: PortInfo, matched: set<PgKey>, names: set<string>)
    requires ServedSoFar(s, b0, b, info, matched, {})
    ensures ServedSoFar(s, b0, b.Release(names), info, matched, {})
    ensures s.KeepsNames(b.profiles, b.Release(names).profiles)
  {
    var after := b.Release(names);
    FewerKeepNames(s, b.profiles, after.profiles);
    forall p ensures SameStatic(b0, after, p) && SameStatic(b, after, p) {
      assert SameStatic(b0, b, p);
    }
    forall k | k in b0.pgs && k !in matched ensures SameGroup(b0, after, k) {
      assert SameGroup(b0, b, k);
    }
    forall k | k in matched ensures s.Served(after, info, k) {
      assert s.Served(b, info, k) && SameGroup(b, after, k);
      StillServed(s, b, after, info, k);
    }
  }

  function Matching(b: Book, port: string, exact: Option<PgKey>): set<PgKey> {
    set k | k in b.pgs && Matches(b, port, exact, k)
  }

  /** Neither the texts of the profile nor those of the port hide a part of the name. */
  predicate MayTell(profile: Profile, params: Params, threshold: string, s: Setting) {
    && Plain(profile.params, profile.threshold) && Plain(params, threshold)
    && Readable(profile.params.gearbox, s.platform, s.model) && Readable(params.gearbox, s.platform, s.model)
  }

  /** However the treatment of a group ends, every running profile is still cached and lists its group. */
  lemma RefreshKeepsSound(s: Setting, b: Book, key: PgKey, info: PortInfo)
    requires b.Sound() && key in b.pgs
    ensures s.Refresh(b, key, info).book.Sound() && (b.Regular() ==> s.Refresh(b, key, info).book.Regular())
  {
    var pg := b.pgs[key];
    assert b.Regular() && (!pg.dynamic || pg.staticConfigured) ==> b.IsStatic(pg.configured) && b.Exact(pg.configured);
    TouchKeepsSound(b, pg.configured);
    if !pg.dynamic {
      PlaceKeepsSound(s, b.Touch(pg.configured), key, pg.configured);
    } else if s.TakesAway(pg, info) {
      UnassignKeepsSound(b, key);
    } else if info.state == Ready {
      var looked := if pg.staticConfigured then b.Touch(pg.configured) else b;
      var threshold := s.Threshold(pg, looked.profiles);
      var name, created := s.NameFor(info.params, threshold), s.Created(info.params, threshold);
      if name in looked.profiles {
        PlaceKeepsSound(s, looked, key, name);
      } else if s.poolMode == "" {
        TouchKeepsSound(looked, name);
      } else {
        AllocateKeepsSound(looked, name, created, RowOf(created, s.poolMode));
        PlaceKeepsSound(s, looked.Allocate(name, created, RowOf(created, s.poolMode)), key, name);
      }
    }
  }

  lemma PlaceKeepsSound(s: Setting, b: Book, key: PgKey, name: string)
    requires b.Sound() && key in b.pgs && name in b.profiles
    ensures s.Place(b, key, name).book.Sound() && (b.Regular() ==> s.Place(b, key, name).book.Regular())
  {
    ReleaseKeepsSound(b, {name});
    AssignKeepsSound(b, key, name);
  }

  /** A retry is asked for only without a pool mode, and a failure means that something does not fit. */
  lemma RefreshOutcome(s: Setting, b: Book, key: PgKey, info: PortInfo)
    requires key in b.pgs
    ensures var t := s.Refresh(b, key, info);
            && t.book.pgs.Keys == b.pgs.Keys && (t.status == NeedRetry ==> s.poolMode == "")
            && (t.status == Failed ==> exists name, h :: !s.fits(key.port, name, h, key))
  {
    var pg := b.pgs[key];
    if !pg.dynamic {
      PlaceOutcome(s, b.Touch(pg.configured), key, pg.configured);
    } else if info.state == Ready && !s.TakesAway(pg, info) {
      var looked := if pg.staticConfigured then b.Touch(pg.configured) else b;
      var threshold := s.Threshold(pg, looked.profiles);
      var name, created := s.NameFor(info.params, threshold), s.Created(info.params, threshold);
      if name in looked.profiles {
        PlaceOutcome(s, looked, key, name);
      } else {
        PlaceOutcome(s, looked.Allocate(name, created, RowOf(created, s.poolMode)), key, name);
      }
    }
  }

  lemma PlaceOutcome(s: Setting, b: Book, key: PgKey, name: string)
    requires key in b.pgs && name in b.profiles
    ensures var t := s.Place(b, key, name);
            && t.book.pgs.Keys == b.pgs.Keys && t.status != NeedRetry
            && (t.status == Failed ==> !s.fits(key.port, name, b.profiles[name].headroom, key))
  {
  }

  /** The goal of one group, and the profile allocated for it should that not exist. */
  ghost predicate GoalIs(s: Setting, b0: Book, info: PortInfo, goal: map<PgKey, string>, made: map<PgKey, Profile>,
                         key: PgKey)
    requires key in b0.pgs
  {
    && s.Goal(b0.pgs[key], b0.profiles, info) == (if key in goal then Some(goal[key]) else None)
    && (b0.pgs[key].dynamic ==>
          key in made && made[key] == s.Created(info.params, s.Threshold(b0.pgs[key], b0.profiles)))
  }

  predicate Matches(b0: Book, port: string, exact: Option<PgKey>, key: PgKey) {
    key in b0.pgs && key.port == port && (exact.None? || exact == Some(key))
  }

  /** The configured profile a refresh of the group looks up, if any, is cached. */
  predicate Known(s: Setting, b0: Book, info: PortInfo, key: PgKey)
    requires key in b0.pgs
  {
    var name := s.LooksUp(b0.pgs[key], info);
    name.Some? ==> name.value in b0.profiles && name.value != ""
  }

  ghost predicate AllKnown(s: Setting, b0: Book, port: string, info: PortInfo, exact: Option<PgKey>) {
    forall k {:trigger Known(s, b0, info, k)} :: Matches(b0, port, exact, k) ==> Known(s, b0, info, k)
  }

  /** The goals of all groups a refresh looks at. */
  ghost predicate Plan(s: Setting, b0: Book, port: string, info: PortInfo, exact: Option<PgKey>,
                       goal: map<PgKey, string>, made: map<PgKey, Profile>) {
    && (forall k <- goal.Keys :: Matches(b0, port, exact, k))
    && (forall k {:trigger GoalIs(s, b0, info, goal, made, k)} ::
          Matches(b0, port, exact, k) ==> GoalIs(s, b0, info, goal, made, k))
  }

  lemma PlanExists(s: Setting, b0: Book, port: string, info: PortInfo, exact: Option<PgKey>)
    returns (goal: map<PgKey, string>, made: map<PgKey, Profile>)
    ensures Plan(s, b0, port, info, exact, goal, made)
  {
    goal := map k | k in b0.pgs && Matches(b0, port, exact, k) && s.Goal(b0.pgs[k], b0.profiles, info).Some?
      :: s.Goal(b0.pgs[k], b0.profiles, info).value;
    made := map k | k in b0.pgs && Matches(b0, port, exact, k) && b0.pgs[k].dynamic
      :: s.Created(info.params, s.Threshold(b0.pgs[k], b0.profiles));
  }

  /** Configured thresholds do not change during a refresh. */
  lemma SameThreshold(s: Setting, b0: Book, b: Book, goal: map<PgKey, string>, made: map<PgKey, Profile>,
                      done: set<PgKey>, release: set<string>, pg: Pg)
    requires Progress(b0, b, goal, made, s.poolMode, done, release)
    requires pg.configured in b0.profiles || (pg.dynamic && !pg.staticConfigured)
    ensures s.Threshold(pg, b.profiles) == s.Threshold(pg, b0.profiles)
    ensures pg.configured in b0.profiles ==> pg.configured in b.profiles
  {
    if pg.configured in b0.profiles {
      assert Carried(b0, b, goal, made, s.poolMode, done, release, pg.configured);
      assert b.profiles[pg.configured].(pgs := {}) == b0.profiles[pg.configured].(pgs := {});
    }
  }

  /** One more group reaches its goal. */
  lemma RefreshReaches(s: Setting, b0: Book, b: Book, info: PortInfo,
                       goal: map<PgKey, string>, made: map<PgKey, Profile>,
                       done: set<PgKey>, release: set<string>, key: PgKey)
    requires b0.Sound() && b.Sound() && Progress(b0, b, goal, made, s.poolMode, done, release)
    requires key in b0.pgs && key !in done && GoalIs(s, b0, info, goal, made, key) && Known(s, b0, info, key)
    ensures key in b.pgs && b.pgs[key] == b0.pgs[key]
    ensures var t := s.Refresh(b, key, info);
            t.status == Success ==>
              Progress(b0, t.book, goal, made, s.poolMode,
                       if key in goal then done + {key} else done, release + t.release)
  {
    assert Reached(b0, b, goal, done, key) && release + {} == release;
    var pg := b0.pgs[key];
    if s.TakesAway(pg, info) {
      if pg.running != "" {
        TakeAwayKeeps(b0, b, goal, made, s.poolMode, done, release, key);
      }
    } else if key in goal {
      SameThreshold(s, b0, b, goal, made, done, release, pg);
      if goal[key] in b.profiles {
        PreparedByFinding(b0, b, goal, made, s.poolMode, done, release, key);
        MoveKeeps(b0, b, goal, made, s.poolMode, done, release, key);
      } else if s.poolMode != "" {
        PreparedByAllocate(b0, b, goal, made, s.poolMode, done, release, key);
        AllocateKeepsSound(b, goal[key], made[key], RowOf(made[key], s.poolMode));
        MoveKeeps(b0, b.Allocate(goal[key], made[key], RowOf(made[key], s.poolMode)), goal, made, s.poolMode, done,
                  release, key);
      }
    }
  }

  // ---------- a configured profile that is gone ----------

  /** No dynamic profile for these parameters has the name. */
  ghost predicate NeverDynamic(s: Setting, info: PortInfo, name: string) {
    forall threshold {:trigger s.NameFor(info.params, threshold)} :: s.NameFor(info.params, threshold) != name
  }

  /** The profile has no row, and if it is cached it is not a configured one. */
  predicate Unfinished(b: Book, name: string) {
    name !in b.profileRows && (name in b.profiles ==> !b.profiles[name].staticConfigured)
  }

  /** A refresh that looks up a profile that is gone leaves an empty one behind, which nothing publishes. */
  lemma RefreshLeavesBehind(s: Setting, b: Book, key: PgKey, info: PortInfo, name: string)
    requires key in b.pgs && Unfinished(b, name) && NeverDynamic(s, info, name) && name != ""
    requires s.Refresh(b, key, info).status == Success
    ensures var t := s.Refresh(b, key, info);
            && Unfinished(t.book, name) && t.release <= {b.pgs[key].running}
            && (name in b.profiles || s.LooksUp(b.pgs[key], info) == Some(name) ==> name in t.book.profiles)
  {
    var pg := b.pgs[key];
    var touched := b.Touch(pg.configured);
    if !pg.dynamic {
      PlaceLeavesBehind(s, touched, key, pg.configured, name);
    } else if info.state == Ready && !s.TakesAway(pg, info) {
      var looked := if pg.staticConfigured then touched else b;
      var threshold := s.Threshold(pg, looked.profiles);
      var created := s.Created(info.params, threshold);
      assert s.NameFor(info.params, threshold) != name;
      if s.NameFor(info.params, threshold) in looked.profiles {
        PlaceLeavesBehind(s, looked, key, s.NameFor(info.params, threshold), name);
      } else {
        PlaceLeavesBehind(s, looked.Allocate(s.NameFor(info.params, threshold), created, RowOf(created, s.poolMode)),
                          key, s.NameFor(info.params, threshold), name);
      }
    }
  }

  lemma PlaceLeavesBehind(s: Setting, b: Book, key: PgKey, placed: string, name: string)
    requires key in b.pgs && placed in b.profiles && Unfinished(b, name)
    requires s.Place(b, key, placed).status == Success
    ensures var t := s.Place(b, key, placed);
            && Unfinished(t.book, name) && t.release <= {b.pgs[key].running}
            && (name in b.profiles ==> name in t.book.profiles)
  {
  }

  /** A group whose configured profile is gone. */
  ghost predicate LooksForGone(s: Setting, b0: Book, info: PortInfo, key: PgKey, gone: string) {
    && key in b0.pgs && s.LooksUp(b0.pgs[key], info) == Some(gone)
    && gone !in b0.profiles && gone !in b0.profileRows && gone != "" && NeverDynamic(s, info, gone)
  }

  predicate Untouched(b0: Book, b: Book, key: PgKey) {
    key in b.pgs && key in b0.pgs && b.pgs[key] == b0.pgs[key]
  }

  /** The empty profile created for a group, unless the group is still to come, is unpublished and is not released. */
  ghost predicate LeavesBehind(b0: Book, b: Book, key: PgKey, gone: string, todo: set<PgKey>, release: set<string>) {
    && Unfinished(b, gone) && gone !in release && (key in todo || gone in b.profiles)
    && forall k {:trigger Untouched(b0, b, k)} :: k in todo ==> Untouched(b0, b, k)
  }

  lemma StillLeavesBehind(s: Setting, b0: Book, b: Book, info: PortInfo, key: PgKey, gone: string, todo: set<PgKey>,
                          release: set<string>, next: PgKey)
    requires b0.Sound() && LooksForGone(s, b0, info, key, gone) && LeavesBehind(b0, b, key, gone, todo, release)
    requires next in todo && next in b.pgs && s.Refresh(b, next, info).status == Success
    ensures var t := s.Refresh(b, next, info); LeavesBehind(b0, t.book, key, gone, todo - {next}, release + t.release)
  {
    var t := s.Refresh(b, next, info);
    assert Untouched(b0, b, next) && b0.Listed(next);
    RefreshLeavesBehind(s, b, next, info, gone);
    forall k | k in todo - {next} ensures Untouched(b0, t.book, k) {
      assert Untouched(b0, b, k);
    }
  }

  ghost predicate SomeGone(s: Setting, b0: Book, port: string, info: PortInfo, exact: Option<PgKey>) {
    exists k {:trigger Known(s, b0, info, k)} ::
      Matches(b0, port, exact, k) && LooksForGone(s, b0, info, k, b0.pgs[k].configured)
  }

  lemma PickGone(s: Setting, b0: Book, port: string, info: PortInfo, exact: Option<PgKey>) returns (k: PgKey)
    requires SomeGone(s, b0, port, info, exact)
    ensures Matches(b0, port, exact, k) && LooksForGone(s, b0, info, k, b0.pgs[k].configured)
  {
    k :| Matches(b0, port, exact, k) && LooksForGone(s, b0, info, k, b0.pgs[k].configured);
  }

  lemma UnknownIsGone(s: Setting, b0: Book, port: string, info: PortInfo, exact: Option<PgKey>)
    requires NamesApart(s, b0, port, info, exact)
    ensures AllKnown(s, b0, port, info, exact) || SomeGone(s, b0, port, info, exact)
  {
    if !AllKnown(s, b0, port, info, exact) {
      var k :| Matches(b0, port, exact, k) && !Known(s, b0, info, k);
      assert LooksForGone(s, b0, info, k, b0.pgs[k].configured);
    }
  }

  /** The configured names are those of no dynamic profile, and no row is left of a profile that is gone. */
  ghost predicate NamesApart(s: Setting, b0: Book, port: string, info: PortInfo, exact: Option<PgKey>) {
    forall k {:trigger Known(s, b0, info, k)} :: Matches(b0, port, exact, k) ==>
      Known(s, b0, info, k) || LooksForGone(s, b0, info, k, b0.pgs[k].configured)
  }

  class BufferManager {
    const platform: string
    const model: nat

    /** The vendor's plugins: the headroom for some parameters, and whether a group still fits on its port. */
    const plugin: Params -> Headroom
    const fits: (string, string, Headroom, PgKey) -> bool

    var poolReady: bool
    var poolMode: string
    var defaultThreshold: string
    var pending: bool
    var ports: map<string, PortInfo>
    var pgs: map<PgKey, Pg>
    var profiles: map<string, Profile>

    /** APPL_DB. */
    var pgRows: map<PgKey, string>
    var profileRows: map<string, Row>

    constructor (platform: string, model: nat, plugin: Params -> Headroom,
                 fits: (string, string, Headroom, PgKey) -> bool)
      ensures TheBook() == Book(map[], map[], map[], map[]) && TheBook().Regular() && TheBook().NoLeftover()
      ensures ports == map[] && !poolReady && !pending && poolMode == defaultThreshold == ""
      ensures this.platform == platform && this.model == model && this.plugin == plugin && this.fits == fits
    {
      this.platform, this.model, this.plugin, this.fits := platform, model, plugin, fits;
      poolReady, poolMode, defaultThreshold, pending := false, "", "", false;
      ports, pgs, profiles, pgRows, profileRows := map[], map[], map[], map[], map[];
    }

    ghost function TheBook(): Book
      reads this`pgs, this`profiles, this`pgRows, this`profileRows
    {
      Book(pgs, profiles, pgRows, profileRows)
    }

    function TheSetting(): Setting
      reads this`defaultThreshold, this`poolMode
    {
      Setting(plugin, fits, defaultThreshold, poolMode, platform, model)
    }

    /**
      default_dynamic_th in handleDefaultLossLessBufferParam.  A name only tells the
      threshold if it is not the default: profiles that were calculated with the old
      or with the new default are found under the wrong names from then on.
     */
    method SetDefaultThreshold(value: string)
      modifies this`defaultThreshold
      ensures defaultThreshold == value
      ensures old(TheSetting().Named(profiles, {defaultThreshold})) ==>
        (TheSetting().Named(profiles, {value}) <==>
           old(defaultThreshold) == value || NoneWith(profiles, {old(defaultThreshold), value}))
    {
      ghost var s, was := TheSetting(), defaultThreshold;
      defaultThreshold := value;
      if s.Named(profiles, {was}) {
        NamedUnderNew(s, TheSetting(), profiles, was, value);
      }
    }

    /** A profile that cannot be calculated yet stays behind without values. */
    method AllocateProfile(params: Params, threshold: string, name: string) returns (status: Status)
      requires poolReady
      modifies this`profiles, this`profileRows
      ensures status == if name !in old(profiles) && poolMode == "" then NeedRetry else Success
      ensures TheBook() == if name in old(profiles) then old(TheBook())
                           else if poolMode == "" then old(TheBook()).(profiles := old(profiles)[name := NO_PROFILE])
                           else old(TheBook()).Allocate(name, TheSetting().Created(params, threshold),
                                                        RowOf(TheSetting().Created(params, threshold), poolMode))
    {
      if name in profiles {
        return Success;
      }
      profiles := profiles[name := NO_PROFILE];
      if poolMode == "" {
        return NeedRetry;
      }
      var profile := NO_PROFILE.(params := params, pool := LOSSLESS_POOL);
      profile := profile.(headroom := plugin(params));
      profile := profile.(threshold := threshold, staticConfigured := false, lossless := true);
      profiles := profiles[name := profile];
      UpdateProfileRow(name);
      return Success;
    }

    /** updateBufferProfileToDb, once the pools are ready. */
    method UpdateProfileRow(name: string)
      requires name in profiles
      modifies this`profileRows
      ensures profileRows == old(profileRows)[name := RowOf(profiles[name], poolMode)]
    {
      var profile, lossless := profiles[name], None;
      if profile.lossless {
        lossless := Some(profile.headroom);
      }
      profileRows := profileRows[name := Row(lossless, profile.headroom.size, profile.pool, poolMode + "_th",
                                             profile.threshold)];
    }

    /**
      An allocation that came too early is never made good: the next one finds the
      empty profile, and nothing publishes it.
     */
    method AllocateTooEarly(params: Params, threshold: string, name: string, mode: string)
      returns (first: Status, second: Status)
      requires poolReady && poolMode == "" && name !in profiles && name !in profileRows
      modifies this`poolMode, this`profiles, this`profileRows
      ensures first == NeedRetry && second == Success && poolMode == mode
      ensures name in profiles && profiles[name] == NO_PROFILE && name !in profileRows
    {
      first := AllocateProfile(params, threshold, name);
      poolMode := mode;
      second := AllocateProfile(params, threshold, name);
    }

    method ReleaseProfile(name: string)
      modifies this`profiles, this`profileRows
      ensures TheBook() == old(TheBook()).Release({name})
    {
      ghost var before := TheBook();
      if name !in profiles {
        profiles := profiles[name := NO_PROFILE];
      }
      if profiles[name].staticConfigured || profiles[name].pgs != {} {
        assert profiles == before.Release({name}).profiles && profileRows == before.Release({name}).profileRows;
        return;
      }
      profileRows := profileRows - {name};
      profiles := profiles - {name};
      assert profiles == before.Release({name}).profiles && profileRows == before.Release({name}).profileRows;
    }

    /** handleBufferProfileTable, DEL: a profile that is referenced stays; `dynamic` is the headroom type it was
     * given. */
    method DeleteProfile(name: string, dynamic: bool) returns (deleted: bool)
      requires TheBook().Sound()
      modifies this`profiles, this`profileRows
      ensures TheBook().Sound() && TheSetting().KeepsNames(old(profiles), profiles)
      ensures deleted <==> name in old(profiles) && old(profiles)[name].pgs == {}
      ensures profiles == if deleted then old(profiles) - {name} else old(profiles)
      ensures profileRows
        == if deleted && !(dynamic && old(profiles)[name].staticConfigured) then old(profileRows) - {name}
           else old(profileRows)
    {
      FewerKeepNames(TheSetting(), profiles, profiles - {name});
      if name !in profiles || profiles[name].pgs != {} {
        return false;
      }
      ghost var before := TheBook();
      if !profiles[name].staticConfigured || !dynamic {
        profileRows := profileRows - {name};
      }
      profiles := profiles - {name};
      forall k | k in pgs ensures TheBook().Listed(k) {
        assert before.Listed(k);
      }
      deleted := true;
    }

    method MoveReference(key: PgKey, name: string)
      requires key in pgs && name in profiles
      requires pgs[key].running != "" ==> pgs[key].running in profiles
      modifies this`pgs, this`profiles, this`pgRows
      ensures TheBook() == old(TheBook()).Assign(key, name)
    {
      ghost var before := TheBook();
      var running := pgs[key].running;
      if name != running {
        profiles := profiles[name := profiles[name].(pgs := profiles[name].pgs + {key})];
        if running != "" {
          profiles := profiles[running := profiles[running].(pgs := profiles[running].pgs - {key})];
        }
        pgs := pgs[key := pgs[key].(running := name)];
      }
      pgRows := pgRows[key := name];
      assert pgs == before.Assign(key, name).pgs;
      assert profiles == before.Assign(key, name).profiles;
    }

    /** The cable is gone: a lossless group loses its profile. */
    method RemoveLossless(key: PgKey)
      requires key in pgs && pgs[key].running != ""
      modifies this`pgs, this`profiles, this`pgRows
      ensures TheBook() == old(TheBook()).Unassign(key)
    {
      ghost var before := TheBook();
      var running := pgs[key].running;
      if running in profiles {
        profiles := profiles[running := profiles[running].(pgs := profiles[running].pgs - {key})];
      }
      pgRows := pgRows - {key};
      pgs := pgs[key := pgs[key].(running := "")];
      assert profiles == before.Unassign(key).profiles;
    }

    /** m_bufferProfileLookup[name] */
    method LookUp(name: string)
      modifies this`profiles
      ensures TheBook() == old(TheBook()).Touch(name)
    {
      if name !in profiles {
        profiles := profiles[name := NO_PROFILE];
      }
    }

    /** The treatment of one group by refreshPgsForPort; `release` holds its old profile when it moved. */
    method RefreshPg(key: PgKey, info: PortInfo) returns (status: Status, release: set<string>)
      requires poolReady && TheBook().Sound() && key in pgs
      modifies this`pgs, this`profiles, this`pgRows, this`profileRows
      ensures Turn(TheBook(), status, release) == TheSetting().Refresh(old(TheBook()), key, info)
      ensures TheBook().Sound() && (old(TheBook()).Regular() ==> TheBook().Regular())
      ensures TheSetting().KeepsNames(old(profiles), profiles) && OnlyGroup(old(TheBook()), TheBook(), key)
      ensures status == Success ==> TheSetting().Served(TheBook(), info, key)
    {
      RefreshKeepsSound(TheSetting(), TheBook(), key, info);
      RefreshKeepsNames(TheSetting(), TheBook(), key, info);
      RefreshServes(TheSetting(), TheBook(), key, info);
      assert TheBook().Listed(key);
      status, release := TreatPg(key, info);
    }

    method TreatPg(key: PgKey, info: PortInfo) returns (status: Status, release: set<string>)
      requires poolReady && key in pgs && (pgs[key].running != "" ==> pgs[key].running in profiles)
      modifies this`pgs, this`profiles, this`pgRows, this`profileRows
      ensures Turn(TheBook(), status, release) == TheSetting().Refresh(old(TheBook()), key, info)
    {
      release, status := {}, Success;
      var pg := pgs[key];
      var name := pg.configured;
      if pg.dynamic {
        if info.state != Ready {
          return;
        }
        if info.params.cable == "0m" && pg.lossless {
          if pg.running != "" {
            release := {pg.running};
            RemoveLossless(key);
          }
          return;
        }
        var threshold := defaultThreshold;
        if pg.staticConfigured {
          LookUp(pg.configured);
          threshold := profiles[pg.configured].threshold;
        }
        name := DynamicProfileName(info.params, threshold, defaultThreshold, platform, model);
        status := AllocateProfile(info.params, threshold, name);
        if status != Success {
          return;
        }
      }
      status, release := PlaceGroup(key, name);
    }

    /** The second half of the treatment of one group: check that the profile fits, and move the reference. */
    method PlaceGroup(key: PgKey, name: string) returns (status: Status, release: set<string>)
      requires key in pgs && (pgs[key].running != "" ==> pgs[key].running in profiles)
      modifies this`pgs, this`profiles, this`pgRows, this`profileRows
      ensures Turn(TheBook(), status, release) == TheSetting().Place(old(TheBook()).Touch(name), key, name)
    {
      release := {};
      LookUp(name);
      if !fits(key.port, name, profiles[name].headroom, key) {
        ReleaseProfile(name);
        return Failed, release;
      }
      var running := pgs[key].running;
      MoveReference(key, name);
      status, release := Success, if name != running && running != "" then {running} else {};
    }

    /** One more group: what all of them were to reach, and what the group of a profile that is gone leaves behind. */
    method MoveNext(key: PgKey, info: PortInfo, todo: set<PgKey>, ghost b0: Book, ghost goal: map<PgKey, string>,
                    ghost made: map<PgKey, Profile>, ghost known: bool, ghost done: set<PgKey>,
                    ghost released: set<string>,
                    ghost lost: Option<(PgKey, string)>, ghost matched: set<PgKey>)
      returns (status: Status, release: set<string>)
      requires poolReady && b0.Sound() && key in b0.pgs && key in todo - done && key in matched
      requires ServedSoFar(TheSetting(), b0, TheBook(), info, matched, todo)
      requires TheSetting().KeepsNames(b0.profiles, profiles)
      requires MovedSoFar(b0, TheBook(), goal, made, poolMode, known, lost, done, todo, released)
      requires known ==> GoalIs(TheSetting(), b0, info, goal, made, key) && Known(TheSetting(), b0, info, key)
      requires lost.Some? ==> LooksForGone(TheSetting(), b0, info, lost.value.0, lost.value.1)
      modifies this`pgs, this`profiles, this`pgRows, this`profileRows
      ensures TheBook().Sound() && (b0.Regular() ==> TheBook().Regular())
      ensures TheSetting().KeepsNames(b0.profiles, profiles)
      ensures status == Success ==> ServedSoFar(TheSetting(), b0, TheBook(), info, matched, todo - {key})
      ensures status == Success ==>
        MovedSoFar(b0, TheBook(), goal, made, poolMode, known, lost, if key in goal then done + {key} else done,
                   todo - {key}, released + release)
      ensures status == NeedRetry ==> poolMode == ""
      ensures status == Failed ==> !Accepts(key.port)
    {
      ghost var s, before := TheSetting(), TheBook();
      if known {
        RefreshReaches(s, b0, before, info, goal, made, done, released, key);
      }
      status, release := RefreshPg(key, info);
      if status == Success {
        ServedNext(s, b0, before, TheBook(), info, matched, todo, key);
      }
      if status == Success && lost.Some? {
        StillLeavesBehind(s, b0, before, info, lost.value.0, lost.value.1, todo, released, key);
      }
      RefreshOutcome(s, before, key, info);
    }

    method MoveAll(port: string, info: PortInfo, exact: Option<PgKey>, ghost lost: Option<(PgKey, string)>)
      returns (status: Status, release: set<string>)
      requires poolReady && TheBook().Sound()
      requires lost.Some? ==> Matches(TheBook(), port, exact, lost.value.0)
                              && LooksForGone(TheSetting(), TheBook(), info, lost.value.0, lost.value.1)
      modifies this`pgs, this`profiles, this`pgRows, this`profileRows
      ensures TheBook().Sound() && (old(TheBook()).Regular() ==> TheBook().Regular())
      ensures TheSetting().KeepsNames(old(profiles), profiles)
      ensures status == Success ==>
        ServedSoFar(TheSetting(), old(TheBook()), TheBook(), info, Matching(old(TheBook()), port, exact), {})
      ensures status == Success && AllKnown(TheSetting(), old(TheBook()), port, info, exact) ==>
        AllMoved(TheSetting(), old(TheBook()), TheBook(), port, info, exact, release)
      ensures status == Success && lost.Some? ==>
        LeavesBehind(old(TheBook()), TheBook(), lost.value.0, lost.value.1, {}, release)
      ensures status == NeedRetry ==> poolMode == ""
      ensures status == Failed ==> !Accepts(port)
    {
      ghost var b0 := TheBook();
      ghost var goal, made := PlanExists(TheSetting(), b0, port, info, exact);
      ProgressAtStart(b0, goal, made, poolMode);
      var matched := set k | k in pgs && k.port == port && (exact.None? || exact == Some(k));
      assert forall k :: k in matched <==> Matches(b0, port, exact, k);
      assert matched == Matching(b0, port, exact);
      ghost var known := AllKnown(TheSetting(), b0, port, info, exact);
      status, release := MoveEach(port, matched, info, b0, goal, made, known, lost);
    }

    /** The loop of refreshPgsForPort over the groups of the port. */
    method MoveEach(port: string, matched: set<PgKey>, info: PortInfo, ghost b0: Book,
                    ghost goal: map<PgKey, string>, ghost made: map<PgKey, Profile>, ghost known: bool,
                    ghost lost: Option<(PgKey, string)>)
      returns (status: Status, release: set<string>)
      requires poolReady && TheBook() == b0 && b0.Sound()
      requires goal.Keys <= matched <= b0.pgs.Keys && forall k <- matched :: k.port == port
      requires forall k {:trigger GoalIs(TheSetting(), b0, info, goal, made, k)} ::
        k in matched ==> GoalIs(TheSetting(), b0, info, goal, made, k)
      requires known ==>
        forall k {:trigger Known(TheSetting(), b0, info, k)} :: k in matched ==> Known(TheSetting(), b0, info, k)
      requires lost.Some? ==>
        lost.value.0 in matched && LooksForGone(TheSetting(), b0, info, lost.value.0, lost.value.1)
      requires Progress(b0, b0, goal, made, poolMode, {}, {})
      modifies this`pgs, this`profiles, this`pgRows, this`profileRows
      ensures TheBook().Sound() && (b0.Regular() ==> TheBook().Regular())
      ensures TheSetting().KeepsNames(b0.profiles, profiles)
      ensures status == Success ==> ServedSoFar(TheSetting(), b0, TheBook(), info, matched, {})
      ensures status == Success && known ==> Progress(b0, TheBook(), goal, made, poolMode, goal.Keys, release)
      ensures status == Success && lost.Some? ==> LeavesBehind(b0, TheBook(), lost.value.0, lost.value.1, {}, release)
      ensures status == NeedRetry ==> poolMode == ""
      ensures status == Failed ==> !Accepts(port)
    {
      release := {};
      ghost var done: set<PgKey> := {};
      ServedAtStart(TheSetting(), b0, info, matched);
      var todo := matched;
      while todo != {}
        invariant todo <= matched && done !! todo && goal.Keys <= done + todo && done <= goal.Keys
        invariant MovedSoFar(b0, TheBook(), goal, made, poolMode, known, lost, done, todo, release)
        invariant ServedSoFar(TheSetting(), b0, TheBook(), info, matched, todo)
        invariant TheSetting().KeepsNames(b0.profiles, profiles)
        decreases todo
      {
        var key :| key in todo;
        var more;
        assert GoalIs(TheSetting(), b0, info, goal, made, key);
        status, more := MoveNext(key, info, todo, b0, goal, made, known, done, release, lost, matched);
        if status != Success {
          return;
        }
        release := release + more;
        todo, done := todo - {key}, if key in goal then done + {key} else done;
      }
      assert done == goal.Keys;
      status := Success;
    }

    method ReleaseAll(release: set<string>)
      requires TheBook().Sound()
      modifies this`profiles, this`profileRows
      ensures TheBook() == old(TheBook()).Release(release) && TheBook().Sound()
      ensures old(TheBook()).Regular() ==> TheBook().Regular()
    {
      ghost var b0 := TheBook();
      ReleaseKeepsSound(b0, release);
      ReleaseNothing(b0);
      ghost var done: set<string> := {};
      var todo := release;
      while todo != {}
        invariant done + todo == release && TheBook() == b0.Release(done)
        decreases todo
      {
        var name :| name in todo;
        ReleaseOneMore(b0, done, name);
        ReleaseProfile(name);
        todo, done := todo - {name}, done + {name};
      }
      assert done == release;
    }

    /**
      refreshPgsForPort.  However it ends, every running profile is cached and lists
      its group.  When it succeeds and finds every configured profile it looks up,
      each group has reached its goal, and what became idle is gone.  A configured
      profile that is gone is exactly what makes it leave one behind.
     */
    method RefreshPgsForPort(port: string, speed: string, cable: string, mtu: string, exact: Option<PgKey>)
      returns (status: Status, ghost moved: Book, release: set<string>)
      requires TheBook().Sound()
      modifies this`pending, this`ports, this`pgs, this`profiles, this`pgRows, this`profileRows
      ensures TheBook().Sound() && (old(TheBook()).Regular() ==> TheBook().Regular())
      ensures ports == if port in old(ports) then old(ports) else old(ports)[port := NO_PORT]
      ensures !old(Refreshable(port)) ==> status == Success && TheBook() == old(TheBook())
      ensures pending ==
        (old(pending) || (!old(Refreshable(port)) && port in old(ports) && old(ports)[port].state != AdminDown))
      ensures TheSetting().KeepsNames(old(profiles), profiles)
      ensures status == Success && old(Refreshable(port)) ==>
        ServedSoFar(TheSetting(), old(TheBook()), TheBook(), RefreshInfo(port, speed, cable, mtu),
                    Matching(old(TheBook()), port, exact), {})
      ensures status == Success && old(Refreshable(port)) ==> var info := RefreshInfo(port, speed, cable, mtu);
        && (AllKnown(TheSetting(), old(TheBook()), port, info, exact) ==>
              && AllMoved(TheSetting(), old(TheBook()), moved, port, info, exact, release)
              && moved.Sound() && TheBook() == moved.Release(release)
              && (old(TheBook()).NoLeftover() ==> TheBook().NoLeftover()))
        && (SomeGone(TheSetting(), old(TheBook()), port, info, exact) ==> !TheBook().NoLeftover())
        && (old(TheBook()).NoLeftover() && NamesApart(TheSetting(), old(TheBook()), port, info, exact) ==>
              (TheBook().NoLeftover() <==> AllKnown(TheSetting(), old(TheBook()), port, info, exact)))
      ensures status == NeedRetry ==> poolMode == ""
      ensures status == Failed ==> !Accepts(port)
    {
      release, moved, status := {}, TheBook(), Success;
      if port !in ports {
        ports := ports[port := NO_PORT];
      }
      if ports[port].state == AdminDown {
        return;
      }
      if !poolReady || defaultThreshold == "" {
        pending := true;
        return;
      }
      ghost var s, b0, info := TheSetting(), TheBook(), RefreshInfo(port, speed, cable, mtu);
      var params := ports[port].params.(speed := speed, cable := cable, mtu := mtu);
      status, moved, release := RefreshAll(port, ports[port].(params := params), exact);
      if NamesApart(s, b0, port, info, exact) {
        UnknownIsGone(s, b0, port, info, exact);
      }
    }

    /** The groups of a port that may be refreshed. */
    method RefreshAll(port: string, info: PortInfo, exact: Option<PgKey>)
      returns (status: Status, ghost moved: Book, release: set<string>)
      requires TheBook().Sound() && poolReady
      modifies this`pgs, this`profiles, this`pgRows, this`profileRows
      ensures TheBook().Sound() && (old(TheBook()).Regular() ==> TheBook().Regular())
      ensures TheSetting().KeepsNames(old(profiles), profiles)
      ensures status == Success ==>
        && ServedSoFar(TheSetting(), old(TheBook()), TheBook(), info, Matching(old(TheBook()), port, exact), {})
        && (AllKnown(TheSetting(), old(TheBook()), port, info, exact) ==>
              && AllMoved(TheSetting(), old(TheBook()), moved, port, info, exact, release)
              && moved.Sound() && TheBook() == moved.Release(release)
              && (old(TheBook()).NoLeftover() ==> TheBook().NoLeftover()))
        && (SomeGone(TheSetting(), old(TheBook()), port, info, exact) ==> !TheBook().NoLeftover())
      ensures status == NeedRetry ==> poolMode == ""
      ensures status == Failed ==> !Accepts(port)
    {
      ghost var s, b0 := TheSetting(), TheBook();
      ghost var lost := None;
      if SomeGone(s, b0, port, info, exact) {
        ghost var k := PickGone(s, b0, port, info, exact);
        lost := Some((k, b0.pgs[k].configured));
      }
      status, release := MoveAll(port, info, exact, lost);
      moved := TheBook();
      if status == Success {
        if b0.NoLeftover() && AllKnown(s, b0, port, info, exact) {
          AllMovedNoLeftover(s, b0, moved, port, info, exact, release);
        }
        ServedAfterRelease(s, b0, moved, info, Matching(b0, port, exact), release);
        ReleaseAll(release);
        if lost.Some? {
          assert lost.value.1 in profiles && lost.value.1 !in profileRows;
        }
      }
    }

    /** fetchZeroProfileFromNormalProfile */
    method FetchZeroProfile(zeroProfiles: map<string, string>, profile: string) returns (zero: string)
      ensures zero == ZeroIn(profiles, zeroProfiles, profile)
    {
      var pool := LOSSLESS_POOL;
      if profile in profiles {
        pool := profiles[profile].pool;
      }
      zero := "";
      if pool in zeroProfiles {
        zero := zeroProfiles[pool];
      }
    }

    method ReclaimPg(key: PgKey, zero: string)
      requires key in pgs && (pgs[key].running != "" ==> pgs[key].running in profiles)
      modifies this`pgs, this`profiles, this`pgRows
      ensures TheBook() == old(TheBook()).Reclaim(key, zero)
    {
      var running := pgs[key].running;
      OneListLess(TheBook(), key);
      pgRows := if zero != "" then pgRows[key := zero] else pgRows - {key};
      if running != "" {
        profiles := profiles[running := profiles[running].(pgs := profiles[running].pgs - {key})];
        pgs := pgs[key := pgs[key].(running := "")];
      }
    }

    /** reclaimReservedBufferForPort for the priority groups of a port, all of whose ids may be zeroed. */
    method ReclaimPgs(port: string, zeroProfiles: map<string, string>)
      returns (ghost cleared: Book, release: set<string>)
      requires TheBook().Sound()
      modifies this`pgs, this`profiles, this`pgRows, this`profileRows
      ensures TheSetting().KeepsNames(old(profiles), profiles)
      ensures TheBook().Sound() && (old(TheBook()).Regular() ==> TheBook().Regular())
      ensures Reclaimed(old(TheBook()), cleared, PgsOf(old(pgs), port))
      ensures release == RunningIn(old(pgs), PgsOf(old(pgs), port)) && TheBook() == cleared.Release(release)
      ensures ZeroRows(old(TheBook()), pgRows, zeroProfiles, PgsOf(old(pgs), port))
    {
      ghost var b0 := TheBook();
      release := ReclaimEach(PgsOf(pgs, port), zeroProfiles);
      cleared := TheBook();
      ReleaseAll(release);
      ReclaimedKeepsNames(TheSetting(), b0, cleared, PgsOf(b0.pgs, port), release);
    }

    /** The loop of reclaimReservedBufferForPort. */
    method ReclaimEach(keys: set<PgKey>, zeroProfiles: map<string, string>) returns (release: set<string>)
      requires TheBook().Sound() && keys <= pgs.Keys
      modifies this`pgs, this`profiles, this`pgRows
      ensures TheBook().Sound() && (old(TheBook()).Regular() ==> TheBook().Regular())
      ensures Reclaimed(old(TheBook()), TheBook(), keys)
      ensures ZeroRows(old(TheBook()), pgRows, zeroProfiles, keys)
      ensures release == RunningIn(old(pgs), keys)
    {
      ghost var b0 := TheBook();
      release := {};
      ghost var done: set<PgKey> := {};
      var todo := keys;
      while todo != {}
        invariant done !! todo && done + todo == keys
        invariant TheBook().Sound() && (b0.Regular() ==> TheBook().Regular())
        invariant Reclaimed(b0, TheBook(), done) && ZeroRows(b0, pgRows, zeroProfiles, done)
        invariant release == RunningIn(b0.pgs, done)
        decreases todo
      {
        var key :| key in todo;
        var running := ReclaimNext(key, zeroProfiles, b0, done);
        release := release + running;
        todo, done := todo - {key}, done + {key};
      }
      assert done == keys;
    }

    method ReclaimNext(key: PgKey, zeroProfiles: map<string, string>, ghost b0: Book, ghost done: set<PgKey>)
      returns (running: set<string>)
      requires TheBook().Sound() && key in b0.pgs && key !in done && Reclaimed(b0, TheBook(), done)
      requires ZeroRows(b0, pgRows, zeroProfiles, done)
      modifies this`pgs, this`profiles, this`pgRows
      ensures TheBook().Sound() && (old(TheBook()).Regular() ==> TheBook().Regular())
      ensures Reclaimed(b0, TheBook(), done + {key}) && ZeroRows(b0, pgRows, zeroProfiles, done + {key})
      ensures running == if b0.pgs[key].running != "" then {b0.pgs[key].running} else {}
    {
      var zero := FetchZeroProfile(zeroProfiles, pgs[key].running);
      assert Stopped(b0, TheBook(), done, key) && Unlisted(b0, TheBook(), done, pgs[key].running);
      assert zero == ZeroIn(b0.profiles, zeroProfiles, b0.pgs[key].running);
      running := if pgs[key].running != "" then {pgs[key].running} else {};
      ReclaimKeeps(b0, TheBook(), done, key, zero);
      ghost var rows := pgRows;
      ReclaimPg(key, zero);
      forall k | k in done + {key} && k in b0.pgs
        ensures RowAt(pgRows, k) == ZeroRow(ZeroIn(b0.profiles, zeroProfiles, b0.pgs[k].running))
      {
        if k != key { assert RowAt(pgRows, k) == RowAt(rows, k); }
      }
    }

    /**
      The configuration removes a static profile while the only port that uses it is
      down: nothing holds the profile back, and the start-up refresh of the port, which
      succeeds when the pool has a mode and the profiles fit, leaves an empty profile
      in its place.
     */
    method DeleteWhileDown(port: string, key: PgKey, zeroProfiles: map<string, string>)
      returns (deleted: bool, status: Status)
      requires TheBook().Sound() && Refreshable(port) && key in pgs && key.port == port && !pgs[key].dynamic
      requires TheBook().IsStatic(pgs[key].configured) && pgs[key].configured != ""
      requires forall k <- profiles[pgs[key].configured].pgs ::
        k.port == port && k in pgs && pgs[k].running == pgs[key].configured
      requires NeverDynamic(TheSetting(), ports[port], pgs[key].configured)
      modifies this`pending, this`ports, this`pgs, this`profiles, this`pgRows, this`profileRows
      ensures TheBook().Sound() && deleted && (status == Success ==> !TheBook().NoLeftover())
      ensures poolMode != "" && Accepts(port) ==> status == Success
    {
      ghost var info, name := ports[port], pgs[key].configured;
      var state := ports[port].state;
      ports := ports[port := ports[port].(state := AdminDown)];
      deleted := ReclaimAndDelete(port, key, zeroProfiles);
      ports := ports[port := ports[port].(state := state)];
      var params := ports[port].params;
      assert ports[port] == info && LooksForGone(TheSetting(), TheBook(), info, key, name);
      assert Matches(TheBook(), port, None, key) && (Known(TheSetting(), TheBook(), info, key) || true);
      ghost var moved;
      var idle;
      status, moved, idle := RefreshPgsForPort(port, params.speed, params.cable, params.mtu, None);
    }

    method ReclaimAndDelete(port: string, key: PgKey, zeroProfiles: map<string, string>) returns (deleted: bool)
      requires port in ports && ports[port].state == AdminDown
      requires TheBook().Sound() && key in pgs && key.port == port && TheBook().IsStatic(pgs[key].configured)
      requires forall k <- profiles[pgs[key].configured].pgs ::
        k.port == port && k in pgs && pgs[k].running == pgs[key].configured != ""
      modifies this`pgs, this`profiles, this`pgRows, this`profileRows
      ensures TheBook().Sound() && deleted && key in pgs && pgs[key] == old(pgs)[key].(running := "")
      ensures pgs[key].configured !in profiles && pgs[key].configured !in profileRows
    {
      ghost var b0 := TheBook();
      var name := pgs[key].configured;
      ghost var cleared, release := ReclaimPgs(port, zeroProfiles);
      assert Unlisted(b0, cleared, PgsOf(b0.pgs, port), name) && Stopped(b0, cleared, PgsOf(b0.pgs, port), key);
      assert cleared.profiles[name].(pgs := {}) == b0.profiles[name].(pgs := {});
      assert profiles[name].pgs == {};
      deleted := DeleteProfile(name, false);
    }

    /** The check plugin lets every group of the port have any headroom. */
    ghost predicate Accepts(port: string) {
      forall name: string, h: Headroom, k: PgKey | k.port == port :: fits(port, name, h, k)
    }

    predicate Refreshable(port: string)
      reads this
    {
      port in ports && ports[port].state != AdminDown && poolReady && defaultThreshold != ""
    }

    function RefreshInfo(port: string, speed: string, cable: string, mtu: string): PortInfo
      reads this`ports
      requires port in ports
    {
      ports[port].(params := ports[port].params.(speed := speed, cable := cable, mtu := mtu))
    }
  }

  /** A ready port with one group that runs a static profile. */
  method PortWithOverride() returns (m: BufferManager, key: PgKey)
    ensures fresh(m) && m.TheBook().Sound() && m.Refreshable("Ethernet0") && m.poolMode != "" && m.Accepts("Ethernet0")
    ensures key in m.pgs && key.port == "Ethernet0"
    ensures m.pgs[key] == Pg(false, true, true, "headroom_override", "headroom_override")
    ensures m.TheBook().IsStatic("headroom_override") && m.profiles["headroom_override"].pgs == {key}
  {
    m := new BufferManager("mellanox", 2700, params => NO_HEADROOM, (port, name, h, k) => true);
    var name := "headroom_override";
    key := PgKey("Ethernet0", "3-4");
    m.poolReady, m.poolMode, m.defaultThreshold := true, "dynamic", "0";
    m.ports := map["Ethernet0" := PortInfo(Ready, Params("100000", "5m", DEFAULT_MTU, "", 4))];
    m.profiles := map[name := OneGroup(key)];
    m.pgs := map[key := Pg(false, true, true, name, name)];
    m.pgRows := map[key := name];
    assert m.TheBook().Listed(key);
  }

  function OneGroup(key: PgKey): Profile {
    NO_PROFILE.(staticConfigured := true, lossless := true, pool := LOSSLESS_POOL, pgs := {key})
  }

  /** Its profile is deleted while it is down, and comes back empty. */
  method EmptyProfileLeft() returns (m: BufferManager)
    ensures fresh(m) && m.TheBook().Sound() && !m.TheBook().NoLeftover()
  {
    var key;
    m, key := PortWithOverride();
    var s, info := m.TheSetting(), m.ports["Ethernet0"];
    forall threshold ensures s.NameFor(info.params, threshold) != "headroom_override" {
      StartsWithPg(s, info.params, threshold);
    }
    var deleted, status := m.DeleteWhileDown("Ethernet0", key, map[]);
  }

  /** A ready port whose profile has been calculated under one default threshold, and a group without a profile. */
  method PortWithProfile(port: string, params: Params, threshold: string)
    returns (m: BufferManager, key: PgKey, name: string)
    requires threshold != ""
    ensures fresh(m) && m.TheBook().Sound() && m.Refreshable(port) && m.ports[port] == PortInfo(Ready, params)
    ensures m.poolMode != "" && m.Accepts(port) && m.defaultThreshold == threshold
    ensures key.port == port && m.pgs == map[key := Pg(true, false, true, "", "")]
    ensures name in m.profiles && m.profiles[name].threshold == threshold
    ensures name == m.TheSetting().NameFor(params, threshold)
  {
    m := new BufferManager("mellanox", 2700, params => NO_HEADROOM, (port, name, h, k) => true);
    key := PgKey(port, "3-4");
    m.poolReady, m.poolMode, m.defaultThreshold := true, "dynamic", threshold;
    m.ports := map[port := PortInfo(Ready, params)];
    name := DynamicProfileName(params, threshold, threshold, m.platform, m.model);
    var status := m.AllocateProfile(params, threshold, name);
    m.pgs := map[key := Pg(true, false, true, "", "")];
  }

  /** A group is refreshed after the default threshold has changed, and gets a profile with the old one. */
  method OldThresholdStays(port: string, params: Params) returns (m: BufferManager, key: PgKey)
    requires params.cable != "0m"
    ensures fresh(m) && m.TheBook().Sound() && key in m.pgs && m.pgs[key].running in m.profiles
    ensures m.pgs[key].dynamic && !m.pgs[key].staticConfigured && m.defaultThreshold == "-1"
    ensures m.profiles[m.pgs[key].running].threshold == "0"
  {
    var name;
    m, key, name := PortWithProfile(port, params, "0");
    m.SetDefaultThreshold("-1");
    SameDefaultName(params, "0", "-1", m.platform, m.model);
    RefreshOnce(m, key, name);
  }

  method RefreshOnce(m: BufferManager, key: PgKey, name: string)
    requires m.TheBook().Sound() && m.Refreshable(key.port) && m.ports[key.port].state == Ready
    requires m.poolMode != "" && m.Accepts(key.port) && m.ports[key.port].params.cable != "0m"
    requires key in m.pgs && m.pgs[key] == Pg(true, false, true, "", "") && m.pgs.Keys == {key}
    requires name in m.profiles && name == m.TheSetting().NameFor(m.ports[key.port].params, m.defaultThreshold)
    modifies m`pending, m`ports, m`pgs, m`profiles, m`pgRows, m`profileRows
    ensures m.TheBook().Sound() && key in m.pgs && m.pgs[key] == Pg(true, false, true, "", name)
    ensures name in m.profiles && m.profiles[name].(pgs := {}) == old(m.profiles)[name].(pgs := {})
  {
    ghost var s, b0, info := m.TheSetting(), m.TheBook(), m.ports[key.port];
    var status := Success;
    ghost var moved;
    var release;
    var params := m.ports[key.port].params;
    status, moved, release := m.RefreshPgsForPort(key.port, params.speed, params.cable, params.mtu, None);
    assert key in Matching(b0, key.port, None) && s.Served(m.TheBook(), info, key);
    assert AllKnown(s, b0, key.port, info, None);
    ghost var goal, made :| Plan(s, b0, key.port, info, None, goal, made)
      && Progress(b0, moved, goal, made, s.poolMode, goal.Keys, release);
    assert Matches(b0, key.port, None, key) && GoalIs(s, b0, info, goal, made, key);
    assert Reached(b0, moved, goal, goal.Keys, key);
    assert Carried(b0, moved, goal, made, s.poolMode, goal.Keys, release, name);
    assert m.TheBook().Listed(key);
  }

  lemma StartsWithPg(s: Setting, params: Params, threshold: string)
    ensures s.NameFor(params, threshold)[0] == 'p'
  {
  }

  /** The zero profile of the pool a profile draws on; "" when the pool has none. */
  function ZeroIn(profiles: map<string, Profile>, zeroProfiles: map<string, string>, profile: string): string {
    var pool := if profile in profiles then profiles[profile].pool else LOSSLESS_POOL;
    if pool in zeroProfiles then zeroProfiles[pool] else ""
  }

  /** The row with a zero profile, or none when there is no such profile. */
  function ZeroRow(zero: string): Option<string> {
    if zero == "" then None else Some(zero)
  }

  /** The groups publish the zero profiles of what they ran before. */
  ghost predicate ZeroRows(b0: Book, rows: map<PgKey, string>, zeroProfiles: map<string, string>, keys: set<PgKey>) {
    forall k {:trigger RowAt(rows, k)} :: k in keys && k in b0.pgs ==>
      RowAt(rows, k) == ZeroRow(ZeroIn(b0.profiles, zeroProfiles, b0.pgs[k].running))
  }

  function PgsOf(pgs: map<PgKey, Pg>, port: string): set<PgKey> {
    set k | k in pgs && k.port == port
  }

  function RunningIn(pgs: map<PgKey, Pg>, keys: set<PgKey>): set<string> {
    set k | k in pgs && k in keys && pgs[k].running != "" :: pgs[k].running
  }

  /** What the loop of refreshPgsForPort has done, when the groups in `todo` are still to come. */
  ghost predicate MovedSoFar(b0: Book, b: Book, goal: map<PgKey, string>, made: map<PgKey, Profile>, mode: string,
                             known: bool, lost: Option<(PgKey, string)>, done: set<PgKey>, todo: set<PgKey>,
                             release: set<string>) {
    && b.Sound() && (b0.Regular() ==> b.Regular()) && b.pgs.Keys == b0.pgs.Keys
    && (known ==> Progress(b0, b, goal, made, mode, done, release))
    && (lost.Some? ==> LeavesBehind(b0, b, lost.value.0, lost.value.1, todo, release))
  }

  /** All groups of the port have reached their goals; the old profiles are still to be released. */
  ghost predicate AllMoved(s: Setting, b0: Book, b: Book, port: string, info: PortInfo, exact: Option<PgKey>,
                           release: set<string>) {
    exists goal, made ::
      Plan(s, b0, port, info, exact, goal, made) && Progress(b0, b, goal, made, s.poolMode, goal.Keys, release)
  }

  lemma AllMovedNoLeftover(s: Setting, b0: Book, b: Book, port: string, info: PortInfo, exact: Option<PgKey>,
                           release: set<string>)
    requires AllMoved(s, b0, b, port, info, exact, release) && b0.NoLeftover()
    ensures b.Release(release).NoLeftover()
  {
    var goal, made :|
      Plan(s, b0, port, info, exact, goal, made) && Progress(b0, b, goal, made, s.poolMode, goal.Keys, release);
    NoLeftoverAfter(b0, b, goal, made, s.poolMode, release);
  }

  lemma ReleaseNothing(b: Book)
    ensures b.Release({}) == b
  {
    assert b.Release({}).profiles == b.profiles && b.Release({}).profileRows == b.profileRows;
  }

  lemma ReleaseOneMore(b: Book, names: set<string>, name: string)
    ensures b.Release(names).Release({name}) == b.Release(names + {name})
  {
    var twice, once := b.Release(names).Release({name}), b.Release(names + {name});
    assert twice.profiles == once.profiles;
    assert twice.profileRows == once.profileRows;
  }
}
