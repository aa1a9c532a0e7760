/**
  Shutting a port down and starting it up again: the priority group, queue and
  profile list rows of the port, and the dynamic profiles they name, come back
  as they were.
 */
module PortCycle {
  import opened BufferTypes
  import opened Wrappers
  import opened ProfileAllocator

  // ---------- priority groups and profiles ----------

  /** The profile a group of a ready port runs once everything is applied. */
  function Wanted(s: Setting, b: Book, info: PortInfo, k: PgKey): string
    requires k in b.pgs
  {
    if b.pgs[k].dynamic then s.DynamicName(b.pgs[k], b.profiles, info.params) else b.pgs[k].configured
  }

  /** A group runs what it should, its row says so, and its dynamic profile is as newly calculated. */
  ghost predicate GroupSettled(s: Setting, b: Book, info: PortInfo, k: PgKey) {
    && k in b.pgs && b.pgs[k].running == Wanted(s, b, info, k) && RowAt(b.pgRows, k) == Some(b.pgs[k].running)
    && (b.pgs[k].dynamic ==> b.pgs[k].running in b.profiles && ProfileSettled(s, b, info, k, b.pgs[k].running))
  }

  ghost predicate ProfileSettled(s: Setting, b: Book, info: PortInfo, k: PgKey, p: string)
    requires k in b.pgs && p in b.profiles
  {
    var created := s.Created(info.params, s.Threshold(b.pgs[k], b.profiles));
    !b.profiles[p].staticConfigured ==>
      b.profiles[p].(pgs := {}) == created && ProfileRowAt(b, p) == Some(RowOf(created, s.poolMode))
  }

  ghost predicate Settled(s: Setting, b: Book, port: string, info: PortInfo) {
    && b.Regular() && info.state == Ready && info.params.cable != "0m"
    && (forall k {:trigger GroupSettled(s, b, info, k)} :: k in PgsOf(b.pgs, port) ==> GroupSettled(s, b, info, k))
    && (forall k <- b.pgRows.Keys | k.port == port :: k in b.pgs)
  }

  /** The book while the port is down, after the rows of its unconfigured ids are gone. */
  ghost predicate IsDown(b0: Book, cleared: Book, b1: Book, port: string) {
    && Reclaimed(b0, cleared, PgsOf(b0.pgs, port))
    && b1.pgs == cleared.pgs
    && b1.profiles == cleared.Release(RunningIn(b0.pgs, PgsOf(b0.pgs, port))).profiles
    && b1.profileRows == cleared.Release(RunningIn(b0.pgs, PgsOf(b0.pgs, port))).profileRows
    && (forall k {:trigger RowAt(b1.pgRows, k)} ::
         k !in PgsOf(b0.pgs, port) ==> RowAt(b1.pgRows, k) == RowAt(b0.pgRows, k))
  }

  /** While the port is down a static profile keeps what it holds. */
  lemma StaticStays(b0: Book, cleared: Book, b1: Book, port: string, p: string)
    requires IsDown(b0, cleared, b1, port) && b0.IsStatic(p)
    ensures b1.IsStatic(p) && b1.profiles[p].(pgs := {}) == b0.profiles[p].(pgs := {})
  {
    assert Unlisted(b0, cleared, PgsOf(b0.pgs, port), p);
    assert cleared.profiles[p].(pgs := {}) == b0.profiles[p].(pgs := {});
  }

  /** The start-up refresh aims every group at the profile it ran before. */
  lemma SameGoal(s: Setting, b0: Book, cleared: Book, b1: Book, port: string, info: PortInfo,
                 goal: map<PgKey, string>, made: map<PgKey, Profile>, k: PgKey)
    requires Settled(s, b0, port, info) && IsDown(b0, cleared, b1, port) && k in PgsOf(b0.pgs, port)
    requires Plan(s, b1, port, info, None, goal, made)
    ensures k in goal && goal[k] == b0.pgs[k].running != ""
    ensures b0.pgs[k].dynamic ==> k in made && made[k] == s.Created(info.params, s.Threshold(b0.pgs[k], b0.profiles))
    ensures k in b1.pgs && b1.pgs[k] == b0.pgs[k].(running := "")
  {
    assert Stopped(b0, cleared, PgsOf(b0.pgs, port), k);
    assert Matches(b1, port, None, k) && GoalIs(s, b1, info, goal, made, k) && GroupSettled(s, b0, info, k);
    if !b0.pgs[k].dynamic || b0.pgs[k].staticConfigured {
      StaticStays(b0, cleared, b1, port, b0.pgs[k].configured);
      assert b0.Exact(b0.pgs[k].configured);
      assert b1.profiles[b0.pgs[k].configured].(pgs := {}).threshold
          == b0.profiles[b0.pgs[k].configured].(pgs := {}).threshold;
    }
  }

  /** Every configured profile the start-up refresh looks up is still cached. */
  lemma StillKnown(s: Setting, b0: Book, cleared: Book, b1: Book, port: string, info: PortInfo)
    requires b0.Regular() && IsDown(b0, cleared, b1, port)
    ensures AllKnown(s, b1, port, info, None)
  {
    forall k | Matches(b1, port, None, k) ensures Known(s, b1, info, k) {
      assert Stopped(b0, cleared, PgsOf(b0.pgs, port), k);
      if s.LooksUp(b1.pgs[k], info).Some? {
        assert b0.pgs[k].configured == b1.pgs[k].configured;
        StaticStays(b0, cleared, b1, port, b0.pgs[k].configured);
        assert b0.Exact(b0.pgs[k].configured);
      }
    }
  }

  lemma OnlyThePort(s: Setting, b0: Book, cleared: Book, b1: Book, port: string, info: PortInfo,
                    goal: map<PgKey, string>, made: map<PgKey, Profile>)
    requires Settled(s, b0, port, info) && IsDown(b0, cleared, b1, port)
    requires Plan(s, b1, port, info, None, goal, made)
    ensures goal.Keys == PgsOf(b0.pgs, port)
  {
    forall k | k in PgsOf(b0.pgs, port) ensures k in goal {
      SameGoal(s, b0, cleared, b1, port, info, goal, made, k);
    }
    forall k <- goal.Keys ensures k in PgsOf(b0.pgs, port) {
      assert Stopped(b0, cleared, PgsOf(b0.pgs, port), k);
    }
  }

  lemma GroupsComeBack(s: Setting, b0: Book, cleared: Book, b1: Book, moved: Book, port: string, info: PortInfo,
                       goal: map<PgKey, string>, made: map<PgKey, Profile>, release: set<string>)
    requires Settled(s, b0, port, info) && IsDown(b0, cleared, b1, port)
    requires Plan(s, b1, port, info, None, goal, made)
      && Progress(b1, moved, goal, made, s.poolMode, goal.Keys, release)
    ensures moved.pgs == b0.pgs && moved.pgRows == b0.pgRows
  {
    OnlyThePort(s, b0, cleared, b1, port, info, goal, made);
    forall k ensures (k in moved.pgs <==> k in b0.pgs) && (k in moved.pgs ==> moved.pgs[k] == b0.pgs[k])
                  && RowAt(moved.pgRows, k) == RowAt(b0.pgRows, k)
    {
      assert Reached(b1, moved, goal, goal.Keys, k) && Stopped(b0, cleared, PgsOf(b0.pgs, port), k);
      if k in PgsOf(b0.pgs, port) {
        SameGoal(s, b0, cleared, b1, port, info, goal, made, k);
        assert GroupSettled(s, b0, info, k);
      } else {
        assert RowAt(b1.pgRows, k) == RowAt(b0.pgRows, k);
      }
    }
    assert forall k :: k in moved.pgRows <==> RowAt(moved.pgRows, k).Some?;
    assert forall k :: k in b0.pgRows <==> RowAt(b0.pgRows, k).Some?;
  }

  /** A profile that outlives the shutdown gets its references back. */
  lemma KeptProfileComesBack(s: Setting, b0: Book, cleared: Book, b1: Book, moved: Book, port: string, info: PortInfo,
                             goal: map<PgKey, string>, made: map<PgKey, Profile>, release: set<string>, p: string)
    requires Settled(s, b0, port, info) && IsDown(b0, cleared, b1, port)
    requires Plan(s, b1, port, info, None, goal, made)
      && Progress(b1, moved, goal, made, s.poolMode, goal.Keys, release)
    requires p in b0.profiles && p in b1.profiles
    ensures p in moved.profiles && moved.profiles[p] == b0.profiles[p] && ProfileRowAt(moved, p) == ProfileRowAt(b0, p)
  {
    OnlyThePort(s, b0, cleared, b1, port, info, goal, made);
    assert Unlisted(b0, cleared, PgsOf(b0.pgs, port), p) && b0.Exact(p);
    assert Carried(b1, moved, goal, made, s.poolMode, goal.Keys, release, p);
    forall k: PgKey ensures k in moved.profiles[p].pgs <==> k in b0.profiles[p].pgs {
      assert k in moved.profiles[p].pgs <==> ShouldList(b1, goal, goal.Keys, p, k);
      if k in goal {
        SameGoal(s, b0, cleared, b1, port, info, goal, made, k);
        assert b0.Listed(k);
      }
    }
    assert moved.profiles[p].pgs == b0.profiles[p].pgs;
    assert moved.profiles[p].(pgs := {}) == b0.profiles[p].(pgs := {});
  }

  /** A profile that was made is one that went with the shutdown, made anew. */
  lemma MadeProfileCameBack(s: Setting, b0: Book, cleared: Book, b1: Book, moved: Book, port: string, info: PortInfo,
                            goal: map<PgKey, string>, made: map<PgKey, Profile>, release: set<string>, p: string)
    requires Settled(s, b0, port, info) && IsDown(b0, cleared, b1, port)
    requires Plan(s, b1, port, info, None, goal, made)
      && Progress(b1, moved, goal, made, s.poolMode, goal.Keys, release)
    requires p in moved.profiles && p !in b1.profiles
    ensures p in b0.profiles && moved.profiles[p] == b0.profiles[p] && ProfileRowAt(moved, p) == ProfileRowAt(b0, p)
  {
    OnlyThePort(s, b0, cleared, b1, port, info, goal, made);
    assert Carried(b1, moved, goal, made, s.poolMode, goal.Keys, release, p);
    assert MadeFor(moved.profiles[p], goal, made, p);
    var k' :| k' in made && k' in goal && goal[k'] == p && moved.profiles[p].(pgs := {}) == made[k'];
    SameGoal(s, b0, cleared, b1, port, info, goal, made, k');
    assert b0.Listed(k') && GroupSettled(s, b0, info, k') && Unlisted(b0, cleared, PgsOf(b0.pgs, port), p);
    assert cleared.profiles[p].(pgs := {}) == b0.profiles[p].(pgs := {});
    forall k: PgKey ensures k in moved.profiles[p].pgs <==> k in b0.profiles[p].pgs {
      assert k in moved.profiles[p].pgs <==> ShouldList(b1, goal, goal.Keys, p, k);
      assert k !in cleared.profiles[p].pgs;
      if k in goal {
        SameGoal(s, b0, cleared, b1, port, info, goal, made, k);
        assert b0.Listed(k);
      }
    }
    assert moved.profiles[p].pgs == b0.profiles[p].pgs;
  }

  lemma RunningIsCached(b: Book, k: PgKey)
    requires b.Sound() && k in b.pgs && b.pgs[k].running != ""
    ensures b.pgs[k].running in b.profiles
  {
    assert b.Listed(k);
  }

  lemma ProfileComesBack(s: Setting, b0: Book, cleared: Book, b1: Book, moved: Book, port: string, info: PortInfo,
                         goal: map<PgKey, string>, made: map<PgKey, Profile>, release: set<string>, p: string)
    requires Settled(s, b0, port, info) && IsDown(b0, cleared, b1, port) && moved.Sound() && moved.pgs == b0.pgs
    requires Plan(s, b1, port, info, None, goal, made)
      && Progress(b1, moved, goal, made, s.poolMode, goal.Keys, release)
    ensures (p in moved.profiles <==> p in b0.profiles) && (p in b0.profiles ==> moved.profiles[p] == b0.profiles[p])
    ensures ProfileRowAt(moved, p) == ProfileRowAt(b0, p)
  {
    assert Unlisted(b0, cleared, PgsOf(b0.pgs, port), p)
      && Carried(b1, moved, goal, made, s.poolMode, goal.Keys, release, p);
    if p in RunningIn(b0.pgs, PgsOf(b0.pgs, port)) {
      var k :| k in b0.pgs && k in PgsOf(b0.pgs, port) && b0.pgs[k].running == p != "";
      RunningIsCached(moved, k);
      RunningIsCached(b0, k);
    }
    if p in b1.profiles {
      KeptProfileComesBack(s, b0, cleared, b1, moved, port, info, goal, made, release, p);
    } else if p in moved.profiles {
      MadeProfileCameBack(s, b0, cleared, b1, moved, port, info, goal, made, release, p);
    }
  }

  lemma ProfilesComeBack(s: Setting, b0: Book, cleared: Book, b1: Book, moved: Book, port: string, info: PortInfo,
                         goal: map<PgKey, string>, made: map<PgKey, Profile>, release: set<string>)
    requires Settled(s, b0, port, info) && IsDown(b0, cleared, b1, port) && moved.Sound()
    requires Plan(s, b1, port, info, None, goal, made)
      && Progress(b1, moved, goal, made, s.poolMode, goal.Keys, release)
    ensures moved.profiles == b0.profiles && moved.profileRows == b0.profileRows
  {
    GroupsComeBack(s, b0, cleared, b1, moved, port, info, goal, made, release);
    forall p
      ensures (p in moved.profiles <==> p in b0.profiles) && (p in b0.profiles ==> moved.profiles[p] == b0.profiles[p])
                  && ProfileRowAt(moved, p) == ProfileRowAt(b0, p)
    {
      ProfileComesBack(s, b0, cleared, b1, moved, port, info, goal, made, release, p);
    }
    assert forall p :: p in moved.profileRows <==> ProfileRowAt(moved, p).Some?;
    assert forall p :: p in b0.profileRows <==> ProfileRowAt(b0, p).Some?;
  }

  /** Down and up again: the whole book is as it was. */
  lemma BookComesBack(s: Setting, b0: Book, cleared: Book, b1: Book, moved: Book, port: string, info: PortInfo,
                      release: set<string>)
    requires Settled(s, b0, port, info) && IsDown(b0, cleared, b1, port) && b1.Sound() && moved.Sound()
    requires AllMoved(s, b1, moved, port, info, None, release)
    ensures moved.Release(release) == b0
  {
    var goal, made :|
      Plan(s, b1, port, info, None, goal, made) && Progress(b1, moved, goal, made, s.poolMode, goal.Keys, release);
    GroupsComeBack(s, b0, cleared, b1, moved, port, info, goal, made, release);
    ProfilesComeBack(s, b0, cleared, b1, moved, port, info, goal, made, release);
    OnlyThePort(s, b0, cleared, b1, port, info, goal, made);
    forall p ensures p !in release {
      assert Carried(b1, moved, goal, made, s.poolMode, goal.Keys, release, p);
      if p in release {
        var k :| k in goal.Keys && k in b1.pgs && b1.pgs[k].running == p;
        SameGoal(s, b0, cleared, b1, port, info, goal, made, k);
      }
    }
    assert release == {};
    ReleaseNothing(moved);
  }

  // ---------- queues and profile lists ----------

  datatype Direction = Ingress | Egress

  type Lists = map<(Direction, string), seq<string>>
  type SliceTable = map<(Direction, string), set<PgKey>>

  /** The zero profiles of a list, without those of pools that have none. */
  function ZerosOf(profiles: map<string, Profile>, zeroProfiles: map<string, string>, names: seq<string>): seq<string> {
    if names == [] then []
    else
      var zero := ZeroIn(profiles, zeroProfiles, names[|names| - 1]);
      ZerosOf(profiles, zeroProfiles, names[..|names| - 1]) + if zero == "" then [] else [zero]
  }

  /** The ids of the groups, or queues, configured on a port. */
  ghost function ConfiguredIds(pgs: map<PgKey, Pg>, queues: map<PgKey, string>, dir: Direction, port: string)
    : set<string>
  {
    if dir == Ingress then set k | k in pgs && k.port == port :: k.ids
    else set k | k in queues && k.port == port :: k.ids
  }

  function ListAt(lists: Lists, dir: Direction, port: string): seq<string> {
    if (dir, port) in lists then lists[(dir, port)] else []
  }

  function SlicesAt(slices: SliceTable, dir: Direction, port: string): set<PgKey> {
    if (dir, port) in slices then slices[(dir, port)] else {}
  }

  /** A port went down: only rows of its own profile lists have changed. */
  ghost predicate ListsDown(lists: Lists, before: Lists, after: Lists, port: string) {
    forall d, q {:trigger ListAt(after, d, q)} ::
      q != port || ListAt(lists, d, port) == [] ==> ListAt(after, d, q) == ListAt(before, d, q)
  }

  /** A port came up: the rows of its profile lists are the configured ones. */
  ghost predicate ListsUp(lists: Lists, before: Lists, after: Lists, port: string) {
    forall d, q {:trigger ListAt(after, d, q)} :: ListAt(after, d, q) ==
      if q == port && ListAt(lists, d, port) != [] then ListAt(lists, d, port) else ListAt(before, d, q)
  }

  ghost predicate SlicesDown(before: SliceTable, after: SliceTable, port: string) {
    forall d, q {:trigger SlicesAt(after, d, q)} :: q != port ==> SlicesAt(after, d, q) == SlicesAt(before, d, q)
  }

  ghost predicate SlicesUp(before: SliceTable, after: SliceTable, port: string) {
    forall d, q {:trigger SlicesAt(after, d, q)} ::
      SlicesAt(after, d, q) == if q == port then {} else SlicesAt(before, d, q)
  }

  /** The rows of a port's queues and profile lists are the configured ones, and it has no others. */
  ghost predicate RowsMatch(queues: map<PgKey, string>, lists: Lists, queueRows: map<PgKey, string>, listRows: Lists,
                            slices: SliceTable, port: string) {
    && (forall k: PgKey {:trigger RowAt(queueRows, k)} :: k.port == port ==> RowAt(queueRows, k) == RowAt(queues, k))
    && (forall dir {:trigger ListAt(listRows, dir, port)} :: ListAt(listRows, dir, port) == ListAt(lists, dir, port))
    && (forall dir {:trigger SlicesAt(slices, dir, port)} :: SlicesAt(slices, dir, port) == {})
  }

  ghost predicate SameLists(before: Lists, after: Lists) {
    forall d, q {:trigger ListAt(after, d, q)} :: ListAt(after, d, q) == ListAt(before, d, q)
  }

  ghost predicate SameSlices(before: SliceTable, after: SliceTable) {
    forall d, q {:trigger SlicesAt(after, d, q)} :: SlicesAt(after, d, q) == SlicesAt(before, d, q)
  }

  lemma ListsComeBack(lists: Lists, before: Lists, down: Lists, after: Lists, port: string)
    requires ListsDown(lists, before, down, port) && ListsUp(lists, down, after, port)
    requires forall dir {:trigger ListAt(before, dir, port)} :: ListAt(before, dir, port) == ListAt(lists, dir, port)
    ensures SameLists(before, after)
  {
    forall d, q ensures ListAt(after, d, q) == ListAt(before, d, q) {
      assert ListAt(down, d, q) == ListAt(before, d, q) || (q == port && ListAt(lists, d, port) != []);
    }
  }

  lemma SlicesComeBack(before: SliceTable, down: SliceTable, after: SliceTable, port: string)
    requires SlicesDown(before, down, port) && SlicesUp(down, after, port)
    requires forall dir {:trigger SlicesAt(before, dir, port)} :: SlicesAt(before, dir, port) == {}
    ensures SameSlices(before, after)
  {
    forall d, q ensures SlicesAt(after, d, q) == SlicesAt(before, d, q) {
      assert q != port ==> SlicesAt(down, d, q) == SlicesAt(before, d, q);
    }
  }

  /** The rows of a port's queues are the configured ones, all others are as given. */
  ghost predicate QueuesUp(queues: map<PgKey, string>, before: map<PgKey, string>, after: map<PgKey, string>,
                           port: string) {
    forall k {:trigger RowAt(after, k)} ::
      RowAt(after, k) == if k in queues && k.port == port then Some(queues[k]) else RowAt(before, k)
  }

  ghost predicate QueuesDown(queues: map<PgKey, string>, before: map<PgKey, string>, after: map<PgKey, string>,
                             port: string) {
    forall k: PgKey {:trigger RowAt(after, k)} ::
      !(k in queues && k.port == port) ==> RowAt(after, k) == RowAt(before, k)
  }

  lemma QueuesComeBack(queues: map<PgKey, string>, before: map<PgKey, string>, down: map<PgKey, string>,
                       after: map<PgKey, string>, port: string)
    requires QueuesDown(queues, before, down, port) && QueuesUp(queues, down, after, port)
    requires forall k: PgKey {:trigger RowAt(before, k)} :: k.port == port ==> RowAt(before, k) == RowAt(queues, k)
    ensures after == before
  {
    forall k: PgKey ensures RowAt(after, k) == RowAt(before, k) {
      assert (k in queues && k.port == port) || RowAt(down, k) == RowAt(before, k);
    }
    assert forall k :: k in after <==> RowAt(after, k).Some?;
    assert forall k :: k in before <==> RowAt(before, k).Some?;
  }

  lemma RowsComeBack(queues: map<PgKey, string>, lists: Lists,
                     queues0: map<PgKey, string>, lists0: Lists, slices0: SliceTable,
                     queues1: map<PgKey, string>, lists1: Lists, slices1: SliceTable,
                     queues2: map<PgKey, string>, lists2: Lists, slices2: SliceTable, port: string)
    requires RowsMatch(queues, lists, queues0, lists0, slices0, port)
    requires QueuesDown(queues, queues0, queues1, port) && QueuesUp(queues, queues1, queues2, port)
    requires ListsDown(lists, lists0, lists1, port) && ListsUp(lists, lists1, lists2, port)
    requires SlicesDown(slices0, slices1, port) && SlicesUp(slices1, slices2, port)
    ensures queues2 == queues0 && SameLists(lists0, lists2) && SameSlices(slices0, slices2)
  {
    QueuesComeBack(queues, queues0, queues1, queues2, port);
    ListsComeBack(lists, lists0, lists1, lists2, port);
    SlicesComeBack(slices0, slices1, slices2, port);
  }

  class PortManager {
    const buffers: BufferManager

    /** The zero profile of each pool, and the ones applied to ids that are not configured. */
    const zeroProfiles: map<string, string>
    const zeroOfRest: Direction -> string

    /** The slices of the ids of a port that the given items leave free. */
    const free: (Direction, string, set<string>) -> set<string>

    var queues: map<PgKey, string>
    var lists: Lists
    var unconfigured: SliceTable

    /** APPL_DB. */
    var queueRows: map<PgKey, string>
    var listRows: Lists

    constructor (buffers: BufferManager, zeroProfiles: map<string, string>, zeroOfRest: Direction -> string,
                 free: (Direction, string, set<string>) -> set<string>)
      ensures this.buffers == buffers && this.zeroProfiles == zeroProfiles && this.zeroOfRest == zeroOfRest
      ensures this.free == free && forall port :: RowsApplied(port)
    {
      this.buffers, this.zeroProfiles, this.zeroOfRest, this.free := buffers, zeroProfiles, zeroOfRest, free;
      queues, lists, unconfigured, queueRows, listRows := map[], map[], map[], map[], map[];
    }

    function Rest(dir: Direction, port: string): set<PgKey>
      reads this`unconfigured
    {
      SlicesAt(unconfigured, dir, port)
    }

    /** The rows of the queues and profile lists of a port that is up. */
    ghost predicate RowsApplied(port: string)
      reads this
    {
      RowsMatch(queues, lists, queueRows, listRows, unconfigured, port)
    }

    ghost function ListRow(dir: Direction, port: string): seq<string>
      reads this`listRows
    {
      ListAt(listRows, dir, port)
    }

    function ListOf(dir: Direction, port: string): seq<string>
      reads this`lists
    {
      ListAt(lists, dir, port)
    }

    /** constructZeroProfileListFromNormalProfileList: pools without a zero profile are skipped. */
    method ZeroList(names: seq<string>) returns (zeros: seq<string>)
      ensures zeros == ZerosOf(buffers.profiles, zeroProfiles, names)
    {
      zeros := [];
      for i := 0 to |names|
        invariant zeros == ZerosOf(buffers.profiles, zeroProfiles, names[..i])
      {
        assert names[..i + 1][..i] == names[..i];
        var zero := buffers.FetchZeroProfile(zeroProfiles, names[i]);
        if zero != "" {
          zeros := zeros + [zero];
        }
      }
      assert names[..|names|] == names;
    }

    // ---------- shutting down ----------

    /** One row with the common zero profile for each slice of ids that the configured items leave free. */
    method FillRest(dir: Direction, port: string, configured: set<string>, rows: map<PgKey, string>)
      returns (filled: map<PgKey, string>)
      modifies this`unconfigured
      ensures forall d, q :: (d, q) != (dir, port) ==> Rest(d, q) == old(Rest(d, q))
      ensures forall k <- Rest(dir, port) :: k.port == port || k in old(Rest(dir, port))
      ensures zeroOfRest(dir) == "" ==> filled == rows && Rest(dir, port) == old(Rest(dir, port))
      ensures zeroOfRest(dir) != "" ==> Rest(dir, port) == Keys(port, free(dir, port, configured))
      ensures zeroOfRest(dir) != "" ==>
        forall k: PgKey :: RowAt(filled, k) == if k in Rest(dir, port) then Some(zeroOfRest(dir)) else RowAt(rows, k)
    {
      filled := rows;
      if zeroOfRest(dir) == "" {
        return;
      }
      var all := Keys(port, free(dir, port, configured));
      var todo := all;
      while todo != {}
        invariant todo <= all && unconfigured == old(unconfigured)
        invariant forall k: PgKey ::
          RowAt(filled, k) == if k in all - todo then Some(zeroOfRest(dir)) else RowAt(rows, k)
        decreases todo
      {
        var k :| k in todo;
        filled := filled[k := zeroOfRest(dir)];
        todo := todo - {k};
      }
      unconfigured := unconfigured[(dir, port) := all];
    }

    function Keys(port: string, slices: set<string>): (keys: set<PgKey>)
      ensures forall k: PgKey :: k in keys <==> k.port == port && k.ids in slices
    {
      set s | s in slices :: PgKey(port, s)
    }

    method ReclaimQueues(port: string)
      modifies this`queueRows
      ensures forall k: PgKey :: RowAt(queueRows, k) == QueueRow(k, port, queues.Keys, old(queueRows))
    {
      var all := set k | k in queues && k.port == port;
      var todo := all;
      while todo != {}
        invariant todo <= all
        invariant forall k: PgKey :: RowAt(queueRows, k) == QueueRow(k, port, all - todo, old(queueRows))
        decreases todo
      {
        var k :| k in todo;
        var zero := buffers.FetchZeroProfile(zeroProfiles, queues[k]);
        ghost var rows := queueRows;
        queueRows := if zero != "" then queueRows[k := zero] else queueRows - {k};
        forall q: PgKey ensures RowAt(queueRows, q) == QueueRow(q, port, all - (todo - {k}), old(queueRows)) {
          assert RowAt(rows, q) == QueueRow(q, port, all - todo, old(queueRows));
        }
        todo := todo - {k};
      }
      forall q: PgKey ensures RowAt(queueRows, q) == QueueRow(q, port, queues.Keys, old(queueRows)) {
        assert RowAt(queueRows, q) == QueueRow(q, port, all - todo, old(queueRows));
      }
    }

    /** The row of a queue once those in `done` are reclaimed. */
    ghost function QueueRow(k: PgKey, port: string, done: set<PgKey>, rows: map<PgKey, string>): Option<string>
      reads this`queues, buffers`profiles
    {
      if k !in queues || k.port != port || k !in done then RowAt(rows, k)
      else ZeroRow(ZeroIn(buffers.profiles, zeroProfiles, queues[k]))
    }

    /** ... and those of the ids no queue covers. */
    ghost function ReclaimedRow(k: PgKey, port: string, rows: map<PgKey, string>): Option<string>
      reads this, buffers`profiles
    {
      if k in Rest(Egress, port) && zeroOfRest(Egress) != "" then Some(zeroOfRest(Egress))
      else QueueRow(k, port, queues.Keys, rows)
    }

    method ReclaimList(dir: Direction, port: string)
      modifies this`listRows
      ensures forall d, q :: (d, q) != (dir, port) || ListOf(dir, port) == [] ==> ListRow(d, q) == old(ListRow(d, q))
      ensures ListOf(dir, port) != [] ==>
        ListRow(dir, port) == ZerosOf(buffers.profiles, zeroProfiles, ListOf(dir, port))
    {
      if ListOf(dir, port) != [] {
        var zeros := ZeroList(ListOf(dir, port));
        listRows := listRows[(dir, port) := zeros];
      }
    }

    /** The shutdown branch of handlePortTable, once the pools are ready and the maximal numbers are known. */
    method PortDown(port: string) returns (ghost cleared: Book)
      requires port in buffers.ports && buffers.TheBook().Sound()
      modifies this`unconfigured, this`queueRows, this`listRows
      modifies buffers`ports, buffers`pgs, buffers`profiles, buffers`pgRows, buffers`profileRows
      ensures buffers.TheBook().Sound()
      ensures buffers.ports == old(buffers.ports)[port := old(buffers.ports)[port].(state := AdminDown)]
      ensures Reclaimed(old(buffers.TheBook()), cleared, PgsOf(old(buffers.pgs), port))
      ensures buffers.TheBook() ==
        cleared.Release(RunningIn(old(buffers.pgs), PgsOf(old(buffers.pgs), port))).(pgRows := buffers.pgRows)
      ensures forall k: PgKey :: k !in Rest(Ingress, port) ==> RowAt(buffers.pgRows, k) == RowAt(cleared.pgRows, k)
      ensures forall k: PgKey :: k !in Rest(Egress, port) && !(k in queues && k.port == port) ==>
        RowAt(queueRows, k) == old(RowAt(queueRows, k))
      ensures ListsDown(lists, old(listRows), listRows, port) && SlicesDown(old(unconfigured), unconfigured, port)
      ensures forall d :: forall k <- Rest(d, port) :: k.port == port || k in old(Rest(d, port))
      ensures ZeroRows(old(buffers.TheBook()), cleared.pgRows, zeroProfiles, PgsOf(old(buffers.pgs), port))
      ensures forall k: PgKey :: k in Rest(Ingress, port) && zeroOfRest(Ingress) != "" ==>
        RowAt(buffers.pgRows, k) == Some(zeroOfRest(Ingress))
      ensures forall k: PgKey :: RowAt(queueRows, k) == ReclaimedRow(k, port, old(queueRows))
      ensures forall d {:trigger Rest(d, port)} :: zeroOfRest(d) != "" ==>
        Rest(d, port) == Keys(port, free(d, port, ConfiguredIds(old(buffers.pgs), queues, d, port)))
      ensures forall d {:trigger ListRow(d, port)} :: ListOf(d, port) != [] ==>
        ListRow(d, port) == ZerosOf(buffers.profiles, zeroProfiles, ListOf(d, port))
    {
      buffers.ports := buffers.ports[port := buffers.ports[port].(state := AdminDown)];
      cleared := PgsDown(port);
      ghost var lists1 := listRows;
      ReclaimPortQueues(port);
      forall d ensures ListOf(d, port) != [] ==>
          ListRow(d, port) == ZerosOf(buffers.profiles, zeroProfiles, ListOf(d, port))
      {
        assert d == Ingress || d == Egress;
      }
      forall d ensures zeroOfRest(d) != "" ==>
          Rest(d, port) == Keys(port, free(d, port, ConfiguredIds(old(buffers.pgs), queues, d, port)))
      {
        assert d == Ingress || d == Egress;
      }
      forall d ensures forall k <- Rest(d, port) :: k.port == port || k in old(Rest(d, port)) {
        assert d == Ingress || d == Egress;
      }
    }

    method PgsDown(port: string) returns (ghost cleared: Book)
      requires buffers.TheBook().Sound()
      modifies this`unconfigured, this`listRows, buffers`pgs, buffers`profiles, buffers`pgRows, buffers`profileRows
      ensures buffers.TheBook().Sound()
      ensures Reclaimed(old(buffers.TheBook()), cleared, PgsOf(old(buffers.pgs), port))
      ensures buffers.TheBook() ==
        cleared.Release(RunningIn(old(buffers.pgs), PgsOf(old(buffers.pgs), port))).(pgRows := buffers.pgRows)
      ensures forall k: PgKey :: k !in Rest(Ingress, port) ==> RowAt(buffers.pgRows, k) == RowAt(cleared.pgRows, k)
      ensures forall d, q :: (d, q) != (Ingress, port) || ListOf(d, port) == [] ==> ListRow(d, q) == old(ListRow(d, q))
      ensures forall d, q :: (d, q) != (Ingress, port) ==> Rest(d, q) == old(Rest(d, q))
      ensures forall k <- Rest(Ingress, port) :: k.port == port || k in old(Rest(Ingress, port))
      ensures ZeroRows(old(buffers.TheBook()), cleared.pgRows, zeroProfiles, PgsOf(old(buffers.pgs), port))
      ensures forall k: PgKey :: k in Rest(Ingress, port) && zeroOfRest(Ingress) != "" ==>
        RowAt(buffers.pgRows, k) == Some(zeroOfRest(Ingress))
      ensures zeroOfRest(Ingress) != "" ==>
        Rest(Ingress, port) == Keys(port, free(Ingress, port, ConfiguredIds(old(buffers.pgs), queues, Ingress, port)))
      ensures ListOf(Ingress, port) != [] ==>
        ListRow(Ingress, port) == ZerosOf(buffers.profiles, zeroProfiles, ListOf(Ingress, port))
    {
      var release;
      cleared, release := buffers.ReclaimPgs(port, zeroProfiles);
      ghost var bare := buffers.TheBook();
      assert buffers.pgs.Keys == old(buffers.pgs).Keys by {
        forall k ensures k in buffers.pgs <==> k in old(buffers.pgs) {
          assert Stopped(old(buffers.TheBook()), cleared, PgsOf(old(buffers.pgs), port), k);
        }
      }
      var configured := set k | k in buffers.pgs && k.port == port :: k.ids;
      assert configured == ConfiguredIds(old(buffers.pgs), queues, Ingress, port);
      var filled := FillRest(Ingress, port, configured, buffers.pgRows);
      buffers.pgRows := filled;
      SameButRows(bare, buffers.TheBook());
      ReclaimList(Ingress, port);
    }

    method ReclaimPortQueues(port: string)
      modifies this`unconfigured, this`queueRows, this`listRows
      ensures forall k: PgKey :: k !in Rest(Egress, port) && !(k in queues && k.port == port) ==>
        RowAt(queueRows, k) == old(RowAt(queueRows, k))
      ensures forall d, q :: (d, q) != (Egress, port) || ListOf(d, port) == [] ==> ListRow(d, q) == old(ListRow(d, q))
      ensures forall d, q :: (d, q) != (Egress, port) ==> Rest(d, q) == old(Rest(d, q))
      ensures forall k <- Rest(Egress, port) :: k.port == port || k in old(Rest(Egress, port))
      ensures forall k: PgKey :: RowAt(queueRows, k) == ReclaimedRow(k, port, old(queueRows))
      ensures zeroOfRest(Egress) != "" ==>
        Rest(Egress, port) == Keys(port, free(Egress, port, ConfiguredIds(buffers.pgs, queues, Egress, port)))
      ensures ListOf(Egress, port) != [] ==>
        ListRow(Egress, port) == ZerosOf(buffers.profiles, zeroProfiles, ListOf(Egress, port))
    {
      ReclaimQueues(port);
      var configured := set k | k in queues && k.port == port :: k.ids;
      assert configured == ConfiguredIds(buffers.pgs, queues, Egress, port);
      var filled := FillRest(Egress, port, configured, queueRows);
      queueRows := filled;
      ReclaimList(Egress, port);
    }

    // ---------- starting up ----------

    /** removeSupportedButNotConfiguredItemsOnPort. */
    method RemoveRest(port: string)
      modifies this`unconfigured, this`queueRows, buffers`pgRows
      ensures SlicesUp(old(unconfigured), unconfigured, port)
      ensures buffers.pgRows == old(buffers.pgRows - Rest(Ingress, port))
      ensures queueRows == old(queueRows - Rest(Egress, port))
    {
      buffers.pgRows := buffers.pgRows - Rest(Ingress, port);
      queueRows := queueRows - Rest(Egress, port);
      unconfigured := unconfigured[(Ingress, port) := {}];
      unconfigured := unconfigured[(Egress, port) := {}];
      forall d, q ensures SlicesAt(unconfigured, d, q) == if q == port then {} else SlicesAt(old(unconfigured), d, q) {
        assert d == Ingress || d == Egress;
      }
    }

    /** applyNormalBufferObjectsOnPort. */
    method ApplyNormal(port: string)
      modifies this`queueRows, this`listRows
      ensures QueuesUp(queues, old(queueRows), queueRows, port) && ListsUp(lists, old(listRows), listRows, port)
    {
      var all := set k | k in queues && k.port == port;
      var todo := all;
      while todo != {}
        invariant todo <= all && listRows == old(listRows)
        invariant forall k: PgKey ::
          RowAt(queueRows, k) == if k in all - todo then Some(queues[k]) else old(RowAt(queueRows, k))
        decreases todo
      {
        var k :| k in todo;
        queueRows := queueRows[k := queues[k]];
        todo := todo - {k};
      }
      if ListOf(Ingress, port) != [] {
        listRows := listRows[(Ingress, port) := ListOf(Ingress, port)];
      }
      if ListOf(Egress, port) != [] {
        listRows := listRows[(Egress, port) := ListOf(Egress, port)];
      }
      forall d, q ensures ListAt(listRows, d, q) ==
        if q == port && ListAt(lists, d, port) != [] then ListAt(lists, d, port) else ListAt(old(listRows), d, q)
      {
        assert d == Ingress || d == Egress;
      }
    }

    /** The start-up branch of handlePortTable, up to the priority groups. */
    method RestoreNormal(port: string)
      requires buffers.TheBook().Sound()
      modifies this`unconfigured, this`queueRows, this`listRows, buffers`pgRows
      ensures buffers.TheBook() == old(buffers.TheBook().(pgRows := buffers.pgRows - Rest(Ingress, port)))
      ensures buffers.TheBook().Sound()
      ensures SlicesUp(old(unconfigured), unconfigured, port) && ListsUp(lists, old(listRows), listRows, port)
      ensures QueuesUp(queues, old(queueRows - Rest(Egress, port)), queueRows, port)
    {
      ghost var before := buffers.TheBook();
      RemoveRest(port);
      SameButRows(before, buffers.TheBook());
      ApplyNormal(port);
    }

    /** The start-up branch of handlePortTable. */
    method PortUp(port: string, ghost s: Setting, ghost b1: Book, ghost info: PortInfo)
      returns (status: Status, ghost moved: Book, release: set<string>)
      requires port in buffers.ports && buffers.TheBook().Sound()
      requires s == buffers.TheSetting() && info == buffers.ports[port].(state := StateWhenUp(buffers.ports[port]))
      requires b1 == buffers.TheBook().(pgRows := buffers.pgRows - Rest(Ingress, port))
      modifies this`unconfigured, this`queueRows, this`listRows
      modifies buffers`pending, buffers`ports, buffers`pgs, buffers`profiles, buffers`pgRows, buffers`profileRows
      ensures buffers.TheBook().Sound()
      ensures buffers.ports == old(buffers.ports)[port := info]
      ensures SlicesUp(old(unconfigured), unconfigured, port) && ListsUp(lists, old(listRows), listRows, port)
      ensures QueuesUp(queues, old(queueRows - Rest(Egress, port)), queueRows, port)
      ensures status == NeedRetry ==> buffers.poolMode == ""
      ensures status == Failed ==> !buffers.Accepts(port)
      ensures (status == Success && buffers.poolReady && buffers.defaultThreshold != ""
               && AllKnown(s, b1, port, info, None)) ==>
        && AllMoved(s, b1, moved, port, info, None, release)
        && moved.Sound() && buffers.TheBook() == moved.Release(release)
    {
      MarkUp(port);
      RestoreNormal(port);
      var params := buffers.ports[port].params;
      status, moved, release := buffers.RefreshPgsForPort(port, params.speed, params.cable, params.mtu, None);
    }

    /** Shutting a settled port down. */
    method SettledDown(port: string) returns (ghost cleared: Book, ghost b1: Book)
      requires port in buffers.ports
        && Settled(buffers.TheSetting(), buffers.TheBook(), port, buffers.ports[port]) && RowsApplied(port)
      modifies this`unconfigured, this`queueRows, this`listRows
      modifies buffers`ports, buffers`pgs, buffers`profiles, buffers`pgRows, buffers`profileRows
      ensures buffers.TheBook().Sound() && b1.Sound()
        && b1 == buffers.TheBook().(pgRows := buffers.pgRows - Rest(Ingress, port))
      ensures IsDown(old(buffers.TheBook()), cleared, b1, port)
      ensures buffers.ports == old(buffers.ports)[port := old(buffers.ports)[port].(state := AdminDown)]
      ensures QueuesDown(queues, old(queueRows), queueRows - Rest(Egress, port), port)
      ensures ListsDown(lists, old(listRows), listRows, port) && SlicesDown(old(unconfigured), unconfigured, port)
    {
      ghost var b0 := buffers.TheBook();
      cleared := PortDown(port);
      b1 := buffers.TheBook().(pgRows := buffers.pgRows - Rest(Ingress, port));
      DownIsDown(b0, cleared, buffers.TheBook(), b1, port, Rest(Ingress, port));
      SameButRows(buffers.TheBook(), b1);
      forall k: PgKey | !(k in queues && k.port == port)
        ensures RowAt(queueRows - Rest(Egress, port), k) == RowAt(old(queueRows), k)
      {
        assert k.port == port ==> old(RowAt(queueRows, k)) == RowAt(queues, k) == None;
      }
    }

    /** Shut down and started again, a settled port is as it was, down to the last row. */
    method DownThenUp(port: string) returns (status: Status)
      requires port in buffers.ports
        && Settled(buffers.TheSetting(), buffers.TheBook(), port, buffers.ports[port]) && RowsApplied(port)
      requires buffers.poolReady && buffers.defaultThreshold != "" && buffers.poolMode != "" && buffers.Accepts(port)
      requires buffers.ports[port].params.speed != "" && buffers.ports[port].params.cable != ""
      modifies this`unconfigured, this`queueRows, this`listRows
      modifies buffers`pending, buffers`ports, buffers`pgs, buffers`profiles, buffers`pgRows, buffers`profileRows
      ensures status == Success
      ensures buffers.TheBook() == old(buffers.TheBook()) && buffers.ports == old(buffers.ports)
      ensures queueRows == old(queueRows) && SameLists(old(listRows), listRows)
        && SameSlices(old(unconfigured), unconfigured)
    {
      ghost var b0, s, info := buffers.TheBook(), buffers.TheSetting(), buffers.ports[port];
      ghost var cleared, b1 := SettledDown(port);
      ghost var rows, listsDown, restDown := queueRows - Rest(Egress, port), listRows, unconfigured;
      ghost var moved;
      var release;
      status, moved, release := PortUp(port, s, b1, info);
      StillKnown(s, b0, cleared, b1, port, info);
      BookComesBack(s, b0, cleared, b1, moved, port, info, release);
      RowsComeBack(queues, lists, old(queueRows), old(listRows), old(unconfigured), rows, listsDown, restDown,
                   queueRows, listRows, unconfigured, port);
    }

    method MarkUp(port: string)
      requires port in buffers.ports
      modifies buffers`ports
      ensures buffers.ports
        == old(buffers.ports)[port := old(buffers.ports)[port].(state := StateWhenUp(old(buffers.ports)[port]))]
    {
      var info, state := buffers.ports[port], Initializing;
      if info.params.speed != "" && info.params.cable != "" {
        state := Ready;
      }
      buffers.ports := buffers.ports[port := info.(state := state)];
    }

    function StateWhenUp(info: PortInfo): PortState {
      if info.params.speed != "" && info.params.cable != "" then Ready else Initializing
    }
  }

  /** Without the rows of unconfigured ids, only the rows of the groups of the port have changed. */
  lemma DownIsDown(b0: Book, cleared: Book, down: Book, b1: Book, port: string, rest: set<PgKey>)
    requires Reclaimed(b0, cleared, PgsOf(b0.pgs, port))
    requires down == cleared.Release(RunningIn(b0.pgs, PgsOf(b0.pgs, port))).(pgRows := down.pgRows)
    requires b1 == down.(pgRows := down.pgRows - rest) && forall k <- rest :: k.port == port
    requires forall k: PgKey :: k !in rest ==> RowAt(down.pgRows, k) == RowAt(cleared.pgRows, k)
    requires forall k <- b0.pgRows.Keys | k.port == port :: k in b0.pgs
    ensures IsDown(b0, cleared, b1, port)
  {
    forall k | k !in PgsOf(b0.pgs, port) ensures RowAt(b1.pgRows, k) == RowAt(b0.pgRows, k) {
      assert Stopped(b0, cleared, PgsOf(b0.pgs, port), k);
    }
  }
}
