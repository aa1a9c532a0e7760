/**
  Buffer queues that arrive before the pools are ready: they are cached, marked
  as pending and published by the timer, so that none is ever forgotten.
 */
module PendingPublication {
  import opened BufferTypes
  import opened Wrappers

  datatype QueueKey = QueueKey(port: string, ids: string)

  /** Ticks of ten seconds before the rows of unconfigured ids are applied. */
  const WAIT_TICKS: nat := 3

  const INGRESS_LOSSLESS_POOL := "ingress_lossless_pool"

  /** Slices of unconfigured ids that go, and those that replace them, when one item of a port that is down changes. */
  datatype Slicing = Slicing(removed: set<QueueKey>, added: set<QueueKey>) {
    predicate Of(port: string) {
      forall k <- removed + added :: k.port == port
    }
  }

  function SlicesOf(slices: map<string, set<QueueKey>>, port: string): set<QueueKey> {
    if port in slices then slices[port] else {}
  }

  /** A port nobody has described yet counts as administratively down. */
  predicate Down(ports: map<string, PortState>, port: string) {
    port !in ports || ports[port] == AdminDown
  }

  function Touched(ports: map<string, PortState>, port: string): map<string, PortState> {
    if port in ports then ports else ports[port := AdminDown]
  }

  /** The queue is not configured, its port is down, or APPL_DB names its profile. */
  predicate Published(k: QueueKey, ports: map<string, PortState>, queues: map<QueueKey, string>,
                      rows: map<QueueKey, string>) {
    k in queues && !Down(ports, k.port) ==> RowAt(rows, k) == Some(queues[k])
  }

  ghost predicate AllPublished(ports: map<string, PortState>, queues: map<QueueKey, string>,
                               rows: map<QueueKey, string>) {
    forall k {:trigger Published(k, ports, queues, rows)} :: Published(k, ports, queues, rows)
  }

  predicate SameRow(k: QueueKey, rows: map<QueueKey, string>, rows': map<QueueKey, string>) {
    RowAt(rows, k) == RowAt(rows', k)
  }

  /** Two tables agree on every port but one. */
  ghost predicate SameElsewhere(port: string, rows: map<QueueKey, string>, rows': map<QueueKey, string>) {
    forall k: QueueKey {:trigger SameRow(k, rows, rows')} :: k.port == port || SameRow(k, rows, rows')
  }

  predicate DownAgrees(port: string, ports: map<string, PortState>, ports': map<string, PortState>) {
    Down(ports, port) == Down(ports', port)
  }

  ghost predicate SameDown(except: string, ports: map<string, PortState>, ports': map<string, PortState>) {
    forall p {:trigger DownAgrees(p, ports, ports')} :: p == except || DownAgrees(p, ports, ports')
  }

  /** Unconfigured slices belong to their port, which is down. */
  predicate SlicesFit(port: string, ports: map<string, PortState>, slices: map<string, set<QueueKey>>) {
    && (forall k <- SlicesOf(slices, port) :: k.port == port)
    && (SlicesOf(slices, port) != {} ==> Down(ports, port))
  }

  ghost predicate AllSlicesFit(ports: map<string, PortState>, slices: map<string, set<QueueKey>>) {
    forall p {:trigger SlicesFit(p, ports, slices)} :: SlicesFit(p, ports, slices)
  }

  ghost predicate AllDown(waiting: set<string>, ports: map<string, PortState>) {
    forall p {:trigger Down(ports, p)} :: p in waiting ==> Down(ports, p)
  }

  ghost predicate SameSlices(port: string, slices: map<string, set<QueueKey>>, slices': map<string, set<QueueKey>>) {
    forall p {:trigger SlicesOf(slices', p)} :: p != port ==> SlicesOf(slices', p) == SlicesOf(slices, p)
  }

  /** What happens to the rows of a port that is down leaves every other queue published. */
  lemma OnlyDownPortChanged(port: string, ports: map<string, PortState>, ports': map<string, PortState>,
                            queues: map<QueueKey, string>, queues': map<QueueKey, string>,
                            rows: map<QueueKey, string>, rows': map<QueueKey, string>)
    requires Down(ports', port) && SameDown(port, ports, ports')
    requires SameElsewhere(port, queues, queues') && SameElsewhere(port, rows, rows')
    requires AllPublished(ports, queues, rows)
    ensures AllPublished(ports', queues', rows')
  {
    forall k ensures Published(k, ports', queues', rows') {
      if k.port != port {
        assert Published(k, ports, queues, rows);
        assert SameRow(k, queues, queues') && SameRow(k, rows, rows');
        assert RowAt(queues, k) == RowAt(queues', k);
        assert DownAgrees(k.port, ports, ports');
      }
    }
  }

  /** The rows of one port agree with its queues, and nothing else changed. */
  lemma OnePortPublished(port: string, ports: map<string, PortState>, ports': map<string, PortState>,
                         queues: map<QueueKey, string>, queues': map<QueueKey, string>,
                         rows: map<QueueKey, string>, rows': map<QueueKey, string>)
    requires SameDown(port, ports, ports')
    requires SameElsewhere(port, queues, queues') && SameElsewhere(port, rows, rows')
    requires AllPublished(ports, queues, rows)
    requires forall k: QueueKey {:trigger Published(k, ports', queues', rows')} ::
      k.port == port ==> Published(k, ports', queues', rows')
    ensures AllPublished(ports', queues', rows')
  {
    forall k ensures Published(k, ports', queues', rows') {
      if k.port != port {
        assert Published(k, ports, queues, rows);
        assert SameRow(k, queues, queues') && SameRow(k, rows, rows');
        assert RowAt(queues, k) == RowAt(queues', k);
        assert DownAgrees(k.port, ports, ports');
      }
    }
  }

  lemma OneQueueChanged(k: QueueKey, ports: map<string, PortState>, ports': map<string, PortState>,
                        queues: map<QueueKey, string>, queues': map<QueueKey, string>,
                        rows: map<QueueKey, string>, rows': map<QueueKey, string>)
    requires SameDown(k.port, ports, ports') && DownAgrees(k.port, ports, ports') && AllPublished(ports, queues, rows)
    requires queues' - {k} == queues - {k} && Published(k, ports', queues', rows')
    requires SameElsewhere(k.port, rows, rows') && (!Down(ports', k.port) ==> rows' - {k} == rows - {k})
    ensures AllPublished(ports', queues', rows')
  {
    forall q ensures Published(q, ports', queues', rows') {
      if q != k {
        assert Published(q, ports, queues, rows);
        assert q in queues' <==> q in queues' - {k};
        assert q in queues' ==> (queues' - {k})[q] == (queues - {k})[q];
        if q.port == k.port {
          assert !Down(ports', k.port) && q in rows ==> q in rows' - {k} && (rows' - {k})[q] == (rows - {k})[q];
        } else {
          assert SameRow(q, rows, rows');
        }
        assert DownAgrees(q.port, ports, ports');
      }
    }
  }

  lemma SameElsewhereTwice(port: string, a: map<QueueKey, string>, b: map<QueueKey, string>, c: map<QueueKey, string>)
    requires SameElsewhere(port, a, b) && SameElsewhere(port, b, c)
    ensures SameElsewhere(port, a, c)
  {
    forall k: QueueKey | k.port != port ensures SameRow(k, a, c) {
      assert SameRow(k, a, b) && SameRow(k, b, c);
    }
  }

  lemma SlicesStillFit(port: string, ports: map<string, PortState>, ports': map<string, PortState>,
                       slices: map<string, set<QueueKey>>, slices': map<string, set<QueueKey>>)
    requires AllSlicesFit(ports, slices) && SameDown(port, ports, ports')
    requires SameSlices(port, slices, slices')
    requires SlicesFit(port, ports', slices')
    ensures AllSlicesFit(ports', slices')
  {
    forall p ensures SlicesFit(p, ports', slices') {
      if p != port {
        assert SlicesFit(p, ports, slices);
        assert SlicesOf(slices', p) == SlicesOf(slices, p);
        assert DownAgrees(p, ports, ports');
      }
    }
  }

  lemma StillDown(port: string, ports: map<string, PortState>, ports': map<string, PortState>,
                  waiting: set<string>, waiting': set<string>)
    requires AllDown(waiting, ports) && SameDown(port, ports, ports')
    requires waiting' <= waiting + {port} && (port in waiting' ==> Down(ports', port))
    ensures AllDown(waiting', ports')
  {
    forall p | p in waiting' ensures Down(ports', p) {
      if p != port {
        assert Down(ports, p);
        assert DownAgrees(p, ports, ports');
      }
    }
  }

  /** Ports that wait for zero profiles, or that have rows for unconfigured ids, are down. */
  ghost predicate WaitingAreDown(ports: map<string, PortState>, down: set<string>, waiting: set<string>,
                                 slices: map<string, set<QueueKey>>) {
    AllDown(down, ports) && AllDown(waiting, ports) && AllSlicesFit(ports, slices)
  }

  lemma StillWaiting(port: string, ports: map<string, PortState>, ports': map<string, PortState>,
                     down: set<string>, waiting: set<string>,
                     slices: map<string, set<QueueKey>>, slices': map<string, set<QueueKey>>)
    requires WaitingAreDown(ports, down, waiting, slices)
    requires SameDown(port, ports, ports') && DownAgrees(port, ports, ports')
    requires SameSlices(port, slices, slices') && SlicesFit(port, ports', slices')
    ensures WaitingAreDown(ports', down, waiting, slices')
  {
    assert Down(ports, port) == Down(ports', port);
    StillDown(port, ports, ports', down, down);
    StillDown(port, ports, ports', waiting, waiting);
    SlicesStillFit(port, ports, ports', slices, slices');
  }

  /** Every queue is published, but for those of some ports. */
  ghost predicate PublishedBut(others: set<string>, ports: map<string, PortState>, queues: map<QueueKey, string>,
                               rows: map<QueueKey, string>) {
    forall k: QueueKey {:trigger Published(k, ports, queues, rows)} ::
      k.port !in others ==> Published(k, ports, queues, rows)
  }

  lemma OneMorePublished(port: string, others: set<string>, ports: map<string, PortState>,
                         queues: map<QueueKey, string>, rows: map<QueueKey, string>, rows': map<QueueKey, string>)
    requires PublishedBut(others, ports, queues, rows) && SameElsewhere(port, rows, rows')
    requires Down(ports, port) || forall k: QueueKey {:trigger Published(k, ports, queues, rows')} ::
      k.port == port ==> Published(k, ports, queues, rows')
    ensures PublishedBut(others - {port}, ports, queues, rows')
  {
    forall k: QueueKey | k.port !in others - {port} ensures Published(k, ports, queues, rows') {
      if k.port != port {
        assert Published(k, ports, queues, rows) && SameRow(k, rows, rows');
      }
    }
  }

  ghost predicate OfItsPort(free: string -> set<QueueKey>) {
    forall p {:trigger free(p)} :: OfPort(free(p), p)
  }

  predicate OfPort(keys: set<QueueKey>, port: string) {
    forall k <- keys :: k.port == port
  }

  class BufferManager {
    /** The zero profile of the pool a profile draws on ("" for none), and the one of unconfigured queues. */
    const zeroOf: string -> string
    const zeroOfRest: string
    const supportRemoving: bool

    var portInitDone: bool
    var poolReady: bool
    var pending: bool
    var completelyInitialized: bool
    var defaultThreshold: string
    var mmuSize: string
    var wait: nat

    /** Buffer pools, and whether the size of each is left to the plugin. */
    var pools: map<string, bool>

    var ports: map<string, PortState>
    var hasMaxPgs: set<string>
    var hasMaxQueues: set<string>
    var adminDownPorts: set<string>
    var pendingZeroPorts: set<string>

    var queues: map<QueueKey, string>

    /** Supported but not configured queues of the ports that are down, and the ports whose rows for them are
     * deferred. */
    var slices: map<string, set<QueueKey>>
    var pendingSlices: set<string>

    /** APPL_DB. */
    var rows: map<QueueKey, string>

    /** What is not published is marked as pending, and completion is declared only with the pools ready. */
    ghost predicate NothingForgotten()
      reads this`pending, this`completelyInitialized, this`poolReady, this`ports, this`queues, this`rows
    {
      && (pending || AllPublished(ports, queues, rows))
      && (completelyInitialized ==> poolReady)
    }

    /** The timer still runs for whatever is pending. */
    ghost predicate Retried()
      reads this`pending, this`completelyInitialized
    {
      pending ==> !completelyInitialized
    }

    ghost predicate Valid()
      reads this
    {
      && NothingForgotten()
      && WaitingAreDown(ports, adminDownPorts, pendingZeroPorts, slices)
    }

    constructor (zeroOf: string -> string, zeroOfRest: string,
                 supportRemoving: bool, threshold: string, mmuSize: string)
      ensures Valid() && Retried() && pending && !poolReady && !completelyInitialized
      ensures queues == map[] && rows == map[] && ports == map[] && pools == map[] && pendingZeroPorts == {}
      ensures defaultThreshold == threshold && this.mmuSize == mmuSize && wait == WAIT_TICKS && !portInitDone
      ensures this.zeroOf == zeroOf && this.zeroOfRest == zeroOfRest && this.supportRemoving == supportRemoving
      ensures hasMaxPgs == hasMaxQueues == adminDownPorts == pendingSlices == {} && slices == map[]
    {
      this.zeroOf, this.zeroOfRest, this.supportRemoving := zeroOf, zeroOfRest, supportRemoving;
      this.portInitDone, this.poolReady, this.pending, this.completelyInitialized := false, false, true, false;
      this.defaultThreshold, this.mmuSize, this.wait, this.pools := threshold, mmuSize, WAIT_TICKS, map[];
      this.ports, this.hasMaxPgs, this.hasMaxQueues, this.adminDownPorts,
        this.pendingZeroPorts := map[], {}, {}, {}, {};
      this.queues, this.slices, this.pendingSlices, this.rows := map[], map[], {}, map[];
    }

    // ---------- single rows ----------

    /** Looking a port up creates it, administratively down. */
    method TouchPort(port: string)
      requires Valid()
      modifies this`ports
      ensures Valid() && ports == Touched(old(ports), port)
    {
      if port !in ports {
        ports := ports[port := AdminDown];
        assert SlicesFit(port, old(ports), slices);
        StillWaiting(port, old(ports), ports, adminDownPorts, pendingZeroPorts, slices, slices);
        if !pending {
          OnlyDownPortChanged(port, old(ports), ports, queues, queues, rows, rows);
        }
      }
    }

    /** updateBufferObjectToDb, adding a queue. */
    method UpdateQueue(k: QueueKey, profile: string)
      modifies this`pending, this`rows
      ensures pending == (old(pending) || !poolReady)
      ensures rows == if poolReady then old(rows)[k := profile] else old(rows)
    {
      if !poolReady {
        pending := true;
        return;
      }
      rows := rows[k := profile];
    }

    /** Publish the zero profile of unconfigured queues for every slice given. */
    method UpdateSlices(port: string, added: set<QueueKey>)
      requires forall k <- added :: k.port == port
      modifies this`pending, this`rows
      ensures pending == (old(pending) || (!poolReady && added != {}))
      ensures rows == if poolReady then old(rows) + Zeroed(added) else old(rows)
      ensures SameElsewhere(port, old(rows), rows)
    {
      var todo := added;
      while todo != {}
        invariant todo <= added
        invariant pending == (old(pending) || (!poolReady && todo != added))
        invariant rows == if poolReady then old(rows) + Zeroed(added - todo) else old(rows)
        decreases todo
      {
        var k :| k in todo;
        UpdateQueue(k, zeroOfRest);
        assert added - todo + {k} == added - (todo - {k});
        todo := todo - {k};
      }
      assert added - todo == added;
    }

    function Zeroed(keys: set<QueueKey>): map<QueueKey, string> {
      map k | k in keys :: zeroOfRest
    }

    function QueuesOf(keys: set<QueueKey>): map<QueueKey, string>
      reads this`queues
    {
      map k | k in keys && k in queues :: queues[k]
    }

    /** The configured queues of one port. */
    function OwnQueues(port: string): map<QueueKey, string>
      reads this`queues
    {
      map k | k in queues && k.port == port :: queues[k]
    }

    /** The queues of a port that is up, as applyNormalBufferObjectsOnPort and the timer publish them. */
    method ApplyQueues(port: string)
      modifies this`pending, this`rows
      ensures pending == (old(pending) || (!poolReady && OwnQueues(port) != map[]))
      ensures rows == if poolReady then old(rows) + OwnQueues(port) else old(rows)
      ensures SameElsewhere(port, old(rows), rows)
    {
      var todo := set k | k in queues && k.port == port;
      ghost var all := todo;
      while todo != {}
        invariant todo <= all
        invariant pending == (old(pending) || (!poolReady && todo != all))
        invariant rows == if poolReady then old(rows) + QueuesOf(all - todo) else old(rows)
        decreases todo
      {
        var k :| k in todo;
        UpdateQueue(k, queues[k]);
        assert all - todo + {k} == all - (todo - {k});
        todo := todo - {k};
      }
      assert all - todo == all;
      assert QueuesOf(all) == OwnQueues(port);
      assert OwnQueues(port).Keys == all;
    }

    /** refreshPgsForPort, as far as it concerns what is pending. */
    method RefreshPgs(port: string)
      modifies this`pending
      ensures pending == (old(pending) || (!Down(ports, port) && (!poolReady || defaultThreshold == "")))
      ensures old(Retried()) && (completelyInitialized ==> poolReady) ==>
        (Retried() <==> !(completelyInitialized && defaultThreshold == "" && !Down(ports, port)))
    {
      if Down(ports, port) {
        return;
      }
      if !poolReady || defaultThreshold == "" {
        pending := true;
      }
    }

    // ---------- a port that is down ----------

    /** The slices of a port that is down once an item has cut one: only known after port initialization. */
    function CutSlices(before: set<QueueKey>, slicing: Slicing): set<QueueKey>
      reads this`portInitDone
    {
      if portInitDone then before - slicing.removed + slicing.added else before
    }

    /** ... and the rows: what is left of the slice has its zero row, the item that of its pool, or none. */
    function CutRows(before: map<QueueKey, string>, k: QueueKey, profile: string, slicing: Slicing)
      : map<QueueKey, string>
      reads this`portInitDone, this`poolReady
    {
      var cut := if !portInitDone then before
                 else before - slicing.removed + if poolReady then Zeroed(slicing.added) else map[];
      if zeroOf(profile) == "" then cut - {k} else if poolReady then cut[k := zeroOf(profile)] else cut
    }

    /** The slices and rows after a removal on a port that is down: the item joins the slices it touches. */
    function MergedSlices(before: set<QueueKey>, k: QueueKey, slicing: Slicing): set<QueueKey>
      reads this`poolReady
    {
      if !poolReady then before
      else if slicing.removed != {} then before - slicing.removed + slicing.added
      else if zeroOfRest != "" then before + {k} else before
    }

    function MergedRows(before: map<QueueKey, string>, k: QueueKey, slicing: Slicing): map<QueueKey, string>
      reads this`poolReady
    {
      if !poolReady then before - {k}
      else if slicing.removed != {} then before - slicing.removed - {k} + Zeroed(slicing.added) else before
    }

    /** An accepted queue has a row to publish, its own or one of a slice it cuts. */
    predicate Publishes(port: string, profile: string, slicing: Slicing)
      reads this`ports, this`portInitDone
    {
      !Down(ports, port) || zeroOf(profile) != "" || (portInitDone && slicing.added != {})
    }

    /** handleSetSingleBufferObjectOnAdminDownPort; AdminDownPort.Port.Set computes the slicing. */
    method SetOnDownPort(k: QueueKey, profile: string, slicing: Slicing)
      requires Down(ports, k.port) && slicing.Of(k.port) && SlicesFit(k.port, ports, slices)
      modifies this`pending, this`slices, this`rows
      ensures pending == (old(pending) || (!poolReady && Publishes(k.port, profile, slicing)))
      ensures SameElsewhere(k.port, old(rows), rows)
      ensures SlicesFit(k.port, ports, slices) && SameSlices(k.port, old(slices), slices)
      ensures SlicesOf(slices, k.port) == CutSlices(SlicesOf(old(slices), k.port), slicing)
      ensures rows == CutRows(old(rows), k, profile, slicing)
      ensures zeroOf(profile) == "" ==> RowAt(rows, k) == None
      ensures zeroOf(profile) != "" && poolReady ==> RowAt(rows, k) == Some(zeroOf(profile))
    {
      if portInitDone {
        CutSlice(k.port, slicing);
      }
      if zeroOf(profile) != "" {
        UpdateQueue(k, zeroOf(profile));
      } else {
        rows := rows - {k};
      }
    }

    /** Regenerate the slices around an item. */
    method CutSlice(port: string, slicing: Slicing)
      requires Down(ports, port) && slicing.Of(port) && SlicesFit(port, ports, slices)
      modifies this`pending, this`slices, this`rows
      ensures pending == (old(pending) || (!poolReady && slicing.added != {}))
      ensures SameElsewhere(port, old(rows), rows)
      ensures SlicesFit(port, ports, slices) && SameSlices(port, old(slices), slices)
      ensures SlicesOf(slices, port) == SlicesOf(old(slices), port) - slicing.removed + slicing.added
      ensures rows == old(rows) - slicing.removed + if poolReady then Zeroed(slicing.added) else map[]
    {
      rows := rows - slicing.removed;
      slices := slices[port := SlicesOf(slices, port) - slicing.removed];
      UpdateSlices(port, slicing.added);
      slices := slices[port := SlicesOf(slices, port) + slicing.added];
    }

    /** handleDelSingleBufferObjectOnAdminDownPort; AdminDownPort.Port.Del computes the slicing. */
    method DelOnDownPort(k: QueueKey, slicing: Slicing)
      requires Down(ports, k.port) && slicing.Of(k.port) && SlicesFit(k.port, ports, slices)
      modifies this`pending, this`slices, this`rows
      ensures pending == old(pending)
      ensures SameElsewhere(k.port, old(rows), rows)
      ensures SlicesFit(k.port, ports, slices) && SameSlices(k.port, old(slices), slices)
      ensures SlicesOf(slices, k.port) == MergedSlices(SlicesOf(old(slices), k.port), k, slicing)
      ensures rows == MergedRows(old(rows), k, slicing)
      ensures !poolReady ==> slices == old(slices) && rows == old(rows) - {k}
      ensures poolReady && zeroOfRest != "" && slicing.removed == {} ==>
        k in SlicesOf(slices, k.port) && rows == old(rows)
      ensures poolReady && slicing.removed != {} ==>
        && SlicesOf(slices, k.port) == SlicesOf(old(slices), k.port) - slicing.removed + slicing.added
        && forall s <- slicing.added :: RowAt(rows, s) == Some(zeroOfRest)
    {
      if !poolReady {
        rows := rows - {k};
        return;
      }
      if slicing.removed != {} {
        rows := rows - slicing.removed - {k};
        slices := slices[k.port := SlicesOf(slices, k.port) - slicing.removed + slicing.added];
        UpdateSlices(k.port, slicing.added);
      } else if zeroOfRest != "" {
        slices := slices[k.port := SlicesOf(slices, k.port) + {k}];
      }
    }

    /** reclaimReservedBufferForPort for queues; `free` are the ids no queue covers, as AdminDownPort.Port.Reclaim
     * computes them. */
    method Reclaim(port: string, free: set<QueueKey>)
      requires poolReady && Down(ports, port) && OfPort(free, port)
      requires SlicesFit(port, ports, slices)
      modifies this`slices, this`pendingSlices, this`rows
      ensures SameElsewhere(port, old(rows), rows)
      ensures SlicesFit(port, ports, slices) && SameSlices(port, old(slices), slices)
      ensures Reclaimed(port, free)
      ensures pendingSlices == old(pendingSlices) + if zeroOfRest != "" && wait != 0 then {port} else {}
    {
      ZeroQueues(port);
      if zeroOfRest != "" {
        slices := slices[port := free];
        if wait == 0 {
          ghost var zeroed := rows;
          rows := rows + Zeroed(free);
          SameElsewhereTwice(port, old(rows), zeroed, rows);
        } else {
          pendingSlices := pendingSlices + {port};
        }
      }
    }

    /** The configured queues of a port take the zero profile of their pool, or lose their row when it has none. */
    method ZeroQueues(port: string)
      modifies this`rows
      ensures SameElsewhere(port, old(rows), rows)
      ensures ZeroesQueues(port, {})
    {
      var todo := set k | k in queues && k.port == port;
      while todo != {}
        invariant forall k <- todo :: k in queues && k.port == port
        invariant forall k <- queues.Keys | k.port == port && k !in todo ::
          if zeroOf(queues[k]) != "" then k in rows && rows[k] == zeroOf(queues[k]) else k !in rows
        invariant forall k: QueueKey | k.port != port ::
          (k in rows <==> k in old(rows)) && (k in rows ==> rows[k] == old(rows)[k])
        decreases todo
      {
        var k :| k in todo;
        if zeroOf(queues[k]) != "" {
          rows := rows[k := zeroOf(queues[k])];
        } else {
          rows := rows - {k};
        }
        todo := todo - {k};
      }
    }

    /** cleanUpItemsForReclaimingBuffer and removeSupportedButNotConfiguredItemsOnPort. */
    method CleanUp(port: string)
      requires forall k <- SlicesOf(slices, port) :: k.port == port
      modifies this`slices, this`rows
      ensures rows == old(rows) - SlicesOf(old(slices), port)
      ensures SlicesOf(slices, port) == {} && SameSlices(port, old(slices), slices)
      ensures SameElsewhere(port, old(rows), rows)
    {
      rows := rows - SlicesOf(slices, port);
      slices := slices[port := {}];
    }

    // ---------- queues ----------

    /** handleSingleBufferQueueEntry, SET; `verdict` is what the profile named in the event deserves. */
    method SetQueue(k: QueueKey, profile: Option<string>, verdict: Status, slicing: Slicing) returns (status: Status)
      requires Valid() && slicing.Of(k.port)
      modifies this`ports, this`pending, this`queues, this`slices, this`rows
      ensures Valid() && (old(Retried()) ==> Retried())
      ensures status == if profile.None? then Failed else verdict
      ensures queues == if status == Success then old(queues)[k := profile.value] else old(queues)
      ensures ports == Touched(old(ports), k.port)
      ensures status == Success && !Down(ports, k.port) ==>
        && (if poolReady then RowAt(rows, k) == Some(profile.value) else pending)
        && rows - {k} == old(rows) - {k} && slices == old(slices)
      ensures status == Success && Down(ports, k.port) ==>
        && rows == CutRows(old(rows), k, profile.value, slicing)
        && SlicesOf(slices, k.port) == CutSlices(SlicesOf(old(slices), k.port), slicing)
        && (zeroOf(profile.value) == "" ==> RowAt(rows, k) == None)
        && (zeroOf(profile.value) != "" ==>
              if poolReady then RowAt(rows, k) == Some(zeroOf(profile.value)) else pending)
      ensures SameSlices(k.port, old(slices), slices)
      ensures if status == Success
              then pending == (old(pending) || (!poolReady && Publishes(k.port, profile.value, slicing)))
              else (rows, slices, pending) == old((rows, slices, pending))
    {
      TouchPort(k.port);
      assert SlicesFit(k.port, ports, slices);
      if profile.None? {
        return Failed;
      }
      if verdict != Success {
        return verdict;
      }
      StoreQueue(k, profile.value, slicing);
      status := Success;
    }

    /** A queue whose profile has been accepted. */
    method StoreQueue(k: QueueKey, profile: string, slicing: Slicing)
      requires Valid() && slicing.Of(k.port)
      modifies this`pending, this`queues, this`slices, this`rows
      ensures Valid() && queues == old(queues)[k := profile]
      ensures old(Retried()) ==> Retried()
      ensures pending == (old(pending) || (!poolReady && Publishes(k.port, profile, slicing)))
      ensures !Down(ports, k.port) ==>
        && (if poolReady then RowAt(rows, k) == Some(profile) else pending)
        && rows - {k} == old(rows) - {k} && slices == old(slices)
      ensures Down(ports, k.port) ==>
        && rows == CutRows(old(rows), k, profile, slicing)
        && SlicesOf(slices, k.port) == CutSlices(SlicesOf(old(slices), k.port), slicing)
        && (zeroOf(profile) == "" ==> RowAt(rows, k) == None)
        && (zeroOf(profile) != "" ==> if poolReady then RowAt(rows, k) == Some(zeroOf(profile)) else pending)
      ensures SameSlices(k.port, old(slices), slices)
    {
      assert SlicesFit(k.port, ports, slices);
      queues := queues[k := profile];
      if Down(ports, k.port) {
        SetOnDownPort(k, profile, slicing);
        StillWaiting(k.port, ports, ports, adminDownPorts, pendingZeroPorts, old(slices), slices);
      } else {
        UpdateQueue(k, profile);
      }
      if !pending {
        OneQueueChanged(k, ports, ports, old(queues), queues, old(rows), rows);
      }
    }

    /** handleSingleBufferQueueEntry, DEL. */
    method DelQueue(k: QueueKey, slicing: Slicing) returns (status: Status)
      requires Valid() && slicing.Of(k.port)
      modifies this`ports, this`pending, this`queues, this`slices, this`rows
      ensures Valid() && status == if supportRemoving then Success else Failed
      ensures old(Retried()) ==> Retried()
      ensures queues == if supportRemoving then old(queues) - {k} else old(queues)
      ensures ports == Touched(old(ports), k.port)
      ensures supportRemoving && !Down(ports, k.port) ==> rows == old(rows) - {k} && slices == old(slices)
      ensures supportRemoving && Down(ports, k.port) ==>
        && rows == MergedRows(old(rows), k, slicing)
        && SlicesOf(slices, k.port) == MergedSlices(SlicesOf(old(slices), k.port), k, slicing)
      ensures SameSlices(k.port, old(slices), slices) && pending == old(pending)
      ensures !supportRemoving ==> rows == old(rows) && slices == old(slices)
    {
      TouchPort(k.port);
      if !supportRemoving {
        return Failed;
      }
      EraseQueue(k, slicing);
      status := Success;
    }

    method EraseQueue(k: QueueKey, slicing: Slicing)
      requires Valid() && slicing.Of(k.port)
      modifies this`pending, this`queues, this`slices, this`rows
      ensures Valid() && queues == old(queues) - {k}
      ensures old(Retried()) ==> Retried()
      ensures !Down(ports, k.port) ==> rows == old(rows) - {k} && slices == old(slices)
      ensures Down(ports, k.port) ==>
        && rows == MergedRows(old(rows), k, slicing)
        && SlicesOf(slices, k.port) == MergedSlices(SlicesOf(old(slices), k.port), k, slicing)
      ensures SameSlices(k.port, old(slices), slices) && pending == old(pending)
    {
      assert SlicesFit(k.port, ports, slices);
      queues := queues - {k};
      if Down(ports, k.port) {
        DelOnDownPort(k, slicing);
        StillWaiting(k.port, ports, ports, adminDownPorts, pendingZeroPorts, old(slices), slices);
      } else {
        rows := rows - {k};
      }
      if !pending {
        OneQueueChanged(k, ports, ports, old(queues), queues, old(rows), rows);
      }
    }

    // ---------- ports ----------

    /** STATE_DB has told how many priority groups and queues the port has. */
    predicate IsReadyToReclaim(port: string)
      reads this`hasMaxPgs, this`hasMaxQueues
    {
      port in hasMaxPgs && port in hasMaxQueues
    }

    /** isReadyToReclaimBufferOnPort */
    method ReadyToReclaim(port: string) returns (ready: bool)
      ensures ready == IsReadyToReclaim(port)
    {
      if port !in hasMaxPgs {
        return false;
      }
      if port !in hasMaxQueues {
        return false;
      }
      return true;
    }

    /** The part of handlePortTable for a port that is administratively down. */
    method HandleAdminDown(port: string, free: set<QueueKey>)
      requires Valid() && Down(ports, port) && OfPort(free, port)
      modifies this`adminDownPorts, this`pendingZeroPorts, this`slices, this`pendingSlices, this`rows
      ensures Valid() && adminDownPorts == old(adminDownPorts) + {port}
      ensures if poolReady && IsReadyToReclaim(port) then
        pendingZeroPorts == old(pendingZeroPorts) && Reclaimed(port, free)
      else
        pendingZeroPorts == old(pendingZeroPorts) + {port} && (rows, slices) == old((rows, slices))
    {
      assert SlicesFit(port, ports, slices);
      adminDownPorts := adminDownPorts + {port};
      var ready := ReadyToReclaim(port);
      if !poolReady || !ready {
        pendingZeroPorts := pendingZeroPorts + {port};
      } else {
        Reclaim(port, free);
        SlicesStillFit(port, ports, ports, old(slices), slices);
        if !pending {
          OnlyDownPortChanged(port, ports, ports, queues, queues, old(rows), rows);
        }
      }
    }

    /** The configured queues of a port that no free slice hides name the zero profile of their pool. */
    ghost predicate ZeroesQueues(port: string, free: set<QueueKey>)
      reads this`queues, this`rows
    {
      forall k <- queues.Keys - free | k.port == port ::
        RowAt(rows, k) == if zeroOf(queues[k]) != "" then Some(zeroOf(queues[k])) else None
    }

    /** ... and its free queues make up its slices, with their zero rows at once unless the system is starting. */
    ghost predicate Reclaimed(port: string, free: set<QueueKey>)
      reads this`queues, this`rows, this`slices, this`pendingSlices, this`wait
    {
      && ZeroesQueues(port, free)
      && (zeroOfRest != "" ==>
            && SlicesOf(slices, port) == free
            && if wait != 0 then port in pendingSlices else forall k <- free :: RowAt(rows, k) == Some(zeroOfRest))
    }

    /** The zero rows of unconfigured queues go before the configured queues return. */
    method RestoreQueues(port: string)
      requires forall k <- SlicesOf(slices, port) :: k.port == port
      modifies this`pending, this`slices, this`rows
      ensures rows == old(rows) - SlicesOf(old(slices), port) + if poolReady then OwnQueues(port) else map[]
      ensures SameElsewhere(port, old(rows), rows)
      ensures SlicesOf(slices, port) == {} && SameSlices(port, old(slices), slices)
      ensures old(pending) ==> pending
      ensures poolReady ==> pending == old(pending)
    {
      CleanUp(port);
      ghost var cleaned := rows;
      ApplyQueues(port);
      SameElsewhereTwice(port, old(rows), cleaned, rows);
    }

    /** The part of handlePortTable for a port that has just been brought up. */
    method HandleAdminUp(port: string, known: bool)
      requires Valid()
      modifies this`ports, this`pending, this`adminDownPorts, this`pendingZeroPorts, this`slices, this`rows
      ensures Valid() && ports == old(ports)[port := if known then Ready else Initializing]
      ensures old(Retried()) ==> (Retried() <==> !(completelyInitialized && defaultThreshold == ""))
      ensures adminDownPorts == old(adminDownPorts) - {port} && pendingZeroPorts == old(pendingZeroPorts) - {port}
      ensures !poolReady ==> pending
      ensures rows == old(rows) - SlicesOf(old(slices), port) + if poolReady then OwnQueues(port) else map[]
      ensures SlicesOf(slices, port) == {}
    {
      assert SlicesFit(port, ports, slices);
      ports := ports[port := if known then Ready else Initializing];
      RestoreQueues(port);
      adminDownPorts, pendingZeroPorts := adminDownPorts - {port}, pendingZeroPorts - {port};
      RefreshPgs(port);
      StillDown(port, old(ports), ports, old(adminDownPorts), adminDownPorts);
      StillDown(port, old(ports), ports, old(pendingZeroPorts), pendingZeroPorts);
      SlicesStillFit(port, old(ports), ports, old(slices), slices);
      if !pending {
        OnePortPublished(port, old(ports), ports, queues, queues, old(rows), rows);
      }
    }

    /** The timer publishes what is pending for every port that is up. */
    method PublishPorts()
      requires poolReady && defaultThreshold != ""
      modifies this`pending, this`rows
      ensures pending == old(pending) && AllPublished(ports, queues, rows)
    {
      var todo := ports.Keys;
      assert PublishedBut(todo, ports, queues, rows);
      while todo != {}
        invariant todo <= ports.Keys && pending == old(pending)
        invariant PublishedBut(todo, ports, queues, rows)
        decreases todo
      {
        var port :| port in todo;
        ghost var before := rows;
        if !Down(ports, port) {
          RefreshPgs(port);
          ApplyQueues(port);
          assert forall k <- queues.Keys | k.port == port :: k in OwnQueues(port);
        }
        OneMorePublished(port, todo, ports, queues, before, rows);
        todo := todo - {port};
      }
      forall k ensures Published(k, ports, queues, rows) {
        assert k.port !in todo;
      }
    }

    method MarkDown(port: string)
      requires Valid()
      modifies this`ports
      ensures Valid() && ports == old(ports)[port := AdminDown]
    {
      assert SlicesFit(port, ports, slices);
      ports := ports[port := AdminDown];
      StillDown(port, old(ports), ports, adminDownPorts, adminDownPorts);
      StillDown(port, old(ports), ports, pendingZeroPorts, pendingZeroPorts);
      SlicesStillFit(port, old(ports), ports, slices, slices);
      if !pending {
        OnlyDownPortChanged(port, old(ports), ports, queues, queues, rows, rows);
      }
    }

    /** A port that is up learns its effective speed, its cable length or its MTU. */
    method HandleRefresh(port: string)
      requires Valid() && port in ports && !Down(ports, port)
      modifies this`ports, this`pending
      ensures Valid() && ports == old(ports)[port := Ready]
      ensures pending == (old(pending) || !poolReady || defaultThreshold == "")
      ensures old(Retried()) ==> (Retried() <==> !(completelyInitialized && defaultThreshold == ""))
    {
      assert SlicesFit(port, ports, slices);
      ports := ports[port := Ready];
      RefreshPgs(port);
      StillWaiting(port, old(ports), ports, adminDownPorts, pendingZeroPorts, slices, slices);
      if !pending {
        forall k ensures Published(k, ports, queues, rows) {
          assert Published(k, old(ports), queues, rows);
        }
      }
    }

    /**
      handlePortTable, SET: `admin` is the admin_status in the event, `known` tells
      whether effective speed and cable length are, and `refresh` whether the
      speed or the MTU changed while they are.  Pending work loses its retry exactly
      when the event refreshes a port after the threshold of a completely
      initialized system has been emptied.
     */
    method SetPort(port: string, admin: Option<bool>, refresh: bool, known: bool, free: set<QueueKey>)
      requires Valid() && OfPort(free, port)
      modifies this`ports, this`pending, this`adminDownPorts, this`pendingZeroPorts,
        this`slices, this`pendingSlices, this`rows
      ensures Valid()
      ensures old(Retried()) ==>
        (Retried() <==> !(&& completelyInitialized && defaultThreshold == ""
                          && (if old(Down(ports, port)) then admin == Some(true) else refresh && admin != Some(false))))
      ensures var wasDown, isNew := old(Down(ports, port)), old(port !in ports);
              if wasDown && admin == Some(true) then
                && ports == old(ports)[port := if known then Ready else Initializing]
                && adminDownPorts == old(adminDownPorts) - {port} && pendingZeroPorts == old(pendingZeroPorts) - {port}
                && rows == old(rows) - SlicesOf(old(slices), port) + (if poolReady then OwnQueues(port) else map[])
                && SlicesOf(slices, port) == {} && (!poolReady ==> pending)
              else if (!wasDown && admin == Some(false)) || isNew then
                && ports == old(ports)[port := AdminDown] && pending == old(pending)
                && adminDownPorts == old(adminDownPorts) + {port}
                && if poolReady && IsReadyToReclaim(port) then
                     pendingZeroPorts == old(pendingZeroPorts) && Reclaimed(port, free)
                   else
                     pendingZeroPorts == old(pendingZeroPorts) + {port} && (rows, slices) == old((rows, slices))
              else
                && ports == (if refresh && !wasDown then old(ports)[port := Ready] else old(ports))
                && pending == (old(pending) || (refresh && !wasDown && (!poolReady || defaultThreshold == "")))
                && (adminDownPorts, pendingZeroPorts, rows, slices)
                   == old((adminDownPorts, pendingZeroPorts, rows, slices))
    {
      var firstTimeCreate := port !in ports;
      TouchPort(port);
      var wasDown := Down(ports, port);
      var updated := admin.Some? && admin.value == wasDown;
      if updated && admin.value {
        HandleAdminUp(port, known);
      } else if updated || firstTimeCreate {
        MarkDown(port);
        HandleAdminDown(port, free);
      } else if refresh && !wasDown {
        HandleRefresh(port);
      }
    }

    /** handlePortTable, DEL; `busy` when priority groups or profile lists are left on the port. */
    method DelPort(port: string, busy: bool) returns (status: Status)
      requires Valid()
      modifies this`ports, this`hasMaxPgs, this`hasMaxQueues, this`slices, this`rows
      ensures Valid()
      ensures status == if busy || (exists k <- queues.Keys :: k.port == port) then NeedRetry else Success
      ensures if status == Success
              then (ports, hasMaxPgs, hasMaxQueues) == old((ports - {port}, hasMaxPgs - {port}, hasMaxQueues - {port}))
              else (ports, hasMaxPgs, hasMaxQueues) == old((Touched(ports, port), hasMaxPgs, hasMaxQueues))
      ensures SlicesOf(slices, port) == {} && rows == old(rows) - SlicesOf(old(slices), port)
    {
      TouchPort(port);
      assert ports - {port} == old(ports) - {port};
      ForgetSlices(port);
      if busy || exists k <- queues.Keys :: k.port == port {
        return NeedRetry;
      }
      ErasePort(port);
      status := Success;
    }

    /** cleanUpItemsForReclaimingBuffer, between two events. */
    method ForgetSlices(port: string)
      requires Valid()
      modifies this`slices, this`rows
      ensures Valid() && SlicesOf(slices, port) == {} && SameSlices(port, old(slices), slices)
      ensures rows == old(rows) - SlicesOf(old(slices), port)
    {
      assert SlicesFit(port, ports, slices);
      CleanUp(port);
      SlicesStillFit(port, ports, ports, old(slices), slices);
      if !pending {
        if Down(ports, port) {
          OnlyDownPortChanged(port, ports, ports, queues, queues, old(rows), rows);
        } else {
          assert rows == old(rows);
        }
      }
    }

    method ErasePort(port: string)
      requires Valid() && SlicesOf(slices, port) == {} && !exists k <- queues.Keys :: k.port == port
      modifies this`ports, this`hasMaxPgs, this`hasMaxQueues
      ensures Valid()
      ensures (ports, hasMaxPgs, hasMaxQueues) == old((ports - {port}, hasMaxPgs - {port}, hasMaxQueues - {port}))
    {
      ports, hasMaxPgs, hasMaxQueues := ports - {port}, hasMaxPgs - {port}, hasMaxQueues - {port};
      StillDown(port, old(ports), ports, adminDownPorts, adminDownPorts);
      StillDown(port, old(ports), ports, pendingZeroPorts, pendingZeroPorts);
      SlicesStillFit(port, old(ports), ports, slices, slices);
      if !pending {
        OnlyDownPortChanged(port, old(ports), ports, queues, queues, rows, rows);
      }
    }

    /** handleBufferMaxParam for a port: STATE_DB tells how many queues, or else priority groups, it has. */
    method SetMaximum(port: string, ofQueues: bool, count: int, free: set<QueueKey>) returns (status: Status)
      requires Valid() && OfPort(free, port)
      modifies this`hasMaxPgs, this`hasMaxQueues, this`slices, this`pendingSlices, this`rows
      ensures Valid()
      ensures status == if port !in ports then NeedRetry else if count <= 0 then Failed else Success
      ensures hasMaxPgs == old(hasMaxPgs) + if status == Success && !ofQueues then {port} else {}
      ensures hasMaxQueues == old(hasMaxQueues) + if status == Success && ofQueues then {port} else {}
      ensures if status == Success && ofQueues && completelyInitialized && Down(ports, port) then Reclaimed(port, free)
              else (rows, slices) == old((rows, slices))
    {
      if port !in ports {
        return NeedRetry;
      }
      if count <= 0 {
        return Failed;
      }
      if !ofQueues {
        hasMaxPgs := hasMaxPgs + {port};
      } else {
        hasMaxQueues := hasMaxQueues + {port};
        if completelyInitialized && Down(ports, port) {
          assert SlicesFit(port, ports, slices);
          Reclaim(port, free);
          SlicesStillFit(port, ports, ports, old(slices), slices);
          if !pending {
            OnlyDownPortChanged(port, ports, ports, queues, queues, old(rows), rows);
          }
        }
      }
      status := Success;
    }

    // ---------- pools, profiles and the default threshold ----------

    /** updateBufferProfileToDb, as far as it concerns what is pending. */
    method UpdateProfile()
      requires Valid()
      modifies this`pending
      ensures Valid() && pending == (old(pending) || !poolReady) && (old(Retried()) ==> Retried())
    {
      if !poolReady {
        pending := true;
      }
    }

    /** handleBufferPoolTable, SET. */
    method SetPool(name: string, hasSize: bool)
      requires Valid()
      modifies this`pools
      ensures Valid() && pools == old(pools)[name := !hasSize]
    {
      pools := pools[name := !hasSize];
    }

    /** handleBufferPoolTable, DEL: with the last pool gone everything is initialized again. */
    method DelPool(name: string)
      requires Valid()
      modifies this`pools, this`poolReady, this`completelyInitialized, this`pendingZeroPorts, this`slices, this`rows
      ensures Valid() && pools == old(pools) - {name} && (old(Retried()) ==> Retried())
      ensures if old(poolReady) && pools == map[] then
        && !poolReady && !completelyInitialized && pendingZeroPorts == adminDownPorts
        && forall p <- adminDownPorts :: SlicesOf(slices, p) == {}
      else
        && poolReady == old(poolReady) && completelyInitialized == old(completelyInitialized)
        && rows == old(rows) && slices == old(slices) && pendingZeroPorts == old(pendingZeroPorts)
    {
      pools := pools - {name};
      if poolReady && pools == map[] {
        var todo := adminDownPorts;
        while todo != {}
          invariant Valid() && todo <= adminDownPorts && pools == map[]
          invariant forall p {:trigger SlicesOf(slices, p)} :: p in adminDownPorts - todo ==> SlicesOf(slices, p) == {}
          decreases todo
        {
          var port :| port in todo;
          ForgetSlices(port);
          todo := todo - {port};
        }
        poolReady, completelyInitialized, pendingZeroPorts := false, false, adminDownPorts;
      }
    }

    /** The default threshold in handleDefaultLossLessBufferParam; what is pending keeps its retry, see RefreshPgs. */
    method SetThreshold(value: string) returns (status: Status)
      requires Valid()
      modifies this`defaultThreshold
      ensures Valid() && status == if INGRESS_LOSSLESS_POOL in pools then Success else NeedRetry
      ensures defaultThreshold == if status == Success then value else old(defaultThreshold)
    {
      if INGRESS_LOSSLESS_POOL !in pools {
        return NeedRetry;
      }
      defaultThreshold := value;
      status := Success;
    }

    // ---------- the timer ----------

    /** checkSharedBufferPoolSize: `initDone` is what APPL_DB says of port initialization, `answered` whether the
     * plugin replies. */
    method CheckSharedBufferPoolSize(force: bool, initDone: bool, answered: bool)
      requires Valid()
      modifies this`portInitDone, this`poolReady
      ensures Valid() && (old(poolReady) ==> poolReady)
      ensures portInitDone == (old(portInitDone) || (force && initDone))
      ensures poolReady == (old(poolReady) || ((if portInitDone then mmuSize != "" else force)
                                               && pools != map[] && (answered || true !in pools.Values)))
    {
      if !portInitDone && !force {
        return;
      }
      if !portInitDone {
        if !initDone {
          if !poolReady {
            RecalculateSharedBufferPool(answered);
          }
          return;
        }
        portInitDone := true;
      }
      if mmuSize != "" {
        RecalculateSharedBufferPool(answered);
      }
    }

    /** recalculateSharedBufferPool, as far as it concerns whether the pools are ready. */
    method RecalculateSharedBufferPool(answered: bool)
      requires Valid()
      modifies this`poolReady
      ensures Valid()
      ensures poolReady == (old(poolReady) || (pools != map[] && (answered || true !in pools.Values)))
    {
      if !poolReady {
        if pools == map[] {
          return;
        }
        if true !in pools.Values {
          poolReady := true;
        }
      }
      if !answered {
        return;
      }
      poolReady := true;
    }

    /** The ports waiting for zero profiles take them, but for those whose size is not known yet. */
    method ReclaimPending(free: string -> set<QueueKey>)
      requires Valid() && poolReady && OfItsPort(free)
      modifies this`pendingZeroPorts, this`slices, this`pendingSlices, this`rows
      ensures Valid() && pendingZeroPorts == set p | p in old(pendingZeroPorts) && !IsReadyToReclaim(p)
      ensures old(pendingSlices) <= pendingSlices && (wait == 0 ==> pendingSlices == old(pendingSlices))
      ensures forall p <- old(pendingZeroPorts) - pendingZeroPorts :: Reclaimed(p, free(p))
    {
      var retry := {};
      var todo := pendingZeroPorts;
      while todo != {}
        invariant Valid() && todo <= pendingZeroPorts && pendingZeroPorts == old(pendingZeroPorts)
        invariant retry == set p | p in pendingZeroPorts - todo && !IsReadyToReclaim(p)
        invariant forall p <- pendingZeroPorts - todo - retry :: Reclaimed(p, free(p))
        invariant old(pendingSlices) <= pendingSlices && (wait == 0 ==> pendingSlices == old(pendingSlices))
        decreases todo
      {
        var port :| port in todo;
        var ready := ReadyToReclaim(port);
        if ready {
          ReclaimWaiting(port, free(port));
        } else {
          retry := retry + {port};
        }
        todo := todo - {port};
      }
      pendingZeroPorts := retry;
      StillDown("", ports, ports, old(pendingZeroPorts), pendingZeroPorts);
    }

    method ReclaimWaiting(port: string, free: set<QueueKey>)
      requires Valid() && poolReady && port in pendingZeroPorts && OfPort(free, port)
      modifies this`slices, this`pendingSlices, this`rows
      ensures Valid() && Reclaimed(port, free)
      ensures pendingSlices == old(pendingSlices) + if zeroOfRest != "" && wait != 0 then {port} else {}
      ensures forall p, f {:trigger Reclaimed(p, f)} ::
        p != port && OfPort(f, p) && old(Reclaimed(p, f)) ==> Reclaimed(p, f)
    {
      assert Down(ports, port) && SlicesFit(port, ports, slices);
      Reclaim(port, free);
      SlicesStillFit(port, ports, ports, old(slices), slices);
      if !pending {
        OnlyDownPortChanged(port, ports, ports, queues, queues, old(rows), rows);
      }
      forall p, f | p != port && OfPort(f, p) && old(Reclaimed(p, f)) ensures Reclaimed(p, f) {
        assert SlicesOf(slices, p) == SlicesOf(old(slices), p);
        forall k: QueueKey | k.port == p ensures RowAt(rows, k) == RowAt(old(rows), k) {
          assert SameRow(k, old(rows), rows);
        }
      }
    }

    /** Rows for the unconfigured queues that were deferred at start-up. */
    method ApplyPendingSlices()
      requires Valid() && poolReady
      modifies this`pending, this`pendingSlices, this`rows
      ensures Valid() && pending == old(pending) && pendingSlices == {}
      ensures SlicesZeroed(old(pendingSlices))
    {
      var todo := pendingSlices;
      while todo != {}
        invariant Valid() && pending == old(pending) && todo <= old(pendingSlices)
        invariant forall p <- old(pendingSlices) - todo, k <- SlicesOf(slices, p) :: RowAt(rows, k) == Some(zeroOfRest)
        decreases todo
      {
        var port :| port in todo;
        ghost var before := rows;
        assert SlicesFit(port, ports, slices);
        UpdateSlices(port, SlicesOf(slices, port));
        if !pending {
          if Down(ports, port) {
            OnlyDownPortChanged(port, ports, ports, queues, queues, before, rows);
          } else {
            assert rows == before;
          }
        }
        forall p <- old(pendingSlices) - (todo - {port}), k <- SlicesOf(slices, p)
          ensures RowAt(rows, k) == Some(zeroOfRest) {
          if p != port {
            assert SlicesFit(p, ports, slices) && SameRow(k, before, rows);
          }
        }
        todo := todo - {port};
      }
      pendingSlices := {};
    }

    /** The unconfigured queues of the ports have their zero rows. */
    ghost predicate SlicesZeroed(some: set<string>)
      reads this`slices, this`rows
    {
      forall p <- some, k <- SlicesOf(slices, p) :: RowAt(rows, k) == Some(zeroOfRest)
    }

    /** What is pending is published for the ports that are up, and reclaimed for those that are down. */
    method PublishPending(free: string -> set<QueueKey>)
      requires Valid() && poolReady && defaultThreshold != "" && OfItsPort(free)
      modifies this`pending, this`pendingZeroPorts, this`slices, this`pendingSlices, this`rows
      ensures Valid() && !pending && AllPublished(ports, queues, rows)
      ensures pendingZeroPorts == set p | p in old(pendingZeroPorts) && !IsReadyToReclaim(p)
      ensures old(pendingSlices) <= pendingSlices && (wait == 0 ==> pendingSlices == old(pendingSlices))
    {
      if pending {
        PublishPorts();
        pending := false;
      }
      ReclaimPending(free);
    }

    /** handlePendingBufferObjects, when the system is not restarting warm. */
    method HandlePendingBufferObjects(free: string -> set<QueueKey>)
      requires Valid() && OfItsPort(free) && !completelyInitialized
      modifies this`pending, this`completelyInitialized, this`wait,
        this`pendingZeroPorts, this`slices, this`pendingSlices, this`rows
      ensures Valid() && (old(Retried()) ==> Retried())
      ensures poolReady && defaultThreshold != "" ==>
        && !pending && AllPublished(ports, queues, rows)
        && pendingZeroPorts == (set p | p in old(pendingZeroPorts) && !IsReadyToReclaim(p))
        && (wait != old(wait) <==> old(wait) > 0 && portInitDone && pendingZeroPorts == {})
        && (completelyInitialized <==> old(wait) == 0 && pendingZeroPorts == {})
        && (old(wait) == 0 ==> pendingSlices == {} && SlicesZeroed(old(pendingSlices)))
      ensures wait == old(wait) || wait == old(wait) - 1
      ensures !poolReady || defaultThreshold == "" ==>
        && (rows, slices, pending, wait) == old((rows, slices, pending, wait)) && !completelyInitialized
        && (pendingZeroPorts, pendingSlices) == old((pendingZeroPorts, pendingSlices))
    {
      if poolReady && defaultThreshold != "" {
        PublishPending(free);
        var configuredItemsDone := !pending && pendingZeroPorts == {};
        if wait > 0 {
          if portInitDone && configuredItemsDone {
            wait := wait - 1;
          }
        } else {
          ApplyPendingSlices();
          if configuredItemsDone {
            completelyInitialized := true;
          }
        }
      }
    }

    /**
      One tick of the timer.  As long as initialization is not complete, a tick that
      finds the pools and the threshold leaves nothing pending.
     */
    method Tick(initDone: bool, answered: bool, free: string -> set<QueueKey>)
      requires Valid() && OfItsPort(free)
      modifies this`portInitDone, this`poolReady, this`pending, this`completelyInitialized, this`wait
      modifies this`pendingZeroPorts, this`slices, this`pendingSlices, this`rows
      ensures Valid() && (old(Retried()) ==> Retried())
      ensures portInitDone == (old(portInitDone) || initDone)
      ensures old(poolReady) || (portInitDone && mmuSize != "" && pools != map[] && answered) ==> poolReady
      ensures old(completelyInitialized) ==>
        completelyInitialized && rows == old(rows) && pendingZeroPorts == old(pendingZeroPorts)
      ensures !old(completelyInitialized) && poolReady && defaultThreshold != "" ==>
        && pendingZeroPorts == (set p | p in old(pendingZeroPorts) && !IsReadyToReclaim(p))
        && (wait != old(wait) <==> old(wait) > 0 && portInitDone && pendingZeroPorts == {})
        && (completelyInitialized <==> old(wait) == 0 && pendingZeroPorts == {})
        && (old(wait) == 0 ==> pendingSlices == {} && SlicesZeroed(old(pendingSlices)))
      ensures !old(completelyInitialized) && poolReady && defaultThreshold != "" ==>
        !pending && AllPublished(ports, queues, rows)
      ensures old(completelyInitialized) ==> pending == old(pending)
      ensures wait == old(wait) || wait == old(wait) - 1
    {
      CheckSharedBufferPoolSize(true, initDone, answered);
      if !completelyInitialized {
        HandlePendingBufferObjects(free);
      }
    }

    // ---------- whole runs ----------

    /**
      Initialization completes: once the pools, the threshold and the sizes of the
      ports are there, no more than WAIT_TICKS + 1 undisturbed ticks publish
      everything and stop the retries.
     */
    method Settle(free: string -> set<QueueKey>) returns (ticks: nat)
      requires Valid() && OfItsPort(free) && defaultThreshold != "" && !completelyInitialized
      requires poolReady || (mmuSize != "" && pools != map[])
      requires forall p <- pendingZeroPorts :: IsReadyToReclaim(p)
      modifies this`portInitDone, this`poolReady, this`pending, this`completelyInitialized, this`wait
      modifies this`pendingZeroPorts, this`slices, this`pendingSlices, this`rows
      ensures Valid() && completelyInitialized && !pending
        && AllPublished(ports, queues, rows) && pendingZeroPorts == pendingSlices == {}
      ensures ticks == old(wait) + 1
    {
      ticks := 0;
      ghost var wait0 := wait;
      while !completelyInitialized
        invariant Valid() && defaultThreshold != "" && (poolReady || (mmuSize != "" && pools != map[]))
        invariant forall p <- pendingZeroPorts :: IsReadyToReclaim(p)
        invariant queues == old(queues) && ports == old(ports)
        invariant if completelyInitialized then
          && ticks == wait0 + 1 && pendingZeroPorts == pendingSlices == {} && !pending
          && AllPublished(ports, queues, rows)
        else
          ticks + wait == wait0
        decreases !completelyInitialized, wait
      {
        Tick(true, true, free);
        ticks := ticks + 1;
      }
    }

    /**
      The exception, from every completely initialized state: once the threshold is
      emptied, a refresh is marked as pending and no tick ever looks at it.
     */
    method RefreshWithoutThreshold(port: string, initDone: bool, answered: bool, free: string -> set<QueueKey>)
      requires Valid() && Retried() && completelyInitialized && INGRESS_LOSSLESS_POOL in pools && !Down(ports, port)
      requires OfItsPort(free)
      modifies this
      ensures Valid() && pending && completelyInitialized && rows == old(rows)
    {
      var status := SetThreshold("");
      HandleRefresh(port);
      Tick(initDone, answered, free);
    }
  }

  /** A whole run, from start-up on, that ends with work pending and the retries stopped. */
  method LostRefresh() returns (m: BufferManager)
    ensures fresh(m) && m.Valid() && !m.Retried()
  {
    m := new BufferManager(profile => "", "", true, "0", "1024");
    m.SetPool(INGRESS_LOSSLESS_POOL, true);
    assert INGRESS_LOSSLESS_POOL in m.pools;
    m.SetPort("Ethernet0", Some(true), false, true, {});
    var ticks := m.Settle(port => {});
    m.RefreshWithoutThreshold("Ethernet0", true, true, port => {});
  }
}
