/**
  Clearing what a dead MKA session left behind.  macsecmgrd deletes the rows of
  a port through producers and waits for orchagent, which pops the tables and
  works through what it popped at its own pace.  Every redis command of
  macsecmgrd is one step; orchagent may take any number of steps in between.
 */
module MacsecHandshake {

  datatype Direction = Egress | Ingress

  /** A row of one of the five MACsec tables, and the orchagent object of that name. */
  datatype Entry =
    | Port(port: string)
    | Sc(direction: Direction, port: string, sci: string)
    | Sa(direction: Direction, port: string, sci: string, an: string)
  {
    /** The key printed in the table. */
    function Key(): string {
      match this
      case Port(p) => p
      case Sc(_, p, sci) => p + ":" + sci
      case Sa(_, p, sci, an) => p + ":" + sci + ":" + an
    }

    /** The position of its table in m_appMACsecTables: SAs, then SCs, the ports last. */
    function Table(): nat {
      match this
      case Sa(d, _, _, _) => if d == Egress then 0 else 1
      case Sc(d, _, _) => if d == Egress then 2 else 3
      case Port(_) => 4
    }

    /** The object it lives under. */
    function Parent(): Entry {
      match this
      case Sa(d, p, sci, _) => Sc(d, p, sci)
      case _ => Port(port)
    }
  }

  datatype Op = Set | Del

  /** How a task ends; Retry keeps the SET, and Deactivated deletes the SA it names. */
  datatype Outcome = Success | Deactivated | Failed | Retry

  const CLEAR_STALE_POLL_MS: nat := 100

  predicate BelongsToPort(key: string, port: string) {
    key == port || port + ":" <= key
  }

  function UpToColon(key: string): string {
    if key == "" || key[0] == ':' then "" else [key[0]] + UpToColon(key[1..])
  }

  lemma {:induction false} PortIsUpToColon(port: string, rest: string)
    requires ':' !in port && (rest == "" || rest[0] == ':')
    ensures UpToColon(port + rest) == port
  {
    if port == "" {
      assert port + rest == rest;
    } else {
      PortIsUpToColon(port[1..], rest);
      assert (port + rest)[1..] == port[1..] + rest;
    }
  }

  lemma SamePort(a: string, restA: string, b: string, restB: string)
    requires ':' !in a && (restA == "" || restA[0] == ':') && ':' !in b && (restB == "" || restB[0] == ':')
    requires a + restA == b + restB
    ensures a == b
  {
    PortIsUpToColon(a, restA);
    PortIsUpToColon(b, restB);
  }

  lemma TailOf(key: string, port: string)
    requires BelongsToPort(key, port)
    ensures |port| <= |key| && key == port + key[|port|..]
    ensures key[|port|..] == "" || key[|port|..][0] == ':'
  {
    if key != port {
      assert key[..|port|] == (port + ":")[..|port|] == port;
      assert key[|port|] == (port + ":")[|port|];
    }
  }

  lemma PrefixOf(port: string, rest: string)
    requires rest == "" || rest[0] == ':'
    ensures BelongsToPort(port + rest, port)
  {
    if rest != "" {
      assert (port + rest)[..|port| + 1] == port + ":";
    } else {
      assert port + rest == port;
    }
  }

  /** The separator keeps Ethernet1 from matching Ethernet10. */
  lemma BelongsIffOfPort(e: Entry, port: string)
    requires ':' !in e.port && ':' !in port
    ensures BelongsToPort(e.Key(), port) <==> e.port == port
  {
    var rest := match e
      case Port(_) => ""
      case Sc(_, _, sci) => ":" + sci
      case Sa(_, _, sci, an) => ":" + sci + ":" + an;
    assert e.Key() == e.port + rest;
    PrefixOf(e.port, rest);
    if BelongsToPort(e.Key(), port) {
      TailOf(e.Key(), port);
      SamePort(e.port, rest, port, e.Key()[|port|..]);
    }
  }

  predicate StartsWithDel(queue: map<Entry, seq<Op>>, e: Entry) {
    e in queue && queue[e] != [] && queue[e][0] == Del
  }

  predicate HoldsSet(queue: map<Entry, seq<Op>>, e: Entry) {
    e in queue && Set in queue[e]
  }

  /** The databases, what orchagent has popped, and the objects it has created. */
  datatype Action = Produce(e: Entry) | Withdraw(e: Entry) | Consume(e: Entry) | Perform(e: Entry, outcome: Outcome)

  datatype State = State(known: set<string>, visible: set<Entry>, staged: set<Entry>, dels: set<Entry>,
                         queue: map<Entry, seq<Op>>, held: set<Entry>)
  {
    /**
      A SET in the queue has its row; a port object has its row unless its
      deletion is next in the queue; SCs and SAs live under their port.
     */
    ghost predicate Valid() {
      && (forall e <- visible + staged + held :: ':' !in e.port)
      && (forall e <- queue.Keys :: queue[e] in {[Set], [Del], [Del, Set]})
      && (forall e <- queue.Keys :: HoldsSet(queue, e) ==> e in visible)
      && (forall e <- held :: e.Port? ==> e.port in known && (e in visible || StartsWithDel(queue, e)))
      && (forall e <- held :: e.Parent() in held)
    }

    /** Every object of the port is gone or goes before anything else happens to the port. */
    ghost predicate Doomed(port: string) {
      Port(port) in held ==> StartsWithDel(queue, Port(port))
    }

    /** No SET of the entry waits to be popped, and its row, if any, goes with the next pop. */
    ghost predicate Cleared(e: Entry) {
      e !in staged && (e in visible ==> e in dels)
    }

    /** Nothing of the port is staged, and what is left of its rows goes with the next pops. */
    ghost predicate AllCleared(port: string) {
      forall e: Entry {:trigger Cleared(e)} :: e.port == port ==> Cleared(e)
    }

    /** orchagent keeps a SET of the port that it has popped. */
    ghost predicate KeepsSet(port: string) {
      exists e :: HoldsSet(queue, e) && e.port == port
    }

    /** A SET waits for the port to be known and for the object it lives under. */
    predicate CanApply(e: Entry) {
      if e.Port? then e.port in known else e.Parent() in held
    }

    /** A deleted object takes what lives under it along; unknown ports are not deleted. */
    function Deleted(e: Entry): set<Entry> {
      if e.Port? && e.port !in known then {}
      else set o | o in held && (o == e || o.Parent() == e || o.Parent().Parent() == e)
    }

    function Produced(e: Entry): State {
      this.(staged := staged + {e})
    }

    function Withdrawn(e: Entry): State {
      this.(staged := staged - {e}, dels := dels + {e})
    }

    function Popped(e: Entry): State {
      var ops := if e !in staged then [Del] else if StartsWithDel(queue, e) then [Del, Set] else [Set];
      this.(visible := if e in staged then visible + {e} else visible - {e},
            staged := staged - {e}, dels := dels - {e}, queue := queue[e := ops])
    }

    predicate Applies(e: Entry, outcome: Outcome) {
      e in queue && queue[e] != [] && queue[e][0] == Set && outcome == Success && CanApply(e)
    }

    predicate Waits(e: Entry, outcome: Outcome) {
      e in queue && queue[e] != [] && queue[e][0] == Set && (!CanApply(e) || outcome == Retry)
    }

    function Drained(e: Entry, outcome: Outcome): State
      requires e in queue && queue[e] != []
    {
      if Waits(e, outcome) then this
      else this.(held := if Applies(e, outcome) then held + {e}
                         else if StartsWithDel(queue, e) then held - Deleted(e)
                         else if outcome == Deactivated && e.Sa? then held - {e} else held,
                 queue := if |queue[e]| > 1 then queue[e := queue[e][1..]] else queue - {e})
    }
  }

  /** The state after some steps of orchagent; one that is not possible has no effect. */
  function Works(s: State, steps: seq<Action>): State {
    if steps == [] then s else WorksOnce(Works(s, steps[..|steps| - 1]), steps[|steps| - 1])
  }

  function WorksOnce(s: State, a: Action): State {
    match a
    case Consume(e) => if e in s.staged + s.dels then s.Popped(e) else s
    case Perform(e, outcome) => if e in s.queue && s.queue[e] != [] then s.Drained(e, outcome) else s
    case _ => s
  }

  /** The state in which a poll starts, when the row was there at all polls before. */
  function AtPoll(s: State, turns: nat -> seq<Action>, turn: nat, poll: nat): State {
    if poll == 0 then s
    else Works(Works(AtPoll(s, turns, turn, poll - 1), turns(turn + 3 * poll - 3)), turns(turn + 3 * poll - 1))
  }

  /** How often the row is looked for. */
  function Polls(timeoutMs: nat): nat {
    (timeoutMs + CLEAR_STALE_POLL_MS - 1) / CLEAR_STALE_POLL_MS
  }

  /** Entries that were cleared still are. */
  ghost predicate StaysCleared(s: State, t: State) {
    forall e {:trigger t.Cleared(e)} :: s.Cleared(e) ==> t.Cleared(e)
  }

  /** The rows of the port in the first tables are cleared, but for those still to come. */
  ghost predicate ClearedSoFar(s: State, port: string, table: nat, todo: set<Entry>) {
    forall e: Entry {:trigger s.Cleared(e)} :: e.port == port && e.Table() < table && e !in todo ==> s.Cleared(e)
  }

  /** The deletion of every row whose SET orchagent still keeps has not been popped yet. */
  lemma KeptHaveDel(s: State, port: string)
    requires s.Valid() && s.AllCleared(port)
    ensures forall e: Entry :: e.port == port && HoldsSet(s.queue, e) ==> e in s.dels
  {
    forall e: Entry | e.port == port && HoldsSet(s.queue, e) ensures e in s.dels {
      assert s.Cleared(e);
    }
  }

  lemma NothingUnderPort(s: State, port: string)
    requires s.Valid() && Port(port) !in s.held
    ensures forall e <- s.held :: e.port != port
  {
    forall e <- s.held ensures e.port != port {
      assert e.Parent() in s.held && e.Parent().Parent() in s.held;
    }
  }

  /** A pop keeps what is doomed so; it queues a SET only of a staged row, and after a DEL the DEL stays first. */
  lemma PopKeeps(s: State, e: Entry)
    requires s.Valid()
    ensures s.Popped(e).Valid() && StaysCleared(s, s.Popped(e))
    ensures forall p :: s.Doomed(p) ==> s.Popped(e).Doomed(p)
    ensures forall f :: HoldsSet(s.Popped(e).queue, f) ==> f in s.staged || (f != e && HoldsSet(s.queue, f))
    ensures StartsWithDel(s.queue, e) || e !in s.staged ==> StartsWithDel(s.Popped(e).queue, e)
  {
  }

  /** A task creates at most its own object, where that can live, and deletes only what lives under it. */
  lemma DrainTouches(s: State, e: Entry, outcome: Outcome)
    requires s.Valid() && e in s.queue
    ensures var t := s.Drained(e, outcome);
            && (e in t.held && e !in s.held ==> s.Applies(e, outcome))
            && (forall o <- t.held :: o in s.held || o == e)
            && (forall o <- s.held :: o in t.held || o == e || o.Parent() == e || o.Parent().Parent() == e)
            && (forall p :: s.Doomed(p) && !(e == Port(p) && s.Applies(e, outcome)) ==> t.Doomed(p))
  {
    assert s.queue[e] in {[Set], [Del], [Del, Set]};
  }

  /** A task keeps the invariant and brings no SET into the queue. */
  lemma DrainKeeps(s: State, e: Entry, outcome: Outcome)
    requires s.Valid() && e in s.queue
    ensures var t := s.Drained(e, outcome);
            t.Valid() && StaysCleared(s, t) && forall f :: HoldsSet(t.queue, f) ==> HoldsSet(s.queue, f)
  {
    var t := s.Drained(e, outcome);
    assert s.queue[e] in {[Set], [Del], [Del, Set]};
    forall f | HoldsSet(t.queue, f) ensures HoldsSet(s.queue, f) {
    }
  }

  /** orchagent does nothing between the steps of macsecmgrd. */
  ghost predicate Silent(turns: nat -> seq<Action>) {
    forall i :: turns(i) == []
  }

  // ---------- the next session ----------

  /** What the producers of the session and of other ports, and orchagent, may do in any order. */
  /** The session so far: what it wrote, whether its port was created, and what orchagent held of the port by then. */
  datatype Session = Session(state: State, written: set<Entry>, created: bool, leftovers: set<Entry>)

  /** One action; one that is not possible has no effect. */
  function After(port: string, n: Session, a: Action): Session {
    match a
    case Produce(e) =>
      if ':' in e.port then n else n.(state := n.state.Produced(e), written := n.written + {e})
    case Withdraw(e) => n.(state := n.state.Withdrawn(e))
    case Consume(e) => if e in n.state.staged + n.state.dels then n.(state := n.state.Popped(e)) else n
    case Perform(e, outcome) =>
      if e !in n.state.queue || n.state.queue[e] == [] then n
      else
        var next := n.(state := n.state.Drained(e, outcome));
        if e == Port(port) && n.state.Applies(e, outcome) && !n.created then
          next.(created := true, leftovers := set o | o in n.state.held && o.port == port)
        else next
  }

  function Run(port: string, n: Session, actions: seq<Action>): Session {
    if actions == [] then n else After(port, Run(port, n, actions[..|actions| - 1]), actions[|actions| - 1])
  }

  lemma Extend(port: string, n: Session, actions: seq<Action>, a: Action)
    ensures Run(port, n, actions + [a]) == After(port, Run(port, n, actions), a)
  {
    assert (actions + [a])[..|actions|] == actions;
  }

  /** Every SET of the port under way, and every object of it, was written by the session. */
  ghost predicate Written(port: string, n: Session) {
    && (forall e: Entry :: e.port == port && (e in n.state.staged || HoldsSet(n.state.queue, e)) ==> e in n.written)
    && (n.created ==> forall e <- n.state.held :: e.port == port ==> e in n.written)
  }

  ghost predicate OnCourse(port: string, n: Session) {
    n.state.Valid() && if n.created then n.leftovers == {} else n.state.Doomed(port)
  }

  lemma StaysOnCourse(port: string, n: Session, a: Action)
    requires OnCourse(port, n)
    ensures OnCourse(port, After(port, n, a))
    ensures Written(port, n) ==> Written(port, After(port, n, a))
  {
    match a
    case Produce(e) =>
    case Withdraw(e) =>
    case Consume(e) => PopKeeps(n.state, e);
    case Perform(e, outcome) =>
      if e in n.state.queue {
        DrainKeeps(n.state, e, outcome);
        if Port(port) !in n.state.held {
          NothingUnderPort(n.state, port);
        }
      }
  }

  /**
    After a successful clearing, in whatever order the next session, the producers
    of other ports and orchagent act: when orchagent creates the port it holds no
    leftover of it, and if it kept no SET, it never holds an object of the created
    port that the session did not write.
   */
  lemma {:induction false} EveryRun(port: string, s: State, actions: seq<Action>)
    requires s.Valid() && s.Doomed(port) && s.AllCleared(port)
    ensures OnCourse(port, Run(port, Session(s, {}, false, {}), actions))
    ensures !s.KeepsSet(port) ==> Written(port, Run(port, Session(s, {}, false, {}), actions))
  {
    var start := Session(s, {}, false, {});
    if actions == [] {
      if !s.KeepsSet(port) {
        forall e: Entry | e.port == port ensures e !in s.staged && !HoldsSet(s.queue, e) {
          assert s.Cleared(e);
        }
      }
    } else {
      EveryRun(port, s, actions[..|actions| - 1]);
      StaysOnCourse(port, Run(port, start, actions[..|actions| - 1]), actions[|actions| - 1]);
    }
  }

  /** The run ends with an object of the session's port that the session did not write. */
  ghost predicate EndsStale(port: string, s: State, actions: seq<Action>) {
    var n := Run(port, Session(s, {}, false, {}), actions);
    n.created && exists e <- n.state.held :: e.port == port && e !in n.written
  }

  lemma ApplyNow(s: State, e: Entry)
    requires s.Valid() && e in s.queue && s.queue[e] == [Set] && s.CanApply(e)
    ensures var t := s.Drained(e, Success);
            t.Valid() && t.held == s.held + {e} && t.queue == s.queue - {e} && t.known == s.known
  {
    DrainKeeps(s, e, Success);
  }

  lemma DeleteNow(s: State, e: Entry)
    requires s.Valid() && e in s.queue && s.queue[e] == [Del, Set] && s.CanApply(e)
    ensures var t := s.Drained(e, Success);
            && t.Valid() && t.queue == s.queue[e := [Set]] && t.CanApply(e) && t.known == s.known
            && forall f <- s.held :: f.Table() > e.Table() ==> f in t.held
  {
    DrainKeeps(s, e, Success);
  }

  ghost predicate SameSets(queue: map<Entry, seq<Op>>, queue': map<Entry, seq<Op>>, except: Entry) {
    forall f {:trigger HoldsSet(queue', f)} :: f != except ==> (HoldsSet(queue', f) <==> HoldsSet(queue, f))
  }

  /** The SET at the end of an entry's queue is applied after at most two tasks. */
  lemma ApplyQueued(port: string, n: Session, e: Entry) returns (t: Session)
    requires n.state.Valid() && HoldsSet(n.state.queue, e) && n.state.CanApply(e)
    ensures t == After(port, After(port, n, Perform(e, Success)), Perform(e, Success))
    ensures t.state.Valid() && e in t.state.held && t.written == n.written && t.state.known == n.state.known
    ensures t.created == (n.created || e == Port(port))
    ensures SameSets(n.state.queue, t.state.queue, e)
    ensures forall f <- n.state.held :: f.Table() > e.Table() ==> f in t.state.held
  {
    var m := After(port, n, Perform(e, Success));
    assert n.state.queue[e] in {[Set], [Del], [Del, Set]};
    if n.state.queue[e] == [Set] {
      ApplyNow(n.state, e);
      t := m;
    } else {
      DeleteNow(n.state, e);
      ApplyNow(m.state, e);
      t := After(port, m, Perform(e, Success));
    }
  }

  /** Writing an entry and letting orchagent work through it creates its object. */
  lemma WriteAndApply(port: string, s: State, actions: seq<Action>, e: Entry) returns (longer: seq<Action>)
    requires var n := Run(port, Session(s, {}, false, {}), actions);
             n.state.Valid() && ':' !in e.port && n.state.CanApply(e)
    ensures var n, t := Run(port, Session(s, {}, false, {}), actions), Run(port, Session(s, {}, false, {}), longer);
            && t.state.Valid() && e in t.state.held && t.state.known == n.state.known
            && t.written == n.written + {e} && t.created == (n.created || e == Port(port))
            && SameSets(n.state.queue, t.state.queue, e)
            && forall f <- n.state.held :: f.Table() > e.Table() ==> f in t.state.held
  {
    var start := Session(s, {}, false, {});
    var n := Run(port, start, actions);
    var a, b, c := Produce(e), Consume(e), Perform(e, Success);
    var staged := After(port, n, a);
    PopKeeps(staged.state, e);
    var popped := After(port, staged, b);
    assert popped.state == staged.state.Popped(e);
    var t := ApplyQueued(port, popped, e);
    Extend(port, start, actions, a);
    Extend(port, start, actions + [a], b);
    Extend(port, start, actions + [a] + [b], c);
    Extend(port, start, actions + [a] + [b] + [c], c);
    longer := actions + [a] + [b] + [c] + [c];
  }

  /** A SET that orchagent keeps comes back to life under the port of the next session. */
  lemma KeptSetResurfaces(port: string, s: State, e: Entry) returns (actions: seq<Action>)
    requires s.Valid() && port in s.known && ':' !in port && Port(port) !in s.visible
    requires HoldsSet(s.queue, e) && e.port == port
    ensures EndsStale(port, s, actions)
  {
    var start := Session(s, {}, false, {});
    actions := WriteAndApply(port, s, [], Port(port));
    if e.Sa? {
      actions := WriteAndApply(port, s, actions, e.Parent());
    }
    var n := Run(port, start, actions);
    assert HoldsSet(n.state.queue, e) && n.state.CanApply(e);
    var t := ApplyQueued(port, n, e);
    Extend(port, start, actions, Perform(e, Success));
    Extend(port, start, actions + [Perform(e, Success)], Perform(e, Success));
    actions := actions + [Perform(e, Success)] + [Perform(e, Success)];
  }

  /**
    After a successful clearing of a known port, some run gives the next session an
    object it did not write exactly when orchagent keeps a SET of the port.
   */
  lemma StaleIffKept(port: string, s: State)
    requires s.Valid() && s.Doomed(port) && s.AllCleared(port) && Port(port) !in s.visible
    requires port in s.known && ':' !in port
    ensures (exists actions :: EndsStale(port, s, actions)) <==> s.KeepsSet(port)
  {
    if s.KeepsSet(port) {
      var e :| HoldsSet(s.queue, e) && e.port == port;
      var actions := KeptSetResurfaces(port, s, e);
    } else {
      forall actions ensures !EndsStale(port, s, actions) {
        EveryRun(port, s, actions);
      }
    }
  }

  /** Once every DEL written for a cleared port has been popped, orchagent keeps no SET of it. */
  lemma NothingKeptOncePopped(s: State, port: string)
    requires s.Valid() && s.AllCleared(port) && forall e <- s.dels :: e.port != port
    ensures !s.KeepsSet(port) && forall e <- s.visible :: e.port != port
  {
    KeptHaveDel(s, port);
    forall e <- s.visible ensures e.port != port {
      assert e.port == port ==> s.Cleared(e);
    }
  }

  class Macsec {
    /** The rows of the tables, the SETs not popped yet, and the keys with an unpopped DEL. */
    var visible: set<Entry>
    var staged: set<Entry>
    var dels: set<Entry>

    /** orchagent's m_toSync, and the ports, SCs and SAs it has created. */
    var queue: map<Entry, seq<Op>>
    var held: set<Entry>

    /** The ports orchagent knows; it ignores the deletion of others. */
    const known: set<string>

    /** Every key a producer has deleted, in order. */
    ghost var deleted: seq<Entry>

    function Now(): State
      reads this
    {
      State(known, visible, staged, dels, queue, held)
    }

    constructor (known: set<string>)
      ensures Now() == State(known, {}, {}, {}, map[], {}) && Now().Valid() && deleted == []
    {
      this.known, visible, staged, dels, queue, held, deleted := known, {}, {}, {}, map[], {}, [];
    }

    // ---------- producers ----------

    method ProducerSet(e: Entry)
      requires Now().Valid() && ':' !in e.port
      modifies this`staged
      ensures Now() == old(Now()).Produced(e) && Now().Valid()
    {
      staged := staged + {e};
    }

    /** Drops the staged SET and queues a DEL in one step. */
    method ProducerDel(e: Entry)
      requires Now().Valid()
      modifies this`staged, this`dels, this`deleted
      ensures Now() == old(Now()).Withdrawn(e) && Now().Valid() && deleted == old(deleted) + [e]
    {
      staged, dels, deleted := staged - {e}, dels + {e}, deleted + [e];
    }

    // ---------- orchagent ----------

    /** The consumer takes one pending key: a DEL and a later SET of it fold into a SET. */
    method Pop(e: Entry)
      requires Now().Valid() && e in staged + dels
      modifies this`visible, this`staged, this`dels, this`queue
      ensures Now() == old(Now()).Popped(e) && Now().Valid()
      ensures forall p :: old(Now()).Doomed(p) ==> Now().Doomed(p)
    {
      PopKeeps(Now(), e);
      var isSet := e in staged;
      visible := if isSet then visible + {e} else visible - {e};
      staged, dels := staged - {e}, dels - {e};
      queue := queue[e := if !isSet then [Del] else if StartsWithDel(queue, e) then [Del, Set] else [Set]];
    }

    /** One task of doTask; what it depends on outside the model is its outcome. */
    method Drain(e: Entry, outcome: Outcome) returns (applied: bool)
      requires Now().Valid() && e in queue
      modifies this`queue, this`held
      ensures old(queue)[e] != [] && Now() == old(Now()).Drained(e, outcome) && Now().Valid()
      ensures applied <==> old(Now()).Applies(e, outcome)
    {
      DrainKeeps(Now(), e, outcome);
      assert queue[e] in {[Set], [Del], [Del, Set]};
      applied := false;
      var op := queue[e][0];
      if op == Del {
        held := held - Now().Deleted(e);
      } else if !Now().CanApply(e) || outcome == Retry {
        return;
      } else if outcome == Success {
        held, applied := held + {e}, true;
      } else if outcome == Deactivated && e.Sa? {
        held := held - {e};
      }
      queue := if |queue[e]| > 1 then queue[e := queue[e][1..]] else queue - {e};
    }

    /** What orchagent does before macsecmgrd gets its next turn: pops and tasks in any order. */
    method Orchagent(steps: seq<Action>)
      requires Now().Valid()
      modifies this`visible, this`staged, this`dels, this`queue, this`held
      ensures Now().Valid()
      ensures staged <= old(staged) && dels <= old(dels)
      ensures visible <= old(visible) + old(staged)
      ensures (old(dels) - dels - old(staged)) !! visible
      ensures StaysCleared(old(Now()), Now())
      ensures Now() == Works(old(Now()), steps)
    {
      for i := 0 to |steps|
        invariant Now().Valid() && Now() == Works(old(Now()), steps[..i])
        invariant staged <= old(staged) && dels <= old(dels)
        invariant visible <= old(visible) + old(staged)
        invariant (old(dels) - dels - old(staged)) !! visible
      {
        assert steps[..i + 1][..i] == steps[..i];
        match steps[i] {
          case Consume(e) =>
            if e in staged + dels {
              Pop(e);
            }
          case Perform(e, outcome) =>
            if e in queue {
              var applied := Drain(e, outcome);
            }
          case _ =>
        }
      }
      assert steps[..|steps|] == steps;
    }

    // ---------- macsecmgrd ----------

    /** Since `from`, only keys of the port were deleted. */
    ghost predicate OnlyDeleted(from: seq<Entry>, port: string)
      reads this`deleted
    {
      from <= deleted && forall i | |from| <= i < |deleted| :: deleted[i].port == port
    }

    /** Delete every row of one table that belongs to the port; `turns` tells what orchagent does in between. */
    method DeleteRows(table: nat, port: string, turns: nat -> seq<Action>, turn: nat)
      returns (found: bool, turn': nat)
      requires Now().Valid() && ':' !in port && table < 5 && ClearedSoFar(Now(), port, table, {})
      modifies this
      ensures Now().Valid() && OnlyDeleted(old(deleted), port) && ClearedSoFar(Now(), port, table + 1, {})
      ensures table == 4 && !found ==> Port(port) !in visible
      ensures found <==> exists e <- old(visible + staged) :: e.Table() == table && e.port == port
      ensures Silent(turns) ==>
        (visible, queue, held) == old((visible, queue, held)) && staged <= old(staged)
    {
      var keys := set e | e in visible + staged && e.Table() == table;
      assert ClearedSoFar(Now(), port, table + 1, keys) by {
        forall e: Entry | e.port == port && e.Table() < table + 1 && e !in keys ensures Now().Cleared(e) {
          assert e.Table() < table || e !in visible + staged;
        }
      }
      found, turn' := false, turn;
      var todo := keys;
      while todo != {}
        invariant Now().Valid() && todo <= keys && OnlyDeleted(old(deleted), port)
        invariant ClearedSoFar(Now(), port, table + 1, todo)
        invariant table == 4 && !found && Port(port) !in todo ==> Port(port) !in visible + staged
        invariant Silent(turns) ==> (visible, queue, held) == old((visible, queue, held)) && staged <= old(staged)
        invariant found <==> exists e <- keys - todo :: e.port == port
        decreases todo
      {
        var e :| e in todo;
        found, turn' := DeleteRow(e, table, port, todo, found, turns, turn');
        todo := todo - {e};
      }
    }

    /** The treatment of one key of a table. */
    method DeleteRow(e: Entry, table: nat, port: string, ghost todo: set<Entry>, found: bool, turns: nat -> seq<Action>,
                     turn: nat)
      returns (found': bool, turn': nat)
      requires Now().Valid() && ':' !in port && ':' !in e.port && ClearedSoFar(Now(), port, table + 1, todo)
      modifies this
      ensures Now().Valid() && OnlyDeleted(old(deleted), port)
      ensures ClearedSoFar(Now(), port, table + 1, todo - {e})
      ensures found' == (found || e.port == port)
      ensures visible <= old(visible) + old(staged) && staged <= old(staged)
      ensures Silent(turns) ==> (visible, queue, held) == old((visible, queue, held))
    {
      BelongsIffOfPort(e, port);
      found', turn' := found, turn + 1;
      if BelongsToPort(e.Key(), port) {
        ProducerDel(e);
        found' := true;
        assert StaysCleared(old(Now()), Now()) && Now().Cleared(e);
      }
      Orchagent(turns(turn));
    }

    /**
      clearStaleMACsecState, for every interleaving `turns`.  Afterwards nothing the
      dead session wrote waits to be popped, every row it left is about to be
      deleted, and no key of another port was deleted.  True means in addition that
      every orchagent object of the port is gone, or is deleted before anything
      else happens to the port.  The answer is true exactly when there was no row of
      the port to delete (`atPorts` is the state when the port table is read), or a
      poll within the timeout finds it gone (`deletedAll` is the state when the
      deletions end).
     */
    method ClearStaleMacsecState(port: string, timeoutMs: nat, turns: nat -> seq<Action>)
      returns (cleared: bool, ghost atPorts: State, ghost deletedAll: State, ghost turn0: nat)
      requires Now().Valid() && ':' !in port
      modifies this
      ensures Now().Valid() && Now().AllCleared(port) && OnlyDeleted(old(deleted), port)
      ensures cleared ==> Port(port) !in visible && Now().Doomed(port)
      ensures cleared <==>
        Port(port) !in atPorts.visible + atPorts.staged
        || exists i: nat | i < Polls(timeoutMs) :: Port(port) !in AtPoll(deletedAll, turns, turn0, i).visible
      ensures Silent(turns) ==> (visible, queue, held) == old((visible, queue, held))
      ensures Silent(turns) && Port(port) !in old(visible + staged) ==> cleared
    {
      var found, turn;
      found, turn, atPorts := DeleteTables(port, turns);
      deletedAll, turn0 := Now(), turn;
      if !found {
        return true, atPorts, deletedAll, turn0;
      }
      cleared := AwaitRow(port, timeoutMs, turns, turn);
    }

    /** Poll the row of a port whose rows have all been deleted. */
    method AwaitRow(port: string, timeoutMs: nat, turns: nat -> seq<Action>, turn0: nat) returns (gone: bool)
      requires Now().Valid() && ':' !in port && Now().AllCleared(port)
      modifies this`visible, this`staged, this`dels, this`queue, this`held
      ensures Now().Valid() && Now().AllCleared(port)
      ensures gone ==> Port(port) !in visible && Now().Doomed(port)
      ensures gone <==>
        exists i: nat | i < Polls(timeoutMs) :: Port(port) !in AtPoll(old(Now()), turns, turn0, i).visible
      ensures Silent(turns) ==> (visible, queue, held) == old((visible, queue, held))
    {
      ghost var start, poll := Now(), 0;
      var waited, turn := 0, turn0;
      while waited < timeoutMs
        invariant Now().Valid() && Now().AllCleared(port)
        invariant Silent(turns) ==> (visible, queue, held) == old((visible, queue, held))
        invariant waited == poll * CLEAR_STALE_POLL_MS && poll <= Polls(timeoutMs) && turn == turn0 + 3 * poll
        invariant Now() == AtPoll(start, turns, turn0, poll)
        invariant forall i: nat | i < poll :: Port(port) in AtPoll(start, turns, turn0, i).visible
      {
        var row := Poll(port, turns, turn);
        if !row {
          return true;
        }
        Orchagent(turns(turn + 2));
        waited, turn, poll := waited + CLEAR_STALE_POLL_MS, turn + 3, poll + 1;
      }
      return false;
    }

    /** One look for the row, in the table and then among what is staged; with nothing staged the table decides. */
    method Poll(port: string, turns: nat -> seq<Action>, turn: nat) returns (row: bool)
      requires Now().Valid() && Now().AllCleared(port)
      modifies this`visible, this`staged, this`dels, this`queue, this`held
      ensures Now().Valid() && Now().AllCleared(port)
      ensures row == (Port(port) in old(visible)) && (row ==> Now() == Works(old(Now()), turns(turn)))
      ensures !row ==> Port(port) !in visible && Now().Doomed(port)
      ensures Silent(turns) ==> (visible, queue, held) == old((visible, queue, held))
    {
      row := Port(port) in visible;
      assert Now().Cleared(Port(port));
      Orchagent(turns(turn));
      if !row {
        row := Port(port) in staged;
        assert Now().Cleared(Port(port));
        Orchagent(turns(turn + 1));
      }
    }

    /** The loop of clearStaleMACsecState over the tables. */
    method DeleteTables(port: string, turns: nat -> seq<Action>)
      returns (found: bool, turn: nat, ghost atPorts: State)
      requires Now().Valid() && ':' !in port
      modifies this
      ensures Now().Valid() && Now().AllCleared(port) && OnlyDeleted(old(deleted), port)
      ensures !found ==> Port(port) !in visible
      ensures found <==> Port(port) in atPorts.visible + atPorts.staged
      ensures Silent(turns) ==> (visible, queue, held) == old((visible, queue, held))
      ensures Silent(turns) && Port(port) !in old(visible + staged) ==> !found
    {
      found, turn, atPorts := false, 0, Now();
      for table := 0 to 5
        invariant Now().Valid() && OnlyDeleted(old(deleted), port) && ClearedSoFar(Now(), port, table, {})
        invariant table == 5 && !found ==> Port(port) !in visible
        invariant table == 5 ==> (found <==> Port(port) in atPorts.visible + atPorts.staged)
        invariant Silent(turns) ==> (visible, queue, held) == old((visible, queue, held)) && staged <= old(staged)
        invariant Silent(turns) && table == 5 && found ==> Port(port) in old(visible + staged)
      {
        atPorts := Now();
        ghost var before := visible + staged;
        found, turn := DeleteRows(table, port, turns, turn);
        if table == 4 {
          assert Port(port).Table() == 4;
          assert forall e: Entry :: e.Table() == 4 && e.port == port ==> e == Port(port);
        }
      }
    }

    /** Nothing of the port is held once orchagent has worked through what it popped. */
    method Settle(port: string, outcome: Outcome) returns (applied: bool)
      requires Now().Valid() && Now().Doomed(port) && Port(port) in held
      modifies this`queue, this`held
      ensures Now().Valid() && !applied
      ensures forall e <- held :: e.port != port
    {
      applied := Drain(Port(port), outcome);
      NothingUnderPort(Now(), port);
    }
  }

  /**
    A dead session wrote an SC that orchagent popped and could not create for want
    of its port: the clearing succeeds and the SET is kept.
   */
  method ClearedButKept() returns (m: Macsec, cleared: bool)
    ensures fresh(m) && cleared && m.Now().Valid() && m.Now().AllCleared("Ethernet0") && m.Now().Doomed("Ethernet0")
    ensures m.Now().KeepsSet("Ethernet0") && exists actions :: EndsStale("Ethernet0", m.Now(), actions)
  {
    m := new Macsec({"Ethernet0"});
    var sc := Sc(Egress, "Ethernet0", "1");
    m.ProducerSet(sc);
    m.Pop(sc);
    ghost var atPorts, deletedAll, turn0;
    cleared, atPorts, deletedAll, turn0 := m.ClearStaleMacsecState("Ethernet0", 5000, turn => []);
    assert HoldsSet(m.queue, sc);
    StaleIffKept("Ethernet0", m.Now());
  }
}
