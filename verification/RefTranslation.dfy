/** Translating refs to addresses without locks.

    Every section of the file has a primary mapping.  A node may start in one
    section and end in the next; such a crossing node is reached through a
    cross-over mapping that is made once, under a mutex, when first needed.
    Threads that translate refs share, for each translation table, an entry with
    a limit below which every node lies inside the primary mapping (raised with
    compare-and-exchange) and the address of the cross-over mapping.

    The protocol is modelled as a state machine for one section.  Each step is
    one atomic access of one thread; threads interleave freely, start
    translations of any node at any time and use any of several tables, and new
    tables appear while translations are running.
 */
module RefTranslation {
  import opened Options
  import opened BoundaryTags
  import Bits

  type Positive = n: nat | 0 < n witness 1

  datatype Node = Node(offset: nat, size: nat)

  /** A mapping shows `length` bytes of the file from `start` on at address `addr`. */
  datatype Mapping = Mapping(addr: int, start: int, length: int)

  /** A section of the file: its first position, its nodes, its primary mapping, the page size. */
  datatype Layout = Layout(base: int, nodes: set<Node>, primary: Mapping, page: Positive)

  predicate Crosses(n: Node) {
    n.offset + n.size > SECTION
  }

  /** Nodes do not overlap and start in the section; the primary mapping holds every node that
      does not cross the section's end. */
  ghost predicate WellFormed(lay: Layout) {
    && SECTION % lay.page == 0 && lay.base % SECTION == 0
    && lay.primary.start == lay.base && lay.primary.addr != 0
    && (forall n :: n in lay.nodes ==> n.offset < SECTION && 0 < n.size)
    && (forall m, n :: m in lay.nodes && n in lay.nodes && m != n ==>
        m.offset + m.size <= n.offset || n.offset + n.size <= m.offset)
    && (forall n :: n in lay.nodes && !Crosses(n) ==> n.offset + n.size <= lay.primary.length)
  }

  /** `addr` shows all of node `n` through mapping `m`. */
  predicate Shows(lay: Layout, m: Mapping, addr: int, n: Node) {
    && m.addr <= addr && addr + n.size <= m.addr + m.length
    && m.start + (addr - m.addr) == lay.base + n.offset
  }

  /** Rounding down to a page. */
  function Floor(lay: Layout, x: nat): (r: nat)
    ensures r <= x
  {
    x / lay.page * lay.page
  }

  /** One entry of one translation table. */
  datatype Entry = Entry(limit: nat, xover: int, xbase: nat)

  /** Where a thread is.  The first group belongs to translate_critical and
      translate_less_critical, the second to get_or_add_xover_mapping, the third to the copying
      of an entry into a new table. */
  datatype Pc =
    | Critical
    | LoadLimit
    | Raise(seen: nat)
    | Decide
    | LoadXover
    | Reload
    | UseXover(found: int)
    | Done(addr: int)
    //
    | WantLock
    | Check
    | MapXover
    | StoreBase
    | StoreXover
    | Unlock
    | AssertionFailed
    //
    | CopyXover
    | CopyLimit(cx: int)
    | CopyBase(bx: int, limit: nat)
    | Copied

  /** A thread translates `node` with table `table`. */
  datatype Thread = Thread(table: nat, node: Node, pc: Pc)

  datatype State = State(entries: seq<Entry>, xmap: Option<Mapping>, lock: Option<nat>, threads: map<nat, Thread>)

  /** What the environment decides in a step: whether a weak compare-and-exchange fails
      spuriously, and where the system puts a new mapping. */
  datatype Choice = Choice(spurious: bool, place: int)

  /** What the limit has to reach before the node of a thread may be used. */
  function Target(n: Node): (r: nat) {
    if Crosses(n) then n.offset else n.offset + n.size
  }

  function XoverFor(lay: Layout, n: Node, addr: int): (r: Mapping)
  {
    var fileOffset := lay.base + n.offset;
    var mappingOffset := lay.base + Floor(lay, n.offset);
    Mapping(addr, mappingOffset, fileOffset + n.size - mappingOffset)
  }

  function SetPc(s: State, tid: nat, pc: Pc): (r: State)
    requires tid in s.threads
  {
    s.(threads := s.threads[tid := s.threads[tid].(pc := pc)])
  }

  ghost predicate InRange(s: State, tid: nat) {
    tid in s.threads && s.threads[tid].table < |s.entries|
  }

  /** One atomic step of thread `tid`.  A thread that waits for the mutex, or is done, stays put. */
  ghost function Step(lay: Layout, s: State, tid: nat, c: Choice): (r: State)
    requires InRange(s, tid)
  {
    var t := s.threads[tid];
    var k, n := t.table, t.node;
    var e := s.entries[k];
    match t.pc
    case Critical =>
      SetPc(s, tid, if n.offset < e.limit then Done(lay.primary.addr + n.offset) else LoadLimit)
    case LoadLimit =>
      SetPc(s, tid, Raise(e.limit))
    case Raise(seen) =>
      if Target(n) <= seen then SetPc(s, tid, Decide)
      else if e.limit == seen && !c.spurious then
        SetPc(s.(entries := s.entries[k := e.(limit := Target(n))]), tid, Decide)
      else SetPc(s, tid, Raise(e.limit))
    case Decide =>
      SetPc(s, tid, if Crosses(n) then LoadXover else Done(lay.primary.addr + n.offset))
    case LoadXover =>
      SetPc(s, tid, if e.xover != 0 then UseXover(e.xover) else WantLock)
    case Reload =>
      SetPc(s, tid, UseXover(e.xover))
    case UseXover(found) =>
      SetPc(s, tid, Done(found + (n.offset - e.xbase)))
    case WantLock =>
      if s.lock.Some? then s else SetPc(s.(lock := Some(tid)), tid, Check)
    case Check =>
      SetPc(s, tid, if e.xover == 0 then MapXover else if n.offset == e.limit then Unlock else AssertionFailed)
    case MapXover =>
      var s' := if s.xmap.Some? then s else s.(xmap := Some(XoverFor(lay, n, c.place)));
      SetPc(s', tid, StoreBase)
    case StoreBase =>
      SetPc(s.(entries := s.entries[k := e.(xbase := Floor(lay, n.offset))]), tid, StoreXover)
    case StoreXover =>
      var addr := if s.xmap.Some? then s.xmap.value.addr else 0;
      SetPc(s.(entries := s.entries[k := e.(xover := addr)]), tid, Unlock)
    case Unlock =>
      SetPc(s.(lock := None), tid, Reload)
    case CopyXover =>
      SetPc(s, tid, CopyLimit(e.xover))
    case CopyLimit(x) =>
      SetPc(s, tid, CopyBase(x, e.limit))
    case CopyBase(x, limit) =>
      SetPc(s.(entries := s.entries + [Entry(limit, x, if x != 0 then e.xbase else 0)]), tid, Copied)
    case _ => s
  }

  /** What can happen: a step of a thread, a new translation or copy, a new empty table. */
  datatype Event =
    | Move(tid: nat, choice: Choice)
    | Begin(tid: nat, table: nat, node: Node)
    | BeginCopy(tid: nat, table: nat, node: Node)
    | NewTable

  ghost predicate Possible(lay: Layout, s: State, ev: Event) {
    match ev
    case Move(tid, c) => InRange(s, tid) && c.place != 0
    case Begin(tid, table, n) => tid !in s.threads && table < |s.entries| && n in lay.nodes
    case BeginCopy(tid, table, n) => tid !in s.threads && table < |s.entries| && n in lay.nodes
    case NewTable => true
  }

  ghost function Apply(lay: Layout, s: State, ev: Event): (r: State)
    requires Possible(lay, s, ev)
  {
    match ev
    case Move(tid, c) => Step(lay, s, tid, c)
    case Begin(tid, table, n) => s.(threads := s.threads[tid := Thread(table, n, Critical)])
    case BeginCopy(tid, table, n) => s.(threads := s.threads[tid := Thread(table, n, CopyXover)])
    case NewTable => s.(entries := s.entries + [Entry(0, 0, 0)])
  }

  const INITIAL := State([Entry(0, 0, 0)], None, None, map[])

  // ----- the invariant -----

  /** No limit leaves the section or passes a crossing node; a cross-over address, once set, shows the crossing node
      and goes with a limit that has reached it. */
  ghost predicate EntryOk(lay: Layout, s: State, e: Entry)
  {
    && e.limit <= SECTION
    && (e.xover != 0 ==> exists c :: c in lay.nodes && Crosses(c))
    && forall c :: c in lay.nodes && Crosses(c) ==>
      && e.limit <= c.offset
      && (e.xover != 0 ==>
          e.limit == c.offset && e.xbase == Floor(lay, c.offset) && s.xmap == Some(XoverFor(lay, c, e.xover)))
  }

  ghost predicate XmapOk(lay: Layout, s: State)
  {
    s.xmap.Some? ==>
      && s.xmap.value.addr != 0
      && (exists c :: c in lay.nodes && Crosses(c))
      && forall c :: c in lay.nodes && Crosses(c) ==> s.xmap.value == XoverFor(lay, c, s.xmap.value.addr)
  }

  predicate HoldsLock(pc: Pc) {
    pc.Check? || pc.MapXover? || pc.StoreBase? || pc.StoreXover? || pc.Unlock?
  }

  predicate Answers(pc: Pc) {
    pc.Critical? || pc.UseXover? || pc.Decide?
  }

  /** From here on the thread's node is known to cross and its limit has been raised. */
  predicate Crossing(pc: Pc) {
    pc.LoadXover? || pc.Reload? || pc.UseXover? || pc.WantLock? || HoldsLock(pc)
  }

  ghost predicate ThreadOk(lay: Layout, s: State, tid: nat)
    requires tid in s.threads
  {
    var t := s.threads[tid];
    && t.table < |s.entries| && t.node in lay.nodes
    && var e := s.entries[t.table];
    && (HoldsLock(t.pc) <==> s.lock == Some(tid))
    && (Crossing(t.pc) ==> Crosses(t.node))
    && (Crossing(t.pc) || t.pc.Decide? ==> Target(t.node) <= e.limit)
    && match t.pc
       case Raise(seen) => seen <= e.limit
       case Reload => e.xover != 0
       case UseXover(found) => found == e.xover && found != 0
       case MapXover => e.xover == 0
       case StoreBase => e.xover == 0 && s.xmap.Some?
       case StoreXover => e.xover == 0 && s.xmap.Some? && e.xbase == Floor(lay, t.node.offset)
       case Unlock => e.xover != 0
       case Done(addr) =>
         && Translated(lay, s, t.node, addr)
         && (Crosses(t.node) || (t.node.offset < e.limit && addr == lay.primary.addr + t.node.offset))
       case AssertionFailed => false
       case CopyLimit(x) => x != 0 ==> x == e.xover
       case CopyBase(x, limit) =>
         (x != 0 ==> x == e.xover && limit == e.limit) && limit <= e.limit
       case _ => true
  }

  /** The address shows the whole node through the primary or the cross-over mapping. */
  predicate Translated(lay: Layout, s: State, n: Node, addr: int) {
    Shows(lay, lay.primary, addr, n) || (s.xmap.Some? && Shows(lay, s.xmap.value, addr, n))
  }

  ghost predicate Inv(lay: Layout, s: State) {
    && WellFormed(lay)
    && (forall k :: 0 <= k < |s.entries| ==> EntryOk(lay, s, s.entries[k]))
    && XmapOk(lay, s)
    && (s.lock.Some? ==> s.lock.value in s.threads)
    && (forall tid :: tid in s.threads ==> ThreadOk(lay, s, tid))
  }

  // ----- facts about a layout -----

  /** No thread ever raises a limit past the crossing node. */
  lemma TargetBelow(lay: Layout, n: Node, c: Node)
    requires WellFormed(lay) && n in lay.nodes && c in lay.nodes && Crosses(c)
    ensures Target(n) <= c.offset
    ensures n != c ==> !Crosses(n)
  {
  }

  lemma InsidePrimary(lay: Layout, n: Node)
    requires WellFormed(lay) && n in lay.nodes && !Crosses(n)
    ensures Shows(lay, lay.primary, lay.primary.addr + n.offset, n) && n.offset < Target(n)
  {
  }

  /** Below the limit every node is inside the primary mapping. */
  lemma BelowLimit(lay: Layout, s: State, e: Entry, n: Node)
    requires WellFormed(lay) && EntryOk(lay, s, e) && n in lay.nodes && n.offset < e.limit
    ensures Shows(lay, lay.primary, lay.primary.addr + n.offset, n)
  {
  }

  lemma XoverShows(lay: Layout, n: Node, addr: int)
    ensures Shows(lay, XoverFor(lay, n, addr), addr + (n.offset - Floor(lay, n.offset)), n)
  {
  }

  // ----- steps keep the invariant -----

  /** What a step of `tid` may change, seen by the other threads: limits only grow, a published
      cross-over entry is final, and only the holder of the mutex publishes. */
  ghost predicate Evolves(s: State, s': State, tid: nat) {
    && |s.entries| <= |s'.entries|
    && (forall k :: 0 <= k < |s.entries| ==> EntryEvolves(s.entries[k], s'.entries[k], s.lock == Some(tid)))
    && (s.xmap.Some? || s.lock != Some(tid) ==> s'.xmap == s.xmap)
    && (forall u: nat :: u != tid ==> (s'.lock == Some(u) <==> s.lock == Some(u)))
    && (forall u :: u in s.threads && u != tid ==> u in s'.threads && s'.threads[u] == s.threads[u])
  }

  predicate EntryEvolves(e: Entry, e': Entry, locked: bool) {
    && e.limit <= e'.limit
    && (e.xover != 0 ==> e' == e)
    && (!locked ==> e'.xover == e.xover && e'.xbase == e.xbase)
  }

  lemma OthersOk(lay: Layout, s: State, s': State, tid: nat, u: nat)
    requires u in s.threads && u != tid
    requires ThreadOk(lay, s, u) && Evolves(s, s', tid)
    ensures u in s'.threads && ThreadOk(lay, s', u)
  {
    var k := s.threads[u].table;
    assert EntryEvolves(s.entries[k], s'.entries[k], s.lock == Some(tid));
  }

  /** Steps that write to an entry of a table. */
  predicate WritesEntry(pc: Pc) {
    pc.Raise? || pc.StoreBase? || pc.StoreXover? || pc.CopyBase?
  }

  lemma QuietEvolves(lay: Layout, s: State, tid: nat, c: Choice)
    requires InRange(s, tid) && ThreadOk(lay, s, tid) && !WritesEntry(s.threads[tid].pc)
    ensures Evolves(s, Step(lay, s, tid, c), tid)
  {
    hide Floor, XoverFor, Shows, WellFormed;
  }

  lemma StepEvolves(lay: Layout, s: State, tid: nat, c: Choice)
    requires Inv(lay, s) && InRange(s, tid)
    ensures Evolves(s, Step(lay, s, tid, c), tid)
  {
    assert ThreadOk(lay, s, tid);
    if WritesEntry(s.threads[tid].pc) {
      WritingEvolves(lay, s, tid, c);
    } else {
      QuietEvolves(lay, s, tid, c);
    }
  }

  lemma WritingEvolves(lay: Layout, s: State, tid: nat, c: Choice)
    requires Inv(lay, s) && InRange(s, tid) && ThreadOk(lay, s, tid) && WritesEntry(s.threads[tid].pc)
    ensures Evolves(s, Step(lay, s, tid, c), tid)
  {
    hide Floor, XoverFor, Shows, EntryOk, XmapOk, WellFormed;
    var e := s.entries[s.threads[tid].table];
    assert EntryOk(lay, s, e);
    PublishedLimit(lay, s, e, s.threads[tid].node);
  }

  /** Once an entry is published, no node of the section needs a higher limit. */
  lemma PublishedLimit(lay: Layout, s: State, e: Entry, n: Node)
    requires WellFormed(lay) && EntryOk(lay, s, e) && n in lay.nodes
    ensures e.xover != 0 ==> Target(n) <= e.limit
  {
    hide Floor, XoverFor;
    if e.xover != 0 {
      var x :| x in lay.nodes && Crosses(x);
      TargetBelow(lay, n, x);
    }
  }

  /** The stepping thread, where it may hand out an address. */
  lemma SelfAnswers(lay: Layout, s: State, tid: nat, c: Choice)
    requires Inv(lay, s) && InRange(s, tid)
    requires Answers(s.threads[tid].pc)
    ensures tid in Step(lay, s, tid, c).threads && ThreadOk(lay, Step(lay, s, tid, c), tid)
  {
    hide WellFormed, Shows, XoverFor, Floor;
    assert ThreadOk(lay, s, tid);
    var k, n := s.threads[tid].table, s.threads[tid].node;
    var e := s.entries[k];
    assert EntryOk(lay, s, e);
    match s.threads[tid].pc
    case Critical =>
      if n.offset < e.limit {
        BelowLimit(lay, s, e, n);
      }
    case UseXover(found) =>
      XoverShows(lay, n, found);
    case Decide =>
      if !Crosses(n) {
        InsidePrimary(lay, n);
      }
  }

  /** The stepping thread while it holds the mutex. */
  lemma SelfLocked(lay: Layout, s: State, tid: nat, c: Choice)
    requires Inv(lay, s) && InRange(s, tid)
    requires HoldsLock(s.threads[tid].pc)
    ensures tid in Step(lay, s, tid, c).threads && ThreadOk(lay, Step(lay, s, tid, c), tid)
  {
    hide WellFormed, Shows, XoverFor, Floor;
    assert ThreadOk(lay, s, tid);
    var k, n := s.threads[tid].table, s.threads[tid].node;
    var e := s.entries[k];
    assert EntryOk(lay, s, e);
  }

  /** The stepping thread elsewhere. */
  lemma SelfProceeds(lay: Layout, s: State, tid: nat, c: Choice)
    requires Inv(lay, s) && InRange(s, tid)
    requires !Answers(s.threads[tid].pc) && !HoldsLock(s.threads[tid].pc)
    ensures tid in Step(lay, s, tid, c).threads && ThreadOk(lay, Step(lay, s, tid, c), tid)
  {
    hide WellFormed, Shows, XoverFor, Floor, EntryOk, XmapOk;
    assert ThreadOk(lay, s, tid);
  }

  lemma StepThreads(lay: Layout, s: State, tid: nat, c: Choice)
    requires InRange(s, tid)
    ensures var s' := Step(lay, s, tid, c);
            s'.threads.Keys == s.threads.Keys && (s'.lock.Some? ==> s'.lock == s.lock || s'.lock == Some(tid))
  {
  }

  /** An entry that is not written to, when at most a first cross-over mapping is recorded. */
  lemma EntryKept(lay: Layout, s: State, s': State, e: Entry)
    requires EntryOk(lay, s, e) && (s.xmap.Some? ==> s'.xmap == s.xmap)
    ensures EntryOk(lay, s', e)
  {
    hide Floor, XoverFor;
  }

  /** Raising a limit to what a node needs. */
  lemma RaisedEntry(lay: Layout, s: State, e: Entry, n: Node)
    requires WellFormed(lay) && EntryOk(lay, s, e) && n in lay.nodes && e.limit < Target(n)
    ensures EntryOk(lay, s, e.(limit := Target(n)))
  {
    hide Floor, XoverFor;
    TargetInside(lay, n);
    if e.xover != 0 {
      var x :| x in lay.nodes && Crosses(x);
      TargetBelow(lay, n, x);
    }
    forall x | x in lay.nodes && Crosses(x) ensures Target(n) <= x.offset {
      TargetBelow(lay, n, x);
    }
  }

  lemma TargetInside(lay: Layout, n: Node)
    requires WellFormed(lay) && n in lay.nodes
    ensures Target(n) <= SECTION
  {
  }

  /** Publishing the cross-over mapping of the crossing node. */
  lemma PublishedEntry(lay: Layout, s: State, e: Entry, n: Node)
    requires WellFormed(lay) && EntryOk(lay, s, e) && XmapOk(lay, s) && n in lay.nodes && Crosses(n)
    requires s.xmap.Some? && e.xover == 0 && Target(n) <= e.limit && e.xbase == Floor(lay, n.offset)
    ensures EntryOk(lay, s, e.(xover := s.xmap.value.addr))
  {
    hide Floor, XoverFor;
    forall x | x in lay.nodes && Crosses(x) ensures x == n {
      TargetBelow(lay, n, x);
    }
  }

  /** An entry copied field by field to a new table. */
  lemma CopiedEntry(lay: Layout, s: State, e: Entry, x: int, limit: nat)
    requires EntryOk(lay, s, e) && (x != 0 ==> x == e.xover && limit == e.limit) && limit <= e.limit
    ensures EntryOk(lay, s, Entry(limit, x, if x != 0 then e.xbase else 0))
  {
    hide Floor, XoverFor;
  }

  lemma QuietEntries(lay: Layout, s: State, tid: nat, c: Choice)
    requires InRange(s, tid) && !WritesEntry(s.threads[tid].pc)
    ensures var s' := Step(lay, s, tid, c);
            s'.entries == s.entries && (s.xmap.Some? ==> s'.xmap == s.xmap)
  {
    hide Floor, XoverFor;
  }

  lemma WritingXmap(lay: Layout, s: State, tid: nat, c: Choice)
    requires InRange(s, tid) && WritesEntry(s.threads[tid].pc)
    ensures Step(lay, s, tid, c).xmap == s.xmap
  {
    hide Floor, XoverFor;
  }

  /** Every entry of every table. */
  lemma EntriesOk(lay: Layout, s: State, tid: nat, c: Choice, k: nat)
    requires Inv(lay, s) && InRange(s, tid) && c.place != 0
    requires k < |Step(lay, s, tid, c).entries|
    ensures EntryOk(lay, Step(lay, s, tid, c), Step(lay, s, tid, c).entries[k])
  {
    hide EntryOk, Floor, Shows, XoverFor, WellFormed, XmapOk;
    assert ThreadOk(lay, s, tid);
    if WritesEntry(s.threads[tid].pc) {
      EntryWritten(lay, s, tid, c, k);
    } else {
      QuietEntries(lay, s, tid, c);
      hide Step;
      EntryKept(lay, s, Step(lay, s, tid, c), s.entries[k]);
    }
  }

  lemma EntryWritten(lay: Layout, s: State, tid: nat, c: Choice, k: nat)
    requires Inv(lay, s) && InRange(s, tid) && ThreadOk(lay, s, tid) && WritesEntry(s.threads[tid].pc)
    requires k < |Step(lay, s, tid, c).entries|
    ensures EntryOk(lay, Step(lay, s, tid, c), Step(lay, s, tid, c).entries[k])
  {
    hide EntryOk, Floor, Shows, XoverFor, WellFormed, XmapOk;
    var t := s.threads[tid];
    var e := s.entries[t.table];
    var s' := Step(lay, s, tid, c);
    WritingXmap(lay, s, tid, c);
    var e' := s'.entries[k];
    assert EntryOk(lay, s, e') by {
      if k < |s.entries| && k != t.table {
        assert e' == s.entries[k];
      } else {
        match t.pc {
          case Raise(seen) =>
            if e' != e {
              RaisedEntry(lay, s, e, t.node);
            }
          case StoreBase =>
            BasedEntry(lay, s, e, Floor(lay, t.node.offset));
          case StoreXover =>
            PublishedEntry(lay, s, e, t.node);
          case CopyBase(x, limit) =>
            if k == |s.entries| {
              CopiedEntry(lay, s, e, x, limit);
            }
          case _ =>
        }
      }
    }
    EntryKept(lay, s, s', e');
  }

  lemma BasedEntry(lay: Layout, s: State, e: Entry, base: nat)
    requires EntryOk(lay, s, e) && e.xover == 0
    ensures EntryOk(lay, s, e.(xbase := base))
  {
    hide Floor, XoverFor;
  }

  lemma XmapStays(lay: Layout, s: State, tid: nat, c: Choice)
    requires Inv(lay, s) && InRange(s, tid) && c.place != 0
    ensures XmapOk(lay, Step(lay, s, tid, c))
  {
    assert ThreadOk(lay, s, tid);
    var n := s.threads[tid].node;
    forall x | x in lay.nodes && Crosses(x) ensures Crosses(n) ==> n == x {
      TargetBelow(lay, n, x);
    }
  }

  lemma ApplyKeepsInv(lay: Layout, s: State, ev: Event)
    requires Inv(lay, s) && Possible(lay, s, ev)
    ensures Inv(lay, Apply(lay, s, ev))
  {
    match ev
    case Move(tid, c) =>
      StepKeepsInv(lay, s, tid, c);
    case Begin(tid, table, n) =>
      StartKeepsInv(lay, s, Apply(lay, s, ev), tid);
    case BeginCopy(tid, table, n) =>
      StartKeepsInv(lay, s, Apply(lay, s, ev), tid);
    case NewTable =>
      NewTableKeepsInv(lay, s);
  }

  lemma StepKeepsInv(lay: Layout, s: State, tid: nat, c: Choice)
    requires Inv(lay, s) && InRange(s, tid) && c.place != 0
    ensures Inv(lay, Step(lay, s, tid, c))
  {
    hide Step, ThreadOk, EntryOk, XmapOk, WellFormed;
    var s' := Step(lay, s, tid, c);
    StepEvolves(lay, s, tid, c);
    if Answers(s.threads[tid].pc) {
      SelfAnswers(lay, s, tid, c);
    } else if HoldsLock(s.threads[tid].pc) {
      SelfLocked(lay, s, tid, c);
    } else {
      SelfProceeds(lay, s, tid, c);
    }
    XmapStays(lay, s, tid, c);
    StepThreads(lay, s, tid, c);
    forall k | 0 <= k < |s'.entries| ensures EntryOk(lay, s', s'.entries[k]) {
      EntriesOk(lay, s, tid, c, k);
    }
    forall u | u in s'.threads ensures ThreadOk(lay, s', u) {
      if u != tid {
        OthersOk(lay, s, s', tid, u);
      }
    }
  }

  lemma NewTableKeepsInv(lay: Layout, s: State)
    requires Inv(lay, s)
    ensures Inv(lay, s.(entries := s.entries + [Entry(0, 0, 0)]))
  {
    hide WellFormed;
    var s' := s.(entries := s.entries + [Entry(0, 0, 0)]);
    forall u | u in s'.threads ensures ThreadOk(lay, s', u) {
      assert ThreadOk(lay, s, u);
    }
  }

  lemma StartKeepsInv(lay: Layout, s: State, s': State, tid: nat)
    requires Inv(lay, s) && tid !in s.threads
    requires tid in s'.threads && s' == s.(threads := s.threads[tid := s'.threads[tid]])
    requires var t := s'.threads[tid];
             t.table < |s.entries| && t.node in lay.nodes && (t.pc.Critical? || t.pc.CopyXover?)
    ensures Inv(lay, s')
  {
    forall u | u in s'.threads ensures ThreadOk(lay, s', u) {
      if u != tid {
        assert ThreadOk(lay, s, u);
      }
    }
  }

  // ----- whole runs -----

  /** A run: the initial state, then one event after the other. */
  ghost predicate Run(lay: Layout, states: seq<State>, events: seq<Event>) {
    && |states| == |events| + 1 && states[0] == INITIAL
    && forall i :: 0 <= i < |events| ==>
        Possible(lay, states[i], events[i]) && states[i + 1] == Apply(lay, states[i], events[i])
  }

  lemma {:induction false} RunInv(lay: Layout, states: seq<State>, events: seq<Event>, i: nat)
    requires WellFormed(lay) && Run(lay, states, events) && i < |states|
    ensures Inv(lay, states[i])
  {
    if i > 0 {
      RunInv(lay, states, events, i - 1);
      ApplyKeepsInv(lay, states[i - 1], events[i - 1]);
    }
  }

  lemma StepNode(lay: Layout, s: State, tid: nat, c: Choice, u: nat)
    requires InRange(s, tid) && u in s.threads
    ensures var s' := Step(lay, s, tid, c);
            u in s'.threads && s'.threads[u].node == s.threads[u].node && s'.threads[u].table == s.threads[u].table
  {
  }

  /** A thread goes on with the node and the table it began with. */
  lemma {:induction false} ThreadStays(lay: Layout, states: seq<State>, events: seq<Event>, j: nat, i: nat, tid: nat)
    requires WellFormed(lay) && Run(lay, states, events) && j <= i < |states| && tid in states[j].threads
    ensures tid in states[i].threads
    ensures states[i].threads[tid].node == states[j].threads[tid].node
    ensures states[i].threads[tid].table == states[j].threads[tid].table
    decreases i
  {
    hide Step, Inv;
    if j < i {
      ThreadStays(lay, states, events, j, i - 1, tid);
      var s, ev := states[i - 1], events[i - 1];
      if ev.Move? {
        StepNode(lay, s, ev.tid, ev.choice, tid);
      }
    }
  }

  /** In every run: an address handed to a caller that asked for node `n` shows all of `n`, in the
      primary mapping if `n` lies inside the section, and the assertion that a second mapping is only
      ever wanted for the exact same address never fires. */
  lemma TranslationSafe(lay: Layout, states: seq<State>, events: seq<Event>, j: nat, i: nat, tid: nat, table: nat,
                        n: Node)
    requires WellFormed(lay) && Run(lay, states, events) && j < i < |states| && events[j] == Begin(tid, table, n)
    ensures tid in states[i].threads
    ensures var pc := states[i].threads[tid].pc;
            && !pc.AssertionFailed? && (pc.Done? ==> Translated(lay, states[i], n, pc.addr))
            && (pc.Done? && n.offset + n.size <= SECTION ==> pc.addr == lay.primary.addr + n.offset)
  {
    ThreadStays(lay, states, events, j + 1, i, tid);
    RunInv(lay, states, events, i);
    assert ThreadOk(lay, states[i], tid);
  }

  /** In every run: once a node inside its section was translated with a table, every later
      translation of it with that table is answered by its first step. */
  lemma FastAgain(lay: Layout, states: seq<State>, events: seq<Event>, i: nat, j: nat, tid: nat, u: nat, c: Choice)
    requires WellFormed(lay) && Run(lay, states, events) && i <= j < |states| && tid in states[i].threads
    requires states[i].threads[tid].pc.Done? && !Crosses(states[i].threads[tid].node) && u in states[j].threads
    requires states[j].threads[u] == Thread(states[i].threads[tid].table, states[i].threads[tid].node, Critical)
    ensures InRange(states[j], u) && Step(lay, states[j], u, c).threads[u].pc.Done?
  {
    hide Inv, Step, WellFormed;
    RunInv(lay, states, events, i);
    DoneBelow(lay, states[i], tid);
    LimitGrows(lay, states, events, i, j, states[i].threads[tid].table);
    FirstStep(lay, states[j], u, c);
  }

  lemma DoneBelow(lay: Layout, s: State, tid: nat)
    requires Inv(lay, s) && tid in s.threads && s.threads[tid].pc.Done? && !Crosses(s.threads[tid].node)
    ensures InRange(s, tid) && s.threads[tid].node.offset < s.entries[s.threads[tid].table].limit
  {
    assert ThreadOk(lay, s, tid);
  }

  lemma FirstStep(lay: Layout, s: State, u: nat, c: Choice)
    requires InRange(s, u) && s.threads[u].pc.Critical?
    ensures s.threads[u].node.offset < s.entries[s.threads[u].table].limit ==>
            Step(lay, s, u, c).threads[u].pc.Done?
  {
  }

  // ----- a thread that runs alone -----

  predicate Copies(pc: Pc) {
    pc.CopyXover? || pc.CopyLimit? || pc.CopyBase? || pc.Copied?
  }

  /** How far a translation is from its answer. */
  ghost function Distance(s: State, tid: nat): (d: nat)
    requires InRange(s, tid)
  {
    match s.threads[tid].pc
    case Critical => 14
    case LoadLimit => 13
    case Raise(seen) => if seen == s.entries[s.threads[tid].table].limit then 11 else 12
    case Decide => 10
    case LoadXover => 9
    case WantLock => 8
    case Check => 7
    case MapXover => 6
    case StoreBase => 5
    case StoreXover => 4
    case Unlock => 3
    case Reload => 2
    case UseXover(_) => 1
    case _ => 0
  }

  /** Nobody else holds the mutex. */
  predicate Unhindered(s: State, tid: nat) {
    s.lock.None? || s.lock.value == tid
  }

  ghost predicate Nearer(s: State, s': State, tid: nat)
    requires InRange(s, tid)
  {
    && InRange(s', tid) && Unhindered(s', tid) && !Copies(s'.threads[tid].pc)
    && (if s.threads[tid].pc.Done? then s' == s else Distance(s', tid) < Distance(s, tid))
    && (Distance(s', tid) == 0 <==> s'.threads[tid].pc.Done?)
  }

  lemma SoloStep(lay: Layout, s: State, tid: nat, c: Choice)
    requires Inv(lay, s) && InRange(s, tid) && Unhindered(s, tid) && !c.spurious && c.place != 0
    requires !Copies(s.threads[tid].pc)
    ensures Nearer(s, Step(lay, s, tid, c), tid)
  {
    hide Inv, Nearer;
    if HoldsLock(s.threads[tid].pc) {
      SoloLocked(lay, s, tid, c);
    } else {
      SoloFree(lay, s, tid, c);
    }
  }

  lemma SoloLocked(lay: Layout, s: State, tid: nat, c: Choice)
    requires Inv(lay, s) && InRange(s, tid) && HoldsLock(s.threads[tid].pc) && c.place != 0
    ensures Nearer(s, Step(lay, s, tid, c), tid)
  {
    hide WellFormed, XmapOk, Floor, XoverFor;
    assert ThreadOk(lay, s, tid);
    assert EntryOk(lay, s, s.entries[s.threads[tid].table]);
  }

  lemma SoloFree(lay: Layout, s: State, tid: nat, c: Choice)
    requires Inv(lay, s) && InRange(s, tid) && Unhindered(s, tid) && !c.spurious
    requires !Copies(s.threads[tid].pc) && !HoldsLock(s.threads[tid].pc)
    ensures Nearer(s, Step(lay, s, tid, c), tid)
  {
    hide WellFormed, XmapOk, Floor, XoverFor, EntryOk, Target, Crosses;
    assert ThreadOk(lay, s, tid);
  }

  /** A thread that is in nobody's way reaches its answer by 14 steps of its own, from every state
      that a run can lead to. */
  lemma {:induction false} SoloFinishes(lay: Layout, states: seq<State>, tid: nat, place: int, i: nat)
    requires |states| == 15 && i <= 14 && place != 0 && Inv(lay, states[0])
    requires InRange(states[0], tid) && Unhindered(states[0], tid) && !Copies(states[0].threads[tid].pc)
    requires forall k :: 0 <= k < 14 ==>
        InRange(states[k], tid) && states[k + 1] == Step(lay, states[k], tid, Choice(false, place))
    ensures Inv(lay, states[i]) && InRange(states[i], tid) && Unhindered(states[i], tid)
    ensures var pc := states[i].threads[tid].pc; !Copies(pc) && (pc.Done? || Distance(states[i], tid) <= 14 - i)
    ensures i == 14 ==> states[i].threads[tid].pc.Done?
  {
    hide Inv, Step;
    if i > 0 {
      SoloFinishes(lay, states, tid, place, i - 1);
      SoloStep(lay, states[i - 1], tid, Choice(false, place));
      StepKeepsInv(lay, states[i - 1], tid, Choice(false, place));
    }
  }

  lemma PageMultiple(base: int, page: Positive, q: int)
    requires SECTION % page == 0 && base % SECTION == 0
    ensures (base + q * page) % page == 0
  {
    var a, b := base / SECTION, SECTION / page;
    assert base == page * (b * a) by {
      Bits.DivMod(base, SECTION);
      Bits.DivMod(SECTION, page);
    }
    Bits.Split(base + q * page, page, 0, b * a + q);
  }

  /** In every run the cross-over mapping starts on a page, as the system asks, and on the last one
      that does not start after the node. */
  lemma XoverOnPage(lay: Layout, states: seq<State>, events: seq<Event>, i: nat, n: Node)
    requires WellFormed(lay) && Run(lay, states, events) && i < |states| && states[i].xmap.Some?
    ensures states[i].xmap.value.start % lay.page == 0
    ensures n in lay.nodes && Crosses(n) ==>
            var start := states[i].xmap.value.start; start <= lay.base + n.offset < start + lay.page
  {
    RunInv(lay, states, events, i);
    var c :| c in lay.nodes && Crosses(c);
    PageMultiple(lay.base, lay.page, c.offset / lay.page);
    Bits.DivMod(c.offset, lay.page);
    Bits.DivMod(n.offset, lay.page);
  }

  /** In every run a limit only grows, never passes the section's crossing node, and never
      changes again once the entry has a cross-over mapping. */
  lemma {:induction false} LimitGrows(lay: Layout, states: seq<State>, events: seq<Event>, i: nat, j: nat, k: nat)
    requires WellFormed(lay) && Run(lay, states, events) && i <= j < |states| && k < |states[i].entries|
    ensures k < |states[j].entries|
    ensures var e, e' := states[i].entries[k], states[j].entries[k];
            && e.limit <= e'.limit
            && (forall c :: c in lay.nodes && Crosses(c) ==> e'.limit <= c.offset)
            && (e.xover != 0 ==> e' == e)
    decreases j - i
  {
    hide Inv, Step;
    RunInv(lay, states, events, j);
    LimitBelow(lay, states[j]);
    if i < j {
      RunInv(lay, states, events, i);
      EventGrows(lay, states[i], events[i], k);
      LimitGrows(lay, states, events, i + 1, j, k);
    }
  }

  lemma LimitBelow(lay: Layout, s: State)
    requires Inv(lay, s)
    ensures forall k, c :: 0 <= k < |s.entries| && c in lay.nodes && Crosses(c) ==> s.entries[k].limit <= c.offset
  {
    forall k, c | 0 <= k < |s.entries| && c in lay.nodes && Crosses(c) ensures s.entries[k].limit <= c.offset {
      assert EntryOk(lay, s, s.entries[k]);
    }
  }

  lemma EventGrows(lay: Layout, s: State, ev: Event, k: nat)
    requires Inv(lay, s) && Possible(lay, s, ev) && k < |s.entries|
    ensures k < |Apply(lay, s, ev).entries|
    ensures EntryEvolves(s.entries[k], Apply(lay, s, ev).entries[k], true)
  {
    hide Inv, Step;
    match ev {
      case Move(tid, c) => StepEvolves(lay, s, tid, c);
      case _ =>
    }
  }

  /** A turn of the compare-and-exchange loop that does not fail spuriously leaves the loop or
      has seen the limit grow, and what it has seen stays within the section: the loop ends. */
  lemma RaiseProgress(lay: Layout, s: State, tid: nat, c: Choice)
    requires Inv(lay, s) && InRange(s, tid) && s.threads[tid].pc.Raise? && !c.spurious
    ensures var seen, pc' := s.threads[tid].pc.seen, Step(lay, s, tid, c).threads[tid].pc;
            pc'.Decide? || (pc'.Raise? && seen < pc'.seen <= SECTION)
    ensures forall x :: x in lay.nodes && Crosses(x) ==> s.threads[tid].pc.seen <= x.offset
  {
    assert ThreadOk(lay, s, tid);
    assert EntryOk(lay, s, s.entries[s.threads[tid].table]);
  }

  /** How often a thread moves without a spurious failure from event `i` to event `j`. */
  ghost function Turns(events: seq<Event>, tid: nat, i: nat, j: nat): (n: nat)
    requires i <= j <= |events|
  {
    if i == j then 0
    else Turns(events, tid, i, j - 1) +
         (var ev := events[j - 1]; if ev.Move? && ev.tid == tid && !ev.choice.spurious then 1 else 0)
  }

  /** While a thread is in the loop, what it has seen does not shrink, and grows with every turn of its own. */
  lemma RaiseStep(lay: Layout, s: State, ev: Event, tid: nat)
    requires Inv(lay, s) && Possible(lay, s, ev) && tid in s.threads && s.threads[tid].pc.Raise?
    requires tid in Apply(lay, s, ev).threads && Apply(lay, s, ev).threads[tid].pc.Raise?
    ensures var seen, seen' := s.threads[tid].pc.seen, Apply(lay, s, ev).threads[tid].pc.seen;
            seen + (if ev.Move? && ev.tid == tid && !ev.choice.spurious then 1 else 0) <= seen'
  {
    hide Inv, Step;
    match ev {
      case Move(u, c) =>
        if u == tid {
          RaiseTurn(lay, s, tid, c);
        } else {
          OtherThread(lay, s, u, c, tid);
        }
      case _ =>
    }
  }

  lemma RaiseTurn(lay: Layout, s: State, tid: nat, c: Choice)
    requires Inv(lay, s) && InRange(s, tid) && s.threads[tid].pc.Raise?
    ensures var seen, pc' := s.threads[tid].pc.seen, Step(lay, s, tid, c).threads[tid].pc;
            pc'.Raise? ==> seen + (if !c.spurious then 1 else 0) <= pc'.seen
  {
    assert ThreadOk(lay, s, tid);
    hide Inv;
  }

  lemma OtherThread(lay: Layout, s: State, tid: nat, c: Choice, u: nat)
    requires InRange(s, tid) && u in s.threads && u != tid
    ensures var s' := Step(lay, s, tid, c); u in s'.threads && s'.threads[u] == s.threads[u]
  {
  }

  lemma {:induction false} RaiseGains(lay: Layout, states: seq<State>, events: seq<Event>, i: nat, j: nat, tid: nat)
    requires WellFormed(lay) && Run(lay, states, events) && i <= j < |states|
    requires forall k :: i <= k <= j ==> tid in states[k].threads && states[k].threads[tid].pc.Raise?
    ensures states[i].threads[tid].pc.seen + Turns(events, tid, i, j) <= states[j].threads[tid].pc.seen
    decreases j - i
  {
    hide Inv, Step;
    if i < j {
      RaiseGains(lay, states, events, i, j - 1, tid);
      RunInv(lay, states, events, j - 1);
      var k := j - 1;
      assert Possible(lay, states[k], events[k]) && states[k + 1] == Apply(lay, states[k], events[k]);
      RaiseStep(lay, states[j - 1], events[j - 1], tid);
    }
  }

  /** In every run, however the threads interleave, a thread leaves the compare-and-exchange loop
      after at most as many turns of its own, spurious failures aside, as a section has bytes. */
  lemma RaiseEnds(lay: Layout, states: seq<State>, events: seq<Event>, i: nat, j: nat, tid: nat)
    requires WellFormed(lay) && Run(lay, states, events) && i <= j < |states|
    requires forall k :: i <= k <= j ==> tid in states[k].threads && states[k].threads[tid].pc.Raise?
    ensures Turns(events, tid, i, j) <= SECTION
  {
    RaiseGains(lay, states, events, i, j, tid);
    RunInv(lay, states, events, j);
    assert ThreadOk(lay, states[j], tid);
    assert EntryOk(lay, states[j], states[j].entries[states[j].threads[tid].table]);
  }
}
