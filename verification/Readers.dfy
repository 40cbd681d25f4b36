/** Readers of different versions while the file grows.

    Readers translate refs through the translation table they loaded. Meanwhile the
    file grows, a partial last mapping is replaced, tables are replaced, cross-over
    mappings are added, and what no live version can be using is purged. The model
    follows every order of these events; what one translation does with the entries
    of its table is the subject of `RefTranslation`.

    What is replaced is stamped with the youngest version the allocator knows of,
    which opening a database, writing and committing record, but reading does not. A
    reader may therefore be of a later version than the stamp, and lose what it uses.
 */
module Readers {
  import opened Options
  import opened FreeRings
  import opened BoundaryTags
  import opened Retirement

  /** The file part of a translation table; a replaced table is stamped. */
  datatype Table = Table(entries: seq<Addr>, stamp: Option<int>)

  /** An address a reader was given, in a primary or a cross-over mapping. */
  datatype Given = Primary(section: nat, addr: Addr) | Crossing(section: nat, addr: Addr)

  /** A reader of a version of the file, `size` bytes long. */
  datatype Reader = Reader(version: int, size: nat, table: Option<nat>, given: set<Given>)

  /** `shown` says how many bytes the system shows at the address of a mapping. Tables are numbered,
      and `next` is the number of the next one. `misused` records a table used
      after it was freed or past its end, and `asserted` an assertion that failed. */
  datatype State = State(
    baseline: nat, mappings: seq<Addr>, shown: map<Addr, int>, xovers: map<nat, Addr>,
    oldMappings: seq<OldMapping>, tables: map<nat, Table>, current: nat, next: nat, youngest: int,
    readers: map<nat, Reader>, misused: bool, asserted: bool)

  datatype Event =
    | BeginRead(id: nat, version: int, size: nat)
    | LoadTable(id: nat)
    | Translate(id: nat, section: nat)
    | TranslateCrossing(id: nat, section: nat, place: Addr)
    | EndRead(id: nat)
    | GrowFile(size: nat, extended: bool, places: seq<Addr>)
    | AddSlab
    | SetYoungest(youngest: int)
    | Purge(oldest: int, youngest: int)

  /** How many sections a file reaches into. */
  function Sections(size: nat): (n: nat)
    ensures SECTION * n >= size
    ensures n > 0 ==> SECTION * (n - 1) < size
  {
    (size + SECTION - 1) / SECTION
  }

  lemma MoreSections(size: nat, size': nat)
    requires size <= size'
    ensures Sections(size) <= Sections(size')
  {
  }

  /** How much of section `k` a file of a given size has. */
  function Part(k: int, size: int): (n: int) {
    if SECTION * (k + 1) <= size then SECTION else size - SECTION * k
  }

  /** The last mapping shows a part of its section. */
  predicate Partial(s: State) {
    s.baseline < SECTION * Sections(s.baseline)
  }

  /** Whether the last mapping is partial and cannot be extended in place. */
  predicate Replaces(s: State, extended: bool) {
    Partial(s) && !extended
  }

  function Unreplaced(s: State, extended: bool): (n: int) {
    |s.mappings| - (if Replaces(s, extended) then 1 else 0)
  }

  ghost predicate Used(s: State, a: Addr) {
    a in s.mappings || exists m :: m in s.oldMappings && m.addr == a
  }

  ghost predicate Distinct(maps: seq<Addr>) {
    forall i, j :: 0 <= i < j < |maps| ==> maps[i] != maps[j]
  }

  /** The system maps nothing where something is mapped. */
  ghost predicate Unmapped(s: State, newMaps: seq<Addr>) {
    Distinct(newMaps) && forall a :: a in newMaps ==> !Used(s, a)
  }

  /** A reader translates only refs of its own version; a purge spares the versions of all readers. */
  ghost predicate Possible(s: State, ev: Event) {
    match ev
    case BeginRead(id, version, size) => id !in s.readers && size <= s.baseline
    case LoadTable(id) => id in s.readers
    case Translate(id, k) => id in s.readers && s.readers[id].table.Some? && k < Sections(s.readers[id].size)
    case TranslateCrossing(id, k, place) =>
      id in s.readers && s.readers[id].table.Some? && SECTION * (k + 1) < s.readers[id].size
    case EndRead(id) => id in s.readers
    case GrowFile(size, extended, places) =>
      && s.baseline < size && 0 <= Unreplaced(s, extended) <= |s.mappings| <= Sections(size) == |places|
      && Unmapped(s, places) && s.current in s.tables
    case AddSlab => s.current in s.tables
    case SetYoungest(youngest) => true
    case Purge(oldest, youngest) => forall id :: id in s.readers ==> oldest <= s.readers[id].version
  }

  /** The current table is stamped and another one takes its place. */
  function Replaced(s: State, entries: seq<Addr>): (r: State)
    requires s.current in s.tables
  {
    var old' := s.tables[s.current].(stamp := Some(s.youngest));
    s.(tables := s.tables[s.current := old'][s.next := Table(entries, None)], current := s.next, next := s.next + 1)
  }

  function SetReader(s: State, id: nat, r: Reader): (s': State) {
    s.(readers := s.readers[id := r])
  }

  /** Whether a reader's table is there and has an entry for a section. */
  predicate HasEntry(s: State, r: Reader, k: nat) {
    r.table.Some? && r.table.value in s.tables && k < |s.tables[r.table.value].entries|
  }

  ghost function Apply(s: State, ev: Event): (r: State)
    requires Possible(s, ev)
  {
    match ev
    case BeginRead(id, version, size) => SetReader(s, id, Reader(version, size, None, {}))
    case LoadTable(id) => SetReader(s, id, s.readers[id].(table := Some(s.current)))
    case Translate(id, k) =>
      var r := s.readers[id];
      if !HasEntry(s, r, k) then s.(misused := true)
      else SetReader(s, id, r.(given := r.given + {Primary(k, s.tables[r.table.value].entries[k])}))
    case TranslateCrossing(id, k, place) => Crossed(s, id, k, place)
    case EndRead(id) => s.(readers := s.readers - {id})
    case GrowFile(size, extended, places) => Grown(s, size, extended, places)
    case AddSlab => Replaced(s, s.mappings)
    case SetYoungest(youngest) => s.(youngest := youngest)
    case Purge(oldest, youngest) => PurgedTo(s, oldest).(youngest := youngest)
  }

  /** A cross-over mapping is made, or found, for the mapping that is current in the section, which is
      asserted to be the one the table shows. */
  function Crossed(s: State, id: nat, k: nat, place: Addr): (r: State)
    requires id in s.readers
  {
    var r := s.readers[id];
    if !HasEntry(s, r, k) then s.(misused := true)
    else if !(k < |s.mappings| && s.mappings[k] == s.tables[r.table.value].entries[k]) then s.(asserted := true)
    else if k in s.xovers then SetReader(s, id, r.(given := r.given + {Crossing(k, s.xovers[k])}))
    else SetReader(s.(xovers := s.xovers[k := place]), id, r.(given := r.given + {Crossing(k, place)}))
  }

  predicate KeepsTable(t: Table, oldest: int) {
    t.stamp.Some? ==> oldest <= t.stamp.value
  }

  function PurgedTo(s: State, oldest: int): (r: State) {
    s.(oldMappings := KeptMappings(s.oldMappings, oldest),
       tables := map t | t in s.tables && KeepsTable(s.tables[t], oldest) :: s.tables[t])
  }

  /** What is shown after a partial last mapping was extended, if it can be. */
  function Extended(s: State, size: nat, extended: bool): (r: map<Addr, int>) {
    if Partial(s) && extended && s.mappings != []
      then s.shown[s.mappings[|s.mappings| - 1] := Part(|s.mappings| - 1, size)] else s.shown
  }

  /** What is shown after sections `k` to `m` were mapped. */
  ghost function Mapped(shown: map<Addr, int>, places: seq<Addr>, k: int, m: int, size: nat): (r: map<Addr, int>)
    requires 0 <= k <= m <= |places| && Distinct(places)
    ensures forall a :: a in shown && a !in places ==> a in r && r[a] == shown[a]
    ensures forall j :: k <= j < m ==> places[j] in r && r[places[j]] == Part(j, size)
    decreases m - k
  {
    if k == m then shown else Mapped(shown, places, k, m - 1, size)[places[m - 1] := Part(m - 1, size)]
  }

  /** A partial mapping is extended in place, or replaced; a replaced one is asserted to have no
      cross-over mapping. */
  ghost function Grown(s: State, size: nat, extended: bool, places: seq<Addr>): (r: State)
    requires 0 <= Unreplaced(s, extended) <= |s.mappings| <= Sections(size) == |places| && Distinct(places)
    requires s.current in s.tables
  {
    var n := Unreplaced(s, extended);
    var newMaps := places[n..];
    var mappings := s.mappings[..n] + newMaps;
    var shown := Extended(s, size, extended);
    var s1 := if n == |s.mappings| then s else
      s.(oldMappings := s.oldMappings + [OldMapping(s.youngest, n, s.mappings[n])],
         asserted := s.asserted || n in s.xovers);
    var s2 := s1.(baseline := size, mappings := mappings, shown := Mapped(shown, places, n, |places|, size));
    if n == |s.mappings| && newMaps == [] then s2 else Replaced(s2, mappings)
  }

  const INITIAL := State(0, [], map[], map[], [], map[0 := Table([], None)], 0, 1, 0, map[], false, false)

  ghost predicate Run(states: seq<State>, events: seq<Event>) {
    && |states| == |events| + 1 && states[0] == INITIAL
    && forall i :: 0 <= i < |events| ==>
        Possible(states[i], events[i]) && states[i + 1] == Apply(states[i], events[i])
  }

  // ----- what holds in every run -----

  /** Section `k` is mapped at `a`, now or still. */
  ghost predicate Present(s: State, k: nat, a: Addr) {
    || (k < |s.mappings| && s.mappings[k] == a)
    || exists m :: m in s.oldMappings && m.section == k && m.addr == a
  }

  /** The mapping at `a` shows all that a file of a given size has of section `k`. */
  ghost predicate Long(s: State, k: nat, a: Addr, size: nat) {
    a in s.shown && (SECTION <= s.shown[a] || size <= SECTION * k + s.shown[a])
  }

  ghost predicate Shows(s: State, k: nat, a: Addr, size: nat) {
    Present(s, k, a) && Long(s, k, a, size)
  }

  /** All entries of a table but its last are the current mappings of their sections. */
  ghost predicate TableOk(s: State, t: Table) {
    |t.entries| <= |s.mappings| && forall i :: 0 <= i < |t.entries| - 1 ==> t.entries[i] == s.mappings[i]
  }

  ghost predicate TablesOk(s: State) {
    && s.current in s.tables && s.tables[s.current] == Table(s.mappings, None)
    && (forall t :: t in s.tables ==> t < s.next && TableOk(s, s.tables[t]))
    && (forall t :: t in s.tables && t != s.current ==> s.tables[t].stamp.Some?)
  }

  ghost predicate DistinctMaps(s: State) {
    Distinct(s.mappings) && forall m :: m in s.oldMappings ==> m.addr !in s.mappings
  }

  /** Every mapping shows exactly what there is of its section. */
  ghost predicate AllShown(s: State) {
    forall k :: 0 <= k < |s.mappings| ==> s.mappings[k] in s.shown && s.shown[s.mappings[k]] == Part(k, s.baseline)
  }

  /** A reader's table, as long as it is there, has entries for all of the reader's version. */
  ghost predicate Sized(s: State, r: Reader) {
    && r.size <= s.baseline
    && (r.table.Some? ==> r.table.value < s.next)
    && (r.table.Some? && r.table.value in s.tables ==> Sections(r.size) <= |s.tables[r.table.value].entries|)
  }

  ghost predicate Shape(s: State) {
    && !s.asserted && |s.mappings| == Sections(s.baseline) && TablesOk(s) && DistinctMaps(s) && AllShown(s)
    && (forall k :: k in s.xovers ==> SECTION * (k + 1) < s.baseline)
    && (forall id :: id in s.readers ==> Sized(s, s.readers[id]))
  }

  /** The tables and the mappings stay, and so does their shape. */
  lemma SameTables(s: State, s': State)
    requires Shape(s)
    requires s' == s.(readers := s'.readers, xovers := s'.xovers, youngest := s'.youngest, misused := s'.misused)
    requires forall k :: k in s'.xovers ==> SECTION * (k + 1) < s.baseline
    requires forall id :: id in s'.readers ==> Sized(s, s'.readers[id])
    ensures Shape(s')
  {
    forall t | t in s'.tables ensures TableOk(s', s'.tables[t]) {
      assert TableOk(s, s.tables[t]);
    }
    forall id | id in s'.readers ensures Sized(s', s'.readers[id]) {
      assert Sized(s, s'.readers[id]);
    }
  }

  lemma ReaderShape(s: State, ev: Event)
    requires Shape(s) && Possible(s, ev) && !ev.GrowFile? && !ev.AddSlab? && !ev.Purge?
    ensures Shape(Apply(s, ev))
  {
    hide TablesOk, DistinctMaps, AllShown, Grown, Unmapped, PurgedTo;
    assert s.current in s.tables && s.current < s.next && |s.tables[s.current].entries| == Sections(s.baseline) by {
      CurrentTable(s);
    }
    if ev.LoadTable? {
      MoreSections(s.readers[ev.id].size, s.baseline);
    }
    if ev.TranslateCrossing? {
      CrossedShape(s, ev.id, ev.section, ev.place);
    }
    SameTables(s, Apply(s, ev));
  }

  lemma CurrentTable(s: State)
    requires Shape(s)
    ensures s.current in s.tables && s.current < s.next && |s.tables[s.current].entries| == Sections(s.baseline)
  {
    assert TableOk(s, s.tables[s.current]);
  }

  /** The entry of a section that a node leaves is not the last of its table. */
  lemma CrossedShape(s: State, id: nat, k: nat, place: Addr)
    requires Shape(s) && id in s.readers && SECTION * (k + 1) < s.readers[id].size
    ensures !Crossed(s, id, k, place).asserted
    ensures forall x :: x in Crossed(s, id, k, place).xovers ==> SECTION * (x + 1) < s.baseline
  {
    var r := s.readers[id];
    assert Sized(s, r);
    if HasEntry(s, r, k) {
      assert TableOk(s, s.tables[r.table.value]);
      assert k + 1 < Sections(r.size);
    }
  }

  lemma PurgeShape(s: State, oldest: int)
    requires Shape(s)
    ensures Shape(PurgedTo(s, oldest))
  {
    var s' := PurgedTo(s, oldest);
    forall t | t in s'.tables ensures TableOk(s', s'.tables[t]) {
      assert TableOk(s, s.tables[t]);
    }
    forall id | id in s'.readers ensures Sized(s', s'.readers[id]) {
      assert Sized(s, s.readers[id]);
    }
  }

  lemma ReplacedShape(s: State, s1: State)
    requires Shape(s) && s1.tables == s.tables && s1.current == s.current && s1.next == s.next
    requires s1.readers == s.readers && s1.xovers == s.xovers && !s1.asserted && DistinctMaps(s1) && AllShown(s1)
    requires s.baseline <= s1.baseline && |s1.mappings| == Sections(s1.baseline)
    requires |s.mappings| <= |s1.mappings|
    requires forall i :: 0 <= i < |s.mappings| - 1 ==> s1.mappings[i] == s.mappings[i]
    ensures Shape(Replaced(s1, s1.mappings))
  {
    var s' := Replaced(s1, s1.mappings);
    forall t | t in s'.tables ensures t < s'.next && TableOk(s', s'.tables[t]) {
      if t in s.tables {
        assert TableOk(s, s.tables[t]);
      }
    }
    forall id | id in s'.readers ensures Sized(s', s'.readers[id]) {
      assert Sized(s, s.readers[id]);
    }
  }

  lemma SameTable(s: State, s': State)
    requires Shape(s) && s'.tables == s.tables && s'.current == s.current && s'.next == s.next
    requires s'.readers == s.readers && s'.xovers == s.xovers && !s'.asserted && DistinctMaps(s') && AllShown(s')
    requires s.baseline <= s'.baseline && |s'.mappings| == Sections(s'.baseline) && s'.mappings == s.mappings
    ensures Shape(s')
  {
    hide DistinctMaps, AllShown;
    forall t | t in s'.tables ensures TableOk(s', s'.tables[t]) {
      assert TableOk(s, s.tables[t]);
    }
    forall id | id in s'.readers ensures Sized(s', s'.readers[id]) {
      assert Sized(s, s.readers[id]);
    }
  }

  /** Nothing crosses from a section that is replaced. */
  lemma GrowAsserts(s: State, ev: Event)
    requires Shape(s) && Possible(s, ev) && ev.GrowFile?
    ensures !Apply(s, ev).asserted
  {
    hide TablesOk, DistinctMaps, AllShown, Unmapped, Mapped;
    var n := Unreplaced(s, ev.extended);
    assert n < |s.mappings| ==> n !in s.xovers;
  }

  lemma GrowShape(s: State, ev: Event)
    requires Shape(s) && Possible(s, ev) && ev.GrowFile?
    ensures Shape(Apply(s, ev))
  {
    hide AllShown, DistinctMaps, Mapped, TableOk, Sized, Used, Extended;
    var n := Unreplaced(s, ev.extended);
    var s' := Apply(s, ev);
    GrowAsserts(s, ev);
    MoreSections(s.baseline, ev.size);
    var s1 := s'.(tables := s.tables, current := s.current, next := s.next);
    NewUnmapped(s, ev, n);
    StillDistinct(s, s1, n, ev.places[n..]);
    StillShown(s, ev);
    SameShown(s', s1);
    if n == |s.mappings| == |ev.places| {
      SameTable(s, s');
    } else {
      ReplacedShape(s, s1);
    }
  }

  lemma SameShown(s: State, s': State)
    requires s'.mappings == s.mappings && s'.shown == s.shown && s'.baseline == s.baseline
    requires s'.oldMappings == s.oldMappings
    ensures AllShown(s') == AllShown(s) && DistinctMaps(s') == DistinctMaps(s)
  {
  }

  lemma NewUnmapped(s: State, ev: Event, n: int)
    requires Possible(s, ev) && ev.GrowFile? && 0 <= n <= |ev.places|
    ensures Unmapped(s, ev.places[n..])
  {
    forall a | a in ev.places[n..] ensures !Used(s, a) {
      assert a in ev.places;
    }
  }

  /** How the mappings change: the last may be stamped, and others are added. */
  ghost predicate Remapped(s: State, s1: State, n: int, newMaps: seq<Addr>) {
    && 0 <= n <= |s.mappings| <= n + 1 && s1.mappings == s.mappings[..n] + newMaps
    && s1.oldMappings == if n == |s.mappings| then s.oldMappings
                         else s.oldMappings + [OldMapping(s.youngest, n, s.mappings[n])]
  }

  /** No mapping shows less than before. */
  ghost predicate NotShorter(s: State, s1: State) {
    forall a :: Used(s, a) && a in s.shown ==> a in s1.shown && s.shown[a] <= s1.shown[a]
  }

  /** The mappings of whole sections stay, and that of a partial one that is extended; the others are
      mapped anew. Each shows what there is of its section, and the system extends nothing else. */
  lemma StillShown(s: State, ev: Event)
    requires Shape(s) && Possible(s, ev) && ev.GrowFile?
    ensures var s' := Apply(s, ev);
            && AllShown(s') && NotShorter(s, s')
            && |s'.mappings| == |ev.places|
            && (forall k :: 0 <= k < |s'.mappings| ==>
                  && s'.mappings[k] in s'.shown
                  && (SECTION <= s'.shown[s'.mappings[k]] || ev.size <= SECTION * k + s'.shown[s'.mappings[k]])
                  && s'.mappings[k] == if k < |s.mappings| && (ev.extended || SECTION * (k + 1) <= s.baseline)
                                       then s.mappings[k] else ev.places[k])
            && forall a :: Used(s, a) && a in s.shown && !ev.extended ==> s'.shown[a] == s.shown[a]
  {
    hide TablesOk, DistinctMaps, Grown, Used, Mapped;
    var s' := Apply(s, ev);
    GrownFields(s, ev);
    forall k | 0 <= k < |s'.mappings|
      ensures s'.mappings[k] == if k < |s.mappings| && (ev.extended || SECTION * (k + 1) <= s.baseline)
                                then s.mappings[k] else ev.places[k]
      ensures s'.mappings[k] in s'.shown && s'.shown[s'.mappings[k]] == Part(k, ev.size)
    {
      MappingShown(s, ev, k);
    }
    forall a | Used(s, a) && a in s.shown
      ensures a in s'.shown && s.shown[a] <= s'.shown[a] && (!ev.extended ==> s'.shown[a] == s.shown[a])
    {
      LengthKept(s, ev, a);
    }
  }

  lemma GrownFields(s: State, ev: Event)
    requires Possible(s, ev) && ev.GrowFile?
    ensures var s', n := Apply(s, ev), Unreplaced(s, ev.extended);
            && s'.readers == s.readers && s'.baseline == ev.size && s'.mappings == s.mappings[..n] + ev.places[n..]
            && s'.shown == Mapped(Extended(s, ev.size, ev.extended), ev.places, n, |ev.places|, ev.size)
  {
    hide Mapped;
  }

  lemma MappingShown(s: State, ev: Event, k: int)
    requires Shape(s) && Possible(s, ev) && ev.GrowFile? && 0 <= k < |Apply(s, ev).mappings| == |ev.places|
    ensures var s' := Apply(s, ev);
            && s'.mappings[k] == (if k < |s.mappings| && (ev.extended || SECTION * (k + 1) <= s.baseline)
                                  then s.mappings[k] else ev.places[k])
            && s'.mappings[k] in s'.shown && s'.shown[s'.mappings[k]] == Part(k, ev.size)
  {
    hide TablesOk, Mapped, Grown;
    GrownFields(s, ev);
    if k < Unreplaced(s, ev.extended) {
      assert Used(s, s.mappings[k]);
    }
  }

  lemma LengthKept(s: State, ev: Event, a: Addr)
    requires Shape(s) && Possible(s, ev) && ev.GrowFile? && Used(s, a) && a in s.shown
    ensures var s' := Apply(s, ev);
            a in s'.shown && s.shown[a] <= s'.shown[a] && (!ev.extended ==> s'.shown[a] == s.shown[a])
  {
    hide TablesOk, Used, Mapped, Grown;
    GrownFields(s, ev);
  }

  lemma StillDistinct(s: State, s1: State, n: int, newMaps: seq<Addr>)
    requires DistinctMaps(s) && Unmapped(s, newMaps) && Remapped(s, s1, n, newMaps)
    ensures DistinctMaps(s1)
  {
    forall i, j | 0 <= i < j < |s1.mappings| ensures s1.mappings[i] != s1.mappings[j] {
      if i < n <= j {
        assert s1.mappings[j] == newMaps[j - n] && newMaps[j - n] in newMaps;
        assert Used(s, s1.mappings[i]);
      }
    }
    forall m | m in s1.oldMappings ensures m.addr !in s1.mappings {
      assert m in s.oldMappings || m.addr == s.mappings[n];
      assert Used(s, m.addr);
    }
  }

  lemma ApplyShape(s: State, ev: Event)
    requires Shape(s) && Possible(s, ev)
    ensures Shape(Apply(s, ev))
  {
    match ev {
      case GrowFile(_, _, _) => GrowShape(s, ev);
      case AddSlab => ReplacedShape(s, s);
      case Purge(oldest, youngest) =>
        PurgeShape(s, oldest);
        ReaderShape(PurgedTo(s, oldest), SetYoungest(youngest));
      case _ => ReaderShape(s, ev);
    }
  }

  lemma {:induction false} RunShape(states: seq<State>, events: seq<Event>, i: nat)
    requires Run(states, events) && i < |states|
    ensures Shape(states[i])
  {
    hide Shape, Apply;
    if i == 0 {
      InitialShape();
    } else {
      RunShape(states, events, i - 1);
      ApplyShape(states[i - 1], events[i - 1]);
    }
  }

  lemma InitialShape()
    ensures Shape(INITIAL)
  {
    assert TableOk(INITIAL, Table([], None));
  }

  /** In every run: a mapping that is replaced has no cross-over mapping, and a cross-over mapping is
      made only for the mapping that the table shows. */
  lemma AssertionsHold(states: seq<State>, events: seq<Event>, i: nat)
    requires Run(states, events) && i < |states|
    ensures !states[i].asserted
  {
    RunShape(states, events, i);
  }

  // ----- what a reader relies on -----

  /** A reader has what it was given, and its table with mappings for all of its version. */
  ghost predicate Served(s: State, r: Reader) {
    && (r.table.Some? ==> forall k :: 0 <= k < Sections(r.size) ==>
          HasEntry(s, r, k) && Shows(s, k, s.tables[r.table.value].entries[k], r.size))
    && (r.table.Some? ==> r.table.value in s.tables)
    && (forall k, a :: Primary(k, a) in r.given ==> Shows(s, k, a, r.size))
    && (forall k, a :: Crossing(k, a) in r.given ==> k in s.xovers && s.xovers[k] == a)
  }

  /** Whatever is purged that spares its version, a reader has what it relies on. */
  ghost predicate Lasting(s: State, r: Reader) {
    forall oldest :: oldest <= r.version ==> Served(PurgedTo(s, oldest), r)
  }

  ghost predicate HeldFor(s: State, r: Reader, k: nat, a: Addr) {
    Held(s.mappings, s.oldMappings, r.version, k, a) && Long(s, k, a, r.size)
  }

  /** The same by the stamps. */
  ghost predicate ReaderOk(s: State, r: Reader) {
    && (r.table.Some? ==> r.table.value in s.tables && KeepsTable(s.tables[r.table.value], r.version))
    && (r.table.Some? ==> forall k :: 0 <= k < Sections(r.size) ==>
          HasEntry(s, r, k) && HeldFor(s, r, k, s.tables[r.table.value].entries[k]))
    && (forall k, a :: Primary(k, a) in r.given ==> HeldFor(s, r, k, a))
    && (forall k, a :: Crossing(k, a) in r.given ==> k in s.xovers && s.xovers[k] == a)
  }

  /** What a purge that spares a version leaves is what is held for it. */
  lemma ShowsIff(s: State, r: Reader, k: nat, a: Addr)
    ensures Shows(PurgedTo(s, r.version), k, a, r.size) <==> HeldFor(s, r, k, a)
    ensures forall oldest :: oldest <= r.version && HeldFor(s, r, k, a) ==> Shows(PurgedTo(s, oldest), k, a, r.size)
  {
  }

  lemma OkServed(s: State, r: Reader, oldest: int)
    requires ReaderOk(s, r) && oldest <= r.version
    ensures Served(PurgedTo(s, oldest), r)
  {
    hide Shows, HeldFor;
    var s' := PurgedTo(s, oldest);
    forall k: nat, a | HeldFor(s, r, k, a) ensures Shows(s', k, a, r.size) {
      ShowsIff(s, r, k, a);
    }
    if r.table.Some? {
      assert r.table.value in s'.tables;
      forall k | 0 <= k < Sections(r.size)
        ensures HasEntry(s', r, k) && Shows(s', k, s'.tables[r.table.value].entries[k], r.size)
      {
        assert HasEntry(s, r, k);
      }
    }
  }

  lemma ServedOk(s: State, r: Reader)
    requires Served(PurgedTo(s, r.version), r)
    ensures ReaderOk(s, r)
  {
    hide Shows, HeldFor;
    var s' := PurgedTo(s, r.version);
    forall k: nat, a | Shows(s', k, a, r.size) ensures HeldFor(s, r, k, a) {
      ShowsIff(s, r, k, a);
    }
    if r.table.Some? {
      forall k | 0 <= k < Sections(r.size)
        ensures HasEntry(s, r, k) && HeldFor(s, r, k, s.tables[r.table.value].entries[k])
      {
        assert HasEntry(s', r, k);
      }
    }
  }

  lemma LastingIff(s: State, r: Reader)
    ensures Lasting(s, r) <==> ReaderOk(s, r)
  {
    hide Served, ReaderOk;
    if ReaderOk(s, r) {
      forall oldest | oldest <= r.version ensures Served(PurgedTo(s, oldest), r) {
        OkServed(s, r, oldest);
      }
    }
    if Lasting(s, r) {
      ServedOk(s, r);
    }
  }

  // ----- when a replacement is safe -----

  predicate ReplacesTable(s: State, ev: Event) {
    ev.AddSlab? || (ev.GrowFile? && (Replaces(s, ev.extended) || |s.mappings| < Sections(ev.size)))
  }

  predicate ReplacesMapping(s: State, ev: Event) {
    ev.GrowFile? && Replaces(s, ev.extended) && s.mappings != []
  }

  /** A reader was given an address of the last mapping, or can get one from its table. */
  ghost predicate UsesLast(s: State, r: Reader)
    requires s.mappings != []
  {
    var n := |s.mappings| - 1;
    || Primary(n, s.mappings[n]) in r.given
    || (n < Sections(r.size) && HasEntry(s, r, n) && s.tables[r.table.value].entries[n] == s.mappings[n])
  }

  ghost predicate CoveredReader(s: State, ev: Event, r: Reader) {
    && (ReplacesTable(s, ev) && r.table == Some(s.current) ==> r.version <= s.youngest)
    && (ReplacesMapping(s, ev) && UsesLast(s, r) ==> r.version <= s.youngest)
  }

  /** No reader that relies on what is replaced is of a later version than the stamp. */
  ghost predicate Covered(s: State, ev: Event) {
    forall id :: id in s.readers ==> CoveredReader(s, ev, s.readers[id])
  }

  /** How the tables change: the current one may be stamped, and another one added. */
  ghost predicate Retabled(s: State, s': State, newTable: bool) {
    && s.current in s.tables
    && (forall t :: t in s.tables ==> t in s'.tables && s'.tables[t].entries == s.tables[t].entries)
    && (forall t :: t in s.tables && t != s.current ==> s'.tables[t].stamp == s.tables[t].stamp)
    && s'.tables[s.current].stamp == (if newTable then Some(s.youngest) else None)
  }

  lemma TableReplaced(s: State, s1: State, entries: seq<Addr>)
    requires TablesOk(s) && s1.tables == s.tables && s1.current == s.current && s1.next == s.next
    requires s1.youngest == s.youngest
    ensures Retabled(s, Replaced(s1, entries), true)
  {
  }

  /** How many mappings stay. */
  function Stays(s: State, ev: Event): (n: int) {
    if ReplacesMapping(s, ev) then |s.mappings| - 1 else |s.mappings|
  }

  function NewMaps(s: State, ev: Event): (r: seq<Addr>) {
    if ev.GrowFile? && 0 <= Stays(s, ev) <= |ev.places| then ev.places[Stays(s, ev)..] else []
  }

  lemma Replacing(s: State, ev: Event)
    requires Shape(s) && Possible(s, ev) && (ev.GrowFile? || ev.AddSlab?)
    ensures var s' := Apply(s, ev);
            && s'.xovers == s.xovers && s'.readers == s.readers
            && Retabled(s, s', ReplacesTable(s, ev)) && NotShorter(s, s')
            && Remapped(s, s', Stays(s, ev), NewMaps(s, ev))
  {
    hide Retabled, DistinctMaps, Used, TablesOk, Grown;
    if ev.AddSlab? {
      TableReplaced(s, s, s.mappings);
      assert s.mappings[..|s.mappings|] + [] == s.mappings;
    } else {
      assert Replaces(s, ev.extended) ==> s.mappings != [];
      Growing(s, ev.size, ev.extended, ev.places);
      StillShown(s, ev);
    }
  }

  lemma Growing(s: State, size: nat, extended: bool, places: seq<Addr>)
    requires TablesOk(s) && 0 <= Unreplaced(s, extended) <= |s.mappings| <= Sections(size) == |places|
    requires Distinct(places)
    ensures var n := Unreplaced(s, extended);
            var s' := Grown(s, size, extended, places);
            && s'.xovers == s.xovers && s'.readers == s.readers
            && Retabled(s, s', n < |s.mappings| || |s.mappings| < Sections(size)) && Remapped(s, s', n, places[n..])
  {
    hide Retabled, Mapped;
    var s' := Grown(s, size, extended, places);
    if Unreplaced(s, extended) == |s.mappings| == Sections(size) {
      SameRetabled(s, s');
    } else {
      TableReplaced(s, s'.(tables := s.tables, current := s.current, next := s.next), s'.mappings);
    }
  }

  lemma SameRetabled(s: State, s': State)
    requires TablesOk(s) && s'.tables == s.tables
    ensures Retabled(s, s', false)
  {
  }

  /** An address stays held for a reader unless it is of the replaced mapping and the reader is too late. */
  lemma HeldIff(s: State, s': State, n: int, newMaps: seq<Addr>, r: Reader, k: nat, a: Addr)
    requires DistinctMaps(s) && Unmapped(s, newMaps) && Remapped(s, s', n, newMaps) && NotShorter(s, s')
    requires HeldFor(s, r, k, a)
    ensures HeldFor(s', r, k, a) <==> (k == n < |s.mappings| && a == s.mappings[n] ==> r.version <= s.youngest)
  {
    assert Used(s, a);
    if k == n < |s.mappings| && a == s.mappings[n] {
      var m := OldMapping(s.youngest, n, a);
      assert m in s'.oldMappings;
      assert n < |s'.mappings| ==> s'.mappings[n] == newMaps[0] && newMaps[0] in newMaps;
      assert forall x :: x in s'.oldMappings && x.addr == a ==> x == m;
    } else if k < |s.mappings| && s.mappings[k] == a {
      assert s'.mappings[k] == a;
    } else {
      var m :| m in s.oldMappings && m.section == k && m.addr == a && r.version <= m.version;
      assert m in s'.oldMappings;
    }
  }

  lemma KeptIff(s: State, s': State, n: int, newMaps: seq<Addr>, newTable: bool, r: Reader)
    requires TablesOk(s) && DistinctMaps(s) && Unmapped(s, newMaps) && Remapped(s, s', n, newMaps)
    requires NotShorter(s, s') && s'.xovers == s.xovers && Retabled(s, s', newTable)
    requires ReaderOk(s, r)
    ensures ReaderOk(s', r) <==>
            && (newTable && r.table == Some(s.current) ==> r.version <= s.youngest)
            && (0 <= n < |s.mappings| && UsesLast(s, r) ==> r.version <= s.youngest)
  {
    forall k: nat, a | HeldFor(s, r, k, a)
      ensures HeldFor(s', r, k, a) <==> (k == n < |s.mappings| && a == s.mappings[n] ==> r.version <= s.youngest)
    {
      HeldIff(s, s', n, newMaps, r, k, a);
    }
    hide HeldFor, DistinctMaps, Unmapped, NotShorter;
    if r.table.Some? {
      var t := r.table.value;
      assert KeepsTable(s'.tables[t], r.version) <==>
        (newTable && t == s.current ==> r.version <= s.youngest);
      forall k | 0 <= k < Sections(r.size) ensures HasEntry(s', r, k) <==> HasEntry(s, r, k) {
      }
    }
  }

  lemma ReplacedReaderIff(s: State, ev: Event, r: Reader)
    requires Shape(s) && Possible(s, ev) && (ev.GrowFile? || ev.AddSlab?)
    requires ReaderOk(s, r)
    ensures ReaderOk(Apply(s, ev), r) <==> CoveredReader(s, ev, r)
  {
    hide ReaderOk, UsesLast, Remapped, Retabled, DistinctMaps, TablesOk, Apply, Unmapped, NotShorter, AllShown;
    Replacing(s, ev);
    if ev.GrowFile? {
      NewUnmapped(s, ev, Stays(s, ev));
    } else {
      NoneUnmapped(s);
    }
    KeptIff(s, Apply(s, ev), Stays(s, ev), NewMaps(s, ev), ReplacesTable(s, ev), r);
  }

  lemma NoneUnmapped(s: State)
    ensures Unmapped(s, [])
  {
  }

  /** A replacement leaves every live reader its table and its addresses, under every later purge
      that spares it, if and only if no reader that relies on what is replaced is of a later version
      than the youngest one recorded. */
  lemma SafeIffCovered(s: State, ev: Event)
    requires Shape(s) && Possible(s, ev) && (ev.GrowFile? || ev.AddSlab?)
    requires forall id :: id in s.readers ==> Lasting(s, s.readers[id])
    ensures (forall id :: id in s.readers ==> Lasting(Apply(s, ev), s.readers[id])) <==> Covered(s, ev)
  {
    hide Apply, Lasting, ReaderOk, Shape, Possible, UsesLast, ReplacesTable, ReplacesMapping;
    forall id | id in s.readers
      ensures Lasting(Apply(s, ev), s.readers[id]) <==> CoveredReader(s, ev, s.readers[id])
    {
      LastingIff(s, s.readers[id]);
      LastingIff(Apply(s, ev), s.readers[id]);
      ReplacedReaderIff(s, ev, s.readers[id]);
    }
  }

  // ----- runs -----

  ghost predicate Inv(s: State) {
    Shape(s) && !s.misused && forall id :: id in s.readers ==> ReaderOk(s, s.readers[id])
  }

  /** A reader has nothing to fear where the mappings and the tables stay. */
  lemma SameReader(s: State, s': State, r: Reader)
    requires ReaderOk(s, r) && s'.tables == s.tables && s'.mappings == s.mappings && s'.oldMappings == s.oldMappings
    requires s'.shown == s.shown
    requires forall k :: k in s.xovers ==> k in s'.xovers && s'.xovers[k] == s.xovers[k]
    ensures ReaderOk(s', r)
  {
    hide Held;
    if r.table.Some? {
      forall k | 0 <= k < Sections(r.size)
        ensures HasEntry(s', r, k) && HeldFor(s', r, k, s'.tables[r.table.value].entries[k])
      {
        assert HasEntry(s, r, k) && HeldFor(s, r, k, s.tables[r.table.value].entries[k]);
      }
    }
    forall k: nat, a | Primary(k, a) in r.given ensures HeldFor(s', r, k, a) {
      assert HeldFor(s, r, k, a);
    }
  }

  /** The reader that moves gets what is held for it. */
  lemma MovedReader(s: State, ev: Event)
    requires Inv(s) && Possible(s, ev)
    requires ev.LoadTable? || ev.Translate? || ev.TranslateCrossing?
    ensures var s' := Apply(s, ev); !s'.misused && ev.id in s'.readers && ReaderOk(s, s'.readers[ev.id].(given := {}))
    ensures forall k, a :: Primary(k, a) in Apply(s, ev).readers[ev.id].given ==> HeldFor(s, s.readers[ev.id], k, a)
    ensures var s' := Apply(s, ev);
            forall k, a :: Crossing(k, a) in s'.readers[ev.id].given ==> k in s'.xovers && s'.xovers[k] == a
  {
    hide DistinctMaps, Grown, PurgedTo, Unmapped, TableOk, AllShown, Held;
    var r := s.readers[ev.id];
    assert ReaderOk(s, r) && Sized(s, r);
    match ev {
      case LoadTable(_) => LoadedReader(s, ev.id);
      case Translate(_, k) => assert HasEntry(s, r, k);
      case TranslateCrossing(_, k, place) =>
        assert HasEntry(s, r, k) by {
          assert k < Sections(r.size);
        }
        CrossedShape(s, ev.id, k, place);
    }
  }

  lemma LoadedReader(s: State, id: nat)
    requires Shape(s) && id in s.readers
    ensures ReaderOk(s, s.readers[id].(table := Some(s.current), given := {}))
  {
    hide DistinctMaps, TableOk;
    var r := s.readers[id];
    assert Sized(s, r);
    MoreSections(r.size, s.baseline);
    forall k | 0 <= k < Sections(r.size)
      ensures HeldFor(s, r.(table := Some(s.current), given := {}), k, s.mappings[k])
    {
    }
  }

  lemma MovedOk(s: State, s': State, r: Reader, r': Reader)
    requires s'.tables == s.tables && s'.mappings == s.mappings && s'.oldMappings == s.oldMappings
    requires s'.shown == s.shown && r'.version == r.version && r'.size == r.size && ReaderOk(s, r'.(given := {}))
    requires forall k, a :: Primary(k, a) in r'.given ==> HeldFor(s, r, k, a)
    requires forall k, a :: Crossing(k, a) in r'.given ==> k in s'.xovers && s'.xovers[k] == a
    ensures ReaderOk(s', r')
  {
    hide Held;
    if r'.table.Some? {
      forall k | 0 <= k < Sections(r'.size)
        ensures HasEntry(s', r', k) && HeldFor(s', r', k, s'.tables[r'.table.value].entries[k])
      {
        assert HasEntry(s, r'.(given := {}), k);
        assert HeldFor(s, r'.(given := {}), k, s.tables[r'.table.value].entries[k]);
      }
    }
    forall k: nat, a | Primary(k, a) in r'.given ensures HeldFor(s', r', k, a) {
      assert HeldFor(s, r, k, a);
    }
  }

  lemma ReadersKeep(s: State, ev: Event)
    requires Inv(s) && Possible(s, ev) && !ev.GrowFile? && !ev.AddSlab? && !ev.Purge?
    ensures Inv(Apply(s, ev))
  {
    hide Shape, HeldFor, HasEntry, ReaderOk, Grown, Unmapped, PurgedTo;
    ApplyShape(s, ev);
    var s' := Apply(s, ev);
    if ev.LoadTable? || ev.Translate? || ev.TranslateCrossing? {
      MovedReader(s, ev);
      MovedOk(s, s', s.readers[ev.id], s'.readers[ev.id]);
    } else if ev.BeginRead? {
      NewReader(s', s'.readers[ev.id]);
    }
    forall id | id in s'.readers ensures ReaderOk(s', s'.readers[id]) {
      if id in s.readers && s'.readers[id] == s.readers[id] {
        SameReader(s, s', s.readers[id]);
      }
    }
  }

  lemma NewReader(s: State, r: Reader)
    requires r.table.None? && r.given == {}
    ensures ReaderOk(s, r)
  {
  }

  lemma PurgeKeeps(s: State, oldest: int)
    requires Inv(s) && forall id :: id in s.readers ==> oldest <= s.readers[id].version
    ensures Inv(PurgedTo(s, oldest))
  {
    PurgeShape(s, oldest);
    var s' := PurgedTo(s, oldest);
    forall id | id in s'.readers ensures ReaderOk(s', s'.readers[id]) {
      PurgedReader(s, s.readers[id], oldest);
    }
  }

  lemma PurgedReader(s: State, r: Reader, oldest: int)
    requires ReaderOk(s, r) && oldest <= r.version
    ensures ReaderOk(PurgedTo(s, oldest), r)
  {
    hide HeldFor;
    var s' := PurgedTo(s, oldest);
    forall k: nat, a | HeldFor(s, r, k, a) ensures HeldFor(s', r, k, a) {
      PurgedHeld(s, r, k, a, oldest);
    }
    if r.table.Some? {
      forall k | 0 <= k < Sections(r.size)
        ensures HasEntry(s', r, k) && HeldFor(s', r, k, s'.tables[r.table.value].entries[k])
      {
        assert HasEntry(s, r, k);
      }
    }
  }

  lemma PurgedHeld(s: State, r: Reader, k: nat, a: Addr, oldest: int)
    requires HeldFor(s, r, k, a) && oldest <= r.version
    ensures HeldFor(PurgedTo(s, oldest), r, k, a)
  {
  }

  /** Every step keeps what the readers rely on, if replacements are covered. */
  lemma ApplyKeepsInv(s: State, ev: Event)
    requires Inv(s) && Possible(s, ev) && Covered(s, ev)
    ensures Inv(Apply(s, ev))
  {
    hide Shape, ReaderOk, CoveredReader;
    if ev.GrowFile? || ev.AddSlab? {
      ApplyShape(s, ev);
      forall id | id in s.readers ensures ReaderOk(Apply(s, ev), s.readers[id]) {
        ReplacedReaderIff(s, ev, s.readers[id]);
      }
    } else if ev.Purge? {
      PurgeKeeps(s, ev.oldest);
      ReadersKeep(PurgedTo(s, ev.oldest), SetYoungest(ev.youngest));
    } else {
      ReadersKeep(s, ev);
    }
  }

  lemma {:induction false} RunInv(states: seq<State>, events: seq<Event>, i: nat)
    requires Run(states, events) && i < |states|
    requires forall j :: 0 <= j < i ==> Covered(states[j], events[j])
    ensures Inv(states[i])
  {
    hide Shape, Apply, Covered;
    if i == 0 {
      InitialShape();
    } else {
      RunInv(states, events, i - 1);
      ApplyKeepsInv(states[i - 1], events[i - 1]);
    }
  }

  /** In every run whose replacements are covered: no table is used after it was freed or past its
      end, and every live reader has its table and all addresses it was given, and keeps them under
      every purge that spares it. */
  lemma ReadersSafe(states: seq<State>, events: seq<Event>, i: nat)
    requires Run(states, events) && i < |states|
    requires forall j :: 0 <= j < i ==> Covered(states[j], events[j])
    ensures !states[i].misused
    ensures forall id :: id in states[i].readers ==>
        Served(states[i], states[i].readers[id]) && Lasting(states[i], states[i].readers[id])
  {
    hide Shape, ReaderOk, Served, Lasting, Covered;
    RunInv(states, events, i);
    forall id | id in states[i].readers
      ensures Served(states[i], states[i].readers[id]) && Lasting(states[i], states[i].readers[id])
    {
      LastingIff(states[i], states[i].readers[id]);
      OkNow(states[i], states[i].readers[id]);
    }
  }

  lemma OkNow(s: State, r: Reader)
    requires ReaderOk(s, r)
    ensures Served(s, r)
  {
    forall k: nat, a | HeldFor(s, r, k, a) ensures Shows(s, k, a, r.size) {
    }
  }

  // ----- what a reader asked for -----

  /** A reader stays of its version, and keeps what it was given, until it ends. */
  lemma StepReader(s: State, ev: Event, id: nat)
    requires Possible(s, ev) && id in s.readers && ev != EndRead(id)
    ensures var s' := Apply(s, ev);
            && id in s'.readers && s.readers[id].given <= s'.readers[id].given
            && s'.readers[id].version == s.readers[id].version && s'.readers[id].size == s.readers[id].size
  {
    hide Grown, Unmapped, Mapped, Replaced;
    if ev.GrowFile? {
      GrownFields(s, ev);
    } else if ev.AddSlab? {
      SameReaders(s, s.mappings);
    }
  }

  lemma SameReaders(s: State, entries: seq<Addr>)
    requires s.current in s.tables
    ensures Replaced(s, entries).readers == s.readers
  {
  }

  lemma {:induction false} ReaderStays(states: seq<State>, events: seq<Event>, i: nat, j: nat, id: nat)
    requires Run(states, events) && i <= j < |states| && id in states[i].readers
    requires forall x :: i <= x < j ==> events[x] != EndRead(id)
    ensures id in states[j].readers
    ensures var r, r' := states[i].readers[id], states[j].readers[id];
            r.given <= r'.given && r'.version == r.version && r'.size == r.size
    decreases j
  {
    hide Apply, Possible;
    if i < j {
      ReaderStays(states, events, i, j - 1, id);
      StepReader(states[j - 1], events[j - 1], id);
    }
  }

  /** In every run the live readers are those that began and did not end since. */
  lemma {:induction false} LiveIff(states: seq<State>, events: seq<Event>, i: nat, id: nat)
    requires Run(states, events) && i < |states|
    ensures id in states[i].readers <==> exists b: nat :: Began(events, b, i, id)
  {
    hide Apply, Possible;
    if i > 0 {
      LiveIff(states, events, i - 1, id);
      LiveStep(states[i - 1], events[i - 1], id);
      if events[i - 1].BeginRead? && events[i - 1].id == id {
        assert Began(events, i - 1, i, id);
      }
      if id in states[i].readers && id in states[i - 1].readers {
        var b: nat :| Began(events, b, i - 1, id);
        assert Began(events, b, i, id);
      }
      if exists b: nat :: Began(events, b, i, id) {
        var b: nat :| Began(events, b, i, id);
        assert b < i - 1 ==> Began(events, b, i - 1, id);
      }
    }
  }

  ghost predicate Began(events: seq<Event>, b: nat, i: nat, id: nat)
    requires i <= |events|
  {
    && b < i && events[b].BeginRead? && events[b].id == id
    && forall x :: b < x < i ==> events[x] != EndRead(id)
  }

  lemma LiveStep(s: State, ev: Event, id: nat)
    requires Possible(s, ev)
    ensures id in Apply(s, ev).readers <==>
            (ev.BeginRead? && ev.id == id) || (id in s.readers && ev != EndRead(id))
  {
    hide Grown, Unmapped, Mapped, Replaced;
    if ev.GrowFile? {
      GrownFields(s, ev);
    } else if ev.AddSlab? {
      SameReaders(s, s.mappings);
    }
  }

  /** In every run whose replacements are covered: a reader that began at a version, for a file of
      `size` bytes, and then translated a ref in section `k`, has an address at which all that its
      version has of section `k` is mapped, until it ends and whatever is purged that spares it. */
  lemma TranslatedStays(states: seq<State>, events: seq<Event>, b: nat, j: nat, i: nat, id: nat, version: int,
                        size: nat, k: nat)
    requires Run(states, events) && b < j < i < |states|
    requires events[b] == BeginRead(id, version, size) && events[j] == Translate(id, k)
    requires forall x :: b < x < i ==> events[x] != EndRead(id)
    requires forall x :: 0 <= x < i ==> Covered(states[x], events[x])
    ensures id in states[i].readers
    ensures exists a :: Primary(k, a) in states[i].readers[id].given && Shows(states[i], k, a, size) &&
                        forall oldest :: oldest <= version ==> Shows(PurgedTo(states[i], oldest), k, a, size)
  {
    ReaderStays(states, events, b + 1, j, id);
    RunInv(states, events, j + 1);
    assert !states[j + 1].misused;
    var r := states[j].readers[id];
    var a := states[j].tables[r.table.value].entries[k];
    hide Apply, Possible, Covered, Lasting, Shows;
    ReaderStays(states, events, j + 1, i, id);
    ReadersSafe(states, events, i);
    var r' := states[i].readers[id];
    assert Primary(k, a) in r'.given;
    assert Lasting(states[i], r') && Served(states[i], r');
    forall oldest | oldest <= version ensures Shows(PurgedTo(states[i], oldest), k, a, size) {
      LastingShows(states[i], r', oldest, k, a);
    }
  }

  lemma LastingShows(s: State, r: Reader, oldest: int, k: nat, a: Addr)
    requires Lasting(s, r) && oldest <= r.version && Primary(k, a) in r.given
    ensures Shows(PurgedTo(s, oldest), k, a, r.size)
  {
    assert Served(PurgedTo(s, oldest), r);
  }

  // ----- a reader that loses what it uses -----

  /** A reader of version 10, which another process committed. */
  const LATE_READER := Reader(10, 100, Some(1), {Primary(0, 1000)})

  const MAPPED :=
    State(100, [1000], map[1000 := 100], map[], [], map[0 := Table([], Some(5)), 1 := Table([1000], None)], 1, 2, 5,
          map[], false, false)

  const REPLACED :=
    State(200, [2000], map[1000 := 100, 2000 := 200], map[], [OldMapping(5, 0, 1000)],
          map[0 := Table([], Some(5)), 1 := Table([1000], Some(5)), 2 := Table([2000], None)], 2, 3, 5,
          map[7 := LATE_READER], false, false)

  const LOST := State(200, [2000], map[1000 := 100, 2000 := 200], map[], [], map[2 := Table([2000], None)], 2, 3, 12,
                      map[7 := LATE_READER], false, false)

  lemma FirstMapping()
    ensures var s := INITIAL.(youngest := 5);
            var ev := GrowFile(100, false, [1000]);
            Possible(s, ev) && Apply(s, ev) == MAPPED
  {
    var s := INITIAL.(youngest := 5);
    assert Sections(0) == 0 && Sections(100) == 1;
    assert Unreplaced(s, false) == 0;
    assert Unmapped(s, [1000]);
    FirstGrown();
  }

  lemma FirstGrown()
    ensures Grown(INITIAL.(youngest := 5), 100, false, [1000]) == MAPPED
  {
    var s := INITIAL.(youngest := 5);
    assert s.mappings[..0] + [1000] == [1000];
    assert Replaced(s.(baseline := 100, mappings := [1000]), [1000]).tables == MAPPED.tables;
  }

  lemma MappingReplaced()
    ensures var s := SetReader(MAPPED, 7, LATE_READER);
            var ev := GrowFile(200, false, [2000]);
            Possible(s, ev) && Apply(s, ev) == REPLACED && !Covered(s, ev)
  {
    var s := SetReader(MAPPED, 7, LATE_READER);
    var ev := GrowFile(200, false, [2000]);
    assert Sections(100) == 1 && Unreplaced(s, false) == 0;
    assert Unmapped(s, [2000]);
    LastGrown();
    assert !CoveredReader(s, ev, s.readers[7]);
  }

  lemma OneMapped(shown: map<Addr, int>, a: Addr, size: nat)
    requires size < SECTION
    ensures Mapped(shown, [a], 0, 1, size) == shown[a := size]
  {
  }

  lemma LastGrown()
    ensures var s := SetReader(MAPPED, 7, LATE_READER); Unreplaced(s, false) == 0
    ensures Grown(SetReader(MAPPED, 7, LATE_READER), 200, false, [2000]) == REPLACED
  {
    hide Mapped;
    var s := SetReader(MAPPED, 7, LATE_READER);
    assert s.mappings[..0] + [2000] == [2000];
    OneMapped(s.shown, 2000, 200);
    assert Grown(s, 200, false, [2000]).tables == REPLACED.tables;
  }

  lemma MappingPurged()
    ensures Possible(REPLACED, Purge(10, 12)) && Apply(REPLACED, Purge(10, 12)) == LOST
  {
    assert PurgedTo(REPLACED, 10).tables == LOST.tables;
  }

  lemma AddressGiven()
    ensures var s1 := SetReader(MAPPED, 7, Reader(10, 100, None, {}));
            var s2 := SetReader(MAPPED, 7, Reader(10, 100, Some(1), {}));
            && Possible(MAPPED, BeginRead(7, 10, 100)) && Apply(MAPPED, BeginRead(7, 10, 100)) == s1
            && Possible(s1, LoadTable(7)) && Apply(s1, LoadTable(7)) == s2
            && Possible(s2, Translate(7, 0)) && Apply(s2, Translate(7, 0)) == SetReader(MAPPED, 7, LATE_READER)
  {
    assert Sections(100) == 1;
    assert {} + {Primary(0, 1000)} == {Primary(0, 1000)};
  }

  /** Without the condition a reader can lose what it uses. The database is opened at version 5; a
      reader of version 10 is given an address; the file grows, and its mapping and its table are
      replaced, stamped 5; and a purge that spares version 10 drops both. */
  lemma LateReaderLoses()
    ensures Run([INITIAL, INITIAL.(youngest := 5), MAPPED, SetReader(MAPPED, 7, Reader(10, 100, None, {})),
                 SetReader(MAPPED, 7, Reader(10, 100, Some(1), {})), SetReader(MAPPED, 7, LATE_READER),
                 REPLACED, LOST],
                [SetYoungest(5), GrowFile(100, false, [1000]), BeginRead(7, 10, 100), LoadTable(7),
                 Translate(7, 0), GrowFile(200, false, [2000]), Purge(10, 12)])
    ensures LOST.readers[7].table == Some(1) && 1 !in LOST.tables
    ensures Primary(0, 1000) in LOST.readers[7].given && !Present(LOST, 0, 1000)
  {
    hide Apply, Possible;
    FirstMapping();
    AddressGiven();
    MappingReplaced();
    MappingPurged();
    Opened();
  }

  lemma Opened()
    ensures Possible(INITIAL, SetYoungest(5)) && Apply(INITIAL, SetYoungest(5)) == INITIAL.(youngest := 5)
  {
  }
}
