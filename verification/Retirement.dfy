/** Retiring old file mappings and old translation tables.

    A mapping or a translation table that is replaced while transactions are
    live is kept, stamped with the youngest live version known at that time, and
    dropped by a purge once the oldest live version has passed the stamp.

    `Retained` is the invariant: whatever a retained table points to in the file
    is still mapped, by a current mapping or by a retained one that will not be
    purged before the table.
 */
module Retirement {
  import opened FreeRings

  datatype OldMapping = OldMapping(version: int, section: int, addr: Addr)
  /** The first `count` entries translate refs in the file; the rest is slab space. */
  datatype OldTable = OldTable(version: int, count: int, entries: seq<Addr>)

  /** Section `i` of the file is mapped at `addr`, and no purge with an oldest live version up to
      `version` unmaps it. */
  ghost predicate Held(mappings: seq<Addr>, oldMappings: seq<OldMapping>, version: int, i: int, addr: Addr) {
    || (0 <= i < |mappings| && mappings[i] == addr)
    || exists m :: m in oldMappings && m.section == i && m.addr == addr && version <= m.version
  }

  ghost predicate TableHeld(mappings: seq<Addr>, oldMappings: seq<OldMapping>, t: OldTable) {
    && 0 <= t.count <= |t.entries|
    && forall i :: 0 <= i < t.count ==> Held(mappings, oldMappings, t.version, i, t.entries[i])
  }

  ghost predicate Retained(mappings: seq<Addr>, oldMappings: seq<OldMapping>, oldTables: seq<OldTable>, youngest: int) {
    forall t :: t in oldTables ==> t.version <= youngest && TableHeld(mappings, oldMappings, t)
  }

  /** A reader at `version` may be translating file refs with `view`: the current mappings,
      or the file part of a table retired at or after its version. */
  ghost predicate Visible(mappings: seq<Addr>, oldTables: seq<OldTable>, version: int, view: seq<Addr>) {
    view == mappings ||
    exists t :: t in oldTables && version <= t.version && 0 <= t.count <= |t.entries| && t.entries[..t.count] == view
  }

  /** Nothing a reader may be using has been unmapped. */
  lemma ReaderSafe(mappings: seq<Addr>, oldMappings: seq<OldMapping>, oldTables: seq<OldTable>, youngest: int,
                   version: int, view: seq<Addr>, i: nat)
    requires Retained(mappings, oldMappings, oldTables, youngest)
    requires Visible(mappings, oldTables, version, view) && i < |view|
    ensures Held(mappings, oldMappings, version, i, view[i])
  {
    if view != mappings {
      var t :| t in oldTables && version <= t.version && 0 <= t.count <= |t.entries| && t.entries[..t.count] == view;
      assert TableHeld(mappings, oldMappings, t);
      assert view[i] == t.entries[i];
    }
  }

  // ----- the last mapping is replaced -----

  lemma MappingReplaced(mappings: seq<Addr>, oldMappings: seq<OldMapping>, oldTables: seq<OldTable>, youngest: int,
      more: seq<Addr>)
    requires Retained(mappings, oldMappings, oldTables, youngest) && mappings != []
    ensures var n := |mappings| - 1;
            Retained(mappings[..n] + more, oldMappings + [OldMapping(youngest, n, mappings[n])], oldTables, youngest)
    ensures var n := |mappings| - 1;
            var old' := oldMappings + [OldMapping(youngest, n, mappings[n])];
            forall i :: 0 <= i <= n ==> Held(mappings[..n] + more, old', youngest, i, mappings[i])
  {
    var n := |mappings| - 1;
    var mappings', old' := mappings[..n] + more, oldMappings + [OldMapping(youngest, n, mappings[n])];
    assert OldMapping(youngest, n, mappings[n]) in old';
    forall t | t in oldTables ensures TableHeld(mappings', old', t) {
      assert TableHeld(mappings, oldMappings, t);
      forall i | 0 <= i < t.count ensures Held(mappings', old', t.version, i, t.entries[i]) {
        assert Held(mappings, oldMappings, t.version, i, t.entries[i]);
      }
    }
  }

  lemma MappingsAdded(mappings: seq<Addr>, oldMappings: seq<OldMapping>, oldTables: seq<OldTable>, youngest: int,
      more: seq<Addr>)
    requires Retained(mappings, oldMappings, oldTables, youngest)
    ensures Retained(mappings + more, oldMappings, oldTables, youngest)
    ensures forall i :: 0 <= i < |mappings| ==> Held(mappings + more, oldMappings, youngest, i, mappings[i])
  {
    forall t | t in oldTables ensures TableHeld(mappings + more, oldMappings, t) {
      assert TableHeld(mappings, oldMappings, t);
      forall i | 0 <= i < t.count ensures Held(mappings + more, oldMappings, t.version, i, t.entries[i]) {
        assert Held(mappings, oldMappings, t.version, i, t.entries[i]);
      }
    }
  }

  // ----- the table is replaced -----

  lemma TableRetired(mappings: seq<Addr>, oldMappings: seq<OldMapping>, oldTables: seq<OldTable>, youngest: int,
      t: OldTable)
    requires Retained(mappings, oldMappings, oldTables, youngest)
    requires t.version == youngest && TableHeld(mappings, oldMappings, t)
    ensures Retained(mappings, oldMappings, oldTables + [t], youngest)
  {
  }

  /** A reader keeps its view when the current mappings change, if the table that showed them is kept. */
  lemma StillVisible(mappings: seq<Addr>, oldTables: seq<OldTable>, mappings': seq<Addr>, oldTables': seq<OldTable>,
                     youngest: int, retired: OldTable)
    requires oldTables <= oldTables' && retired.version == youngest
    requires mappings' == mappings || mappings == [] ||
             (retired in oldTables' && 0 <= retired.count <= |retired.entries| &&
                 retired.entries[..retired.count] == mappings)
    ensures forall version, view :: version <= youngest && view != [] && Visible(mappings, oldTables, version, view)
              ==> Visible(mappings', oldTables', version, view)
  {
    forall version, view | version <= youngest && view != [] && Visible(mappings, oldTables, version, view)
      ensures Visible(mappings', oldTables', version, view)
    {
      if view != mappings {
        var t :| t in oldTables && version <= t.version && 0 <= t.count <= |t.entries| && t.entries[..t.count] == view;
        assert t in oldTables';
      }
    }
  }

  // ----- purging -----

  function KeptMappings(oldMappings: seq<OldMapping>, oldest: int): (r: seq<OldMapping>)
    ensures forall m :: m in r <==> m in oldMappings && oldest <= m.version
  {
    if oldMappings == [] then []
    else
      var rest := KeptMappings(oldMappings[1..], oldest);
      assert oldMappings == [oldMappings[0]] + oldMappings[1..];
      if oldMappings[0].version < oldest then rest else [oldMappings[0]] + rest
  }

  function KeptTables(oldTables: seq<OldTable>, oldest: int): (r: seq<OldTable>)
    ensures forall t :: t in r <==> t in oldTables && oldest <= t.version
  {
    if oldTables == [] then []
    else
      var rest := KeptTables(oldTables[1..], oldest);
      assert oldTables == [oldTables[0]] + oldTables[1..];
      if oldTables[0].version < oldest then rest else [oldTables[0]] + rest
  }

  /** No table that a purge keeps is stamped later than the new youngest version. */
  ghost predicate NotYounger(oldTables: seq<OldTable>, oldest: int, youngest: int) {
    forall t :: t in oldTables && oldest <= t.version ==> t.version <= youngest
  }

  /** A purge keeps what the retained tables need, and keeps every table a reader at or above
      the oldest live version may be using. */
  lemma Purged(mappings: seq<Addr>, oldMappings: seq<OldMapping>, oldTables: seq<OldTable>, youngest: int, oldest: int,
      youngest': int)
    requires Retained(mappings, oldMappings, oldTables, youngest)
    ensures Retained(mappings, KeptMappings(oldMappings, oldest), KeptTables(oldTables, oldest), youngest') <==>
            NotYounger(oldTables, oldest, youngest')
    ensures youngest <= youngest' ==> NotYounger(oldTables, oldest, youngest')
    ensures forall t :: t in KeptTables(oldTables, oldest) ==> TableHeld(mappings, KeptMappings(oldMappings, oldest), t)
    ensures forall t :: t in oldTables ==> TableHeld(mappings, oldMappings, t)
    ensures forall version, view :: oldest <= version && Visible(mappings, oldTables, version, view)
              ==> Visible(mappings, KeptTables(oldTables, oldest), version, view)
  {
    var kept := KeptMappings(oldMappings, oldest);
    forall t | t in KeptTables(oldTables, oldest) ensures TableHeld(mappings, kept, t) {
      assert TableHeld(mappings, oldMappings, t);
      forall i | 0 <= i < t.count ensures Held(mappings, kept, t.version, i, t.entries[i]) {
        assert Held(mappings, oldMappings, t.version, i, t.entries[i]);
      }
    }
    forall version, view | oldest <= version && Visible(mappings, oldTables, version, view)
      ensures Visible(mappings, KeptTables(oldTables, oldest), version, view)
    {
      if view != mappings {
        var t :| t in oldTables && version <= t.version && 0 <= t.count <= |t.entries| && t.entries[..t.count] == view;
        assert t in KeptTables(oldTables, oldest);
      }
    }
  }

  /** Every table was replaced before the youngest version; a version 0 stands for none. */
  ghost predicate AllOlder(oldTables: seq<OldTable>, youngest: int) {
    youngest == 0 || forall t :: t in oldTables ==> t.version < youngest
  }

  lemma HeldSomewhere(mappings: seq<Addr>, oldMappings: seq<OldMapping>, version: int, i: int, addr: Addr)
    requires Held(mappings, oldMappings, version, i, addr)
    ensures addr in mappings || addr in set m | m in oldMappings :: m.addr
  {
  }

  // ----- when the youngest version decreases -----

  datatype Store = Store(mappings: seq<Addr>, oldMappings: seq<OldMapping>, oldTables: seq<OldTable>)

  ghost predicate AllHeld(st: Store) {
    forall t :: t in st.oldTables ==> TableHeld(st.mappings, st.oldMappings, t)
  }

  /** The last mapping is replaced while `youngest` is the youngest version. */
  function Replace(st: Store, youngest: int, more: seq<Addr>): (r: Store)
    requires st.mappings != []
  {
    var n := |st.mappings| - 1;
    st.(mappings := st.mappings[..n] + more, oldMappings := st.oldMappings + [OldMapping(youngest, n, st.mappings[n])])
  }

  function Purge(st: Store, oldest: int): (r: Store) {
    st.(oldMappings := KeptMappings(st.oldMappings, oldest), oldTables := KeptTables(st.oldTables, oldest))
  }

  /** A retained table points to the last mapping, which nothing else holds for it. */
  ghost predicate NeedsLast(st: Store, t: OldTable)
    requires st.mappings != []
  {
    var n := |st.mappings| - 1;
    && t in st.oldTables && n < t.count <= |t.entries| && t.entries[n] == st.mappings[n]
    && !Held(st.mappings[..n], st.oldMappings, t.version, n, st.mappings[n])
  }

  /** Whatever is mapped instead and whichever versions end, a replaced mapping stays for the
      retained tables. */
  ghost predicate SafeToReplace(st: Store, youngest: int)
    requires st.mappings != []
  {
    forall more, oldest :: AllHeld(Purge(Replace(st, youngest, more), oldest))
  }

  /** Replacing the last mapping is safe exactly when no table that needs it is stamped with a
      later version than the mapping will be. */
  lemma SafeToReplaceIff(st: Store, youngest: int)
    requires AllHeld(st) && st.mappings != []
    ensures SafeToReplace(st, youngest) <==> forall t :: NeedsLast(st, t) ==> t.version <= youngest
  {
    if forall t :: NeedsLast(st, t) ==> t.version <= youngest {
      forall more, oldest ensures AllHeld(Purge(Replace(st, youngest, more), oldest)) {
        forall t | t in KeptTables(st.oldTables, oldest)
          ensures TableHeld(Replace(st, youngest, more).mappings,
                  Purge(Replace(st, youngest, more), oldest).oldMappings, t)
        {
          StillHeld(st, youngest, more, oldest, t);
        }
      }
    }
    if exists t :: NeedsLast(st, t) && youngest < t.version {
      var t :| NeedsLast(st, t) && youngest < t.version;
      LastLost(st, youngest, t);
      assert !AllHeld(Purge(Replace(st, youngest, []), t.version));
    }
  }

  lemma StillHeld(st: Store, youngest: int, more: seq<Addr>, oldest: int, t: OldTable)
    requires AllHeld(st) && st.mappings != [] && t in st.oldTables && oldest <= t.version
    requires NeedsLast(st, t) ==> t.version <= youngest
    ensures var st' := Purge(Replace(st, youngest, more), oldest);
            TableHeld(st'.mappings, st'.oldMappings, t)
  {
    var n := |st.mappings| - 1;
    var last := st.mappings[n];
    var st' := Purge(Replace(st, youngest, more), oldest);
    assert TableHeld(st.mappings, st.oldMappings, t);
    forall i | 0 <= i < t.count ensures Held(st'.mappings, st'.oldMappings, t.version, i, t.entries[i]) {
      assert Held(st.mappings, st.oldMappings, t.version, i, t.entries[i]);
      if !Held(st.mappings[..n], st.oldMappings, t.version, i, t.entries[i]) {
        assert i == n && NeedsLast(st, t);
        assert OldMapping(youngest, n, last) in st'.oldMappings;
      }
    }
  }

  lemma LastLost(st: Store, youngest: int, t: OldTable)
    requires st.mappings != [] && NeedsLast(st, t) && youngest < t.version
    ensures var st' := Purge(Replace(st, youngest, []), t.version);
            t in st'.oldTables && !TableHeld(st'.mappings, st'.oldMappings, t)
  {
    var n := |st.mappings| - 1;
    var st' := Purge(Replace(st, youngest, []), t.version);
    assert st'.mappings == st.mappings[..n];
    assert !Held(st'.mappings, st'.oldMappings, t.version, n, t.entries[n]);
  }

  /** The youngest version must not decrease between calls.  A table stamped 5 is kept by a purge
      that passes 3 as the youngest version; the mapping it points to is then replaced, stamped 3;
      and a purge up to version 4 keeps the table and unmaps what it points to. */
  lemma DecreasingYoungestBreaks()
    ensures var table := OldTable(5, 1, [100]);
            var st0 := Store([100], [], [table]);
            var st1 := Purge(st0, 3);
            var st3 := Purge(Replace(st1, 3, [200]), 4);
            && Retained(st0.mappings, st0.oldMappings, st0.oldTables, 5)
            && AllHeld(st1) && !Retained(st1.mappings, st1.oldMappings, st1.oldTables, 3)
            && table in st3.oldTables && !TableHeld(st3.mappings, st3.oldMappings, table)
  {
    var table := OldTable(5, 1, [100]);
    var st1 := Purge(Store([100], [], [table]), 3);
    var st3 := Purge(Replace(st1, 3, [200]), 4);
    assert Held([100], [], 5, 0, table.entries[0]);
    assert st1.mappings[..0] == [] && st3.mappings == [200];
    assert !Held(st3.mappings, st3.oldMappings, 5, 0, table.entries[0]);
  }
}
