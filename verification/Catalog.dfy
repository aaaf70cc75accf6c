/**
 Table catalogs: session-local tables and views over a shared persistent catalog that is published by
 generation, and pinned copies that one query reads throughout.
 */
module Catalog {
  import opened Common

  function Normalize(name: string): string {
    seq(|name|, i requires 0 <= i < |name| => LowerChar(name[i]))
  }

  /** Two names are one to the catalog if and only if they agree up to the case of ASCII letters. */
  lemma NormalizeExact(a: string, b: string)
    ensures Normalize(a) == Normalize(b) <==> |a| == |b| && forall k :: 0 <= k < |a| ==> SameLetter(a[k], b[k])
  {
    hide LowerChar, SameLetter;
    if Normalize(a) == Normalize(b) {
      assert |a| == |Normalize(a)| == |Normalize(b)| == |b|;
      forall k | 0 <= k < |a| ensures SameLetter(a[k], b[k]) {
        assert Normalize(a)[k] == LowerChar(a[k]) && Normalize(b)[k] == LowerChar(b[k]);
        LowerCharExact(a[k], b[k]);
      }
    } else if |a| == |b| {
      var k :| 0 <= k < |a| && Normalize(a)[k] != Normalize(b)[k];
      LowerCharExact(a[k], b[k]);
    }
  }

  datatype TableEntry<P> = TableEntry(name: string, provider: P)

  type Tables<P> = map<string, TableEntry<P>>

  datatype CatalogError =
    | GenerationOverflow | DuplicateTable | GenerationChanged
    | MissingTable | ProviderChanged | NameIsTable | ViewExists

  // ---------------------------------------------------------------- snapshots

  datatype Snapshot<P> = Snapshot(generation: nat, tables: Tables<P>)

  /** Every table is stored under the normal form of its own name. */
  ghost predicate WellKeyed<P>(tables: Tables<P>) {
    forall k :: k in tables ==> Normalize(tables[k].name) == k
  }

  ghost predicate NoDuplicates<P>(entries: seq<TableEntry<P>>) {
    forall i, j :: 0 <= i < j < |entries| ==> Normalize(entries[i].name) != Normalize(entries[j].name)
  }

  ghost predicate Holds<P>(tables: Tables<P>, entries: seq<TableEntry<P>>) {
    && WellKeyed(tables)
    && (forall k :: k in tables ==> tables[k] in entries)
    && (forall e :: e in entries ==> Normalize(e.name) in tables && tables[Normalize(e.name)] == e)
  }

  /** A snapshot holds exactly the given entries; two with one normal form are refused. */
  method NewSnapshot<P>(generation: nat, entries: seq<TableEntry<P>>) returns (r: Result<Snapshot<P>, CatalogError>)
    ensures r.Ok? <==> NoDuplicates(entries)
    ensures r.Ok? ==> r.value.generation == generation && Holds(r.value.tables, entries)
    ensures r.Err? ==> r.error == DuplicateTable
  {
    hide Normalize;
    var tables: Tables<P> := map[];
    for n := 0 to |entries|
      invariant NoDuplicates(entries[..n]) && Holds(tables, entries[..n])
    {
      var key := Normalize(entries[n].name);
      if key in tables { return Err(DuplicateTable); }
      tables := tables[key := entries[n]];
      assert entries[..n + 1] == entries[..n] + [entries[n]];
    }
    assert entries[..|entries|] == entries;
    return Ok(Snapshot(generation, tables));
  }

  // ---------------------------------------------------------------- the persistent catalog

  class PersistentCatalog<P> {
    var current: Snapshot<P>

    ghost predicate Valid()
      reads this
    {
      current.generation <= U64_MAX && WellKeyed(current.tables)
    }

    constructor ()
      ensures Valid() && current == Snapshot(0, map[])
    {
      current := Snapshot(0, map[]);
    }

    /** Publishes the next generation exactly when the expected one is current; a refusal changes nothing. */
    method Publish(expected: nat, entries: seq<TableEntry<P>>) returns (r: Result<nat, CatalogError>)
      requires Valid() && expected <= U64_MAX
      modifies this
      ensures Valid()
      ensures r.Ok? <==> expected == old(current.generation) < U64_MAX && NoDuplicates(entries)
      ensures r.Ok? ==> r.value == current.generation == expected + 1 && Holds(current.tables, entries)
      ensures r.Err? ==> current == old(current)
      ensures r == Err(GenerationOverflow) <==> expected == U64_MAX
      ensures r == Err(GenerationChanged) <==>
                expected < U64_MAX && NoDuplicates(entries) && expected != old(current.generation)
    {
      if expected == U64_MAX { return Err(GenerationOverflow); }
      var next := NewSnapshot(expected + 1, entries);
      if next.Err? { return Err(next.error); }
      if current.generation != expected { return Err(GenerationChanged); }
      current := next.value;
      return Ok(expected + 1);
    }

    /** Replaces the tables of the expected generation in place. */
    method Replace(expected: nat, entries: seq<TableEntry<P>>) returns (r: Result<(), CatalogError>)
      requires Valid() && expected <= U64_MAX
      modifies this
      ensures Valid() && current.generation == old(current.generation)
      ensures r.Ok? <==> expected == old(current.generation) && NoDuplicates(entries)
      ensures r.Ok? ==> Holds(current.tables, entries)
      ensures r.Err? ==> current == old(current)
    {
      var next := NewSnapshot(expected, entries);
      if next.Err? { return Err(next.error); }
      if current.generation != expected { return Err(GenerationChanged); }
      current := next.value;
      return Ok(());
    }
  }

  // ---------------------------------------------------------------- sessions

  class LocalState<P> {
    var tables: Tables<P>
    var views: map<string, string>
    var hidden: set<string>

    constructor (tables: Tables<P>, views: map<string, string>, hidden: set<string>)
      ensures this.tables == tables && this.views == views && this.hidden == hidden
    {
      this.tables := tables;
      this.views := views;
      this.hidden := hidden;
    }
  }

  /** What a name means: the local table, else the persistent one unless it is hidden. */
  function Lookup<P>(tables: Tables<P>, hidden: set<string>, persistent: Option<Snapshot<P>>, name: string)
    : Option<TableEntry<P>>
  {
    var key := Normalize(name);
    if key in tables then Some(tables[key])
    else if key in hidden || persistent.None? || key !in persistent.value.tables then None
    else Some(persistent.value.tables[key])
  }

  /** A published table is found under its name wherever the session has neither a table nor hides it. */
  lemma PublishedIsFound<P>(tables: Tables<P>, hidden: set<string>, snapshot: Snapshot<P>,
                            entries: seq<TableEntry<P>>, entry: TableEntry<P>)
    requires Holds(snapshot.tables, entries) && entry in entries
    ensures Lookup(tables, hidden, Some(snapshot), entry.name) ==
            if Normalize(entry.name) in tables then Some(tables[Normalize(entry.name)])
            else if Normalize(entry.name) in hidden then None
            else Some(entry)
  {
  }

  class Session<P(==)> {
    const local: LocalState<P>
    const persistent: PersistentCatalog?<P>
    const pinned: Option<Snapshot<P>>

    /** The objects a lookup depends on: a pinned session depends on its own copy alone. */
    ghost function Footprint(): set<object> {
      {local} + if pinned.None? && persistent != null then {persistent} else {}
    }

    function Visible(): Option<Snapshot<P>>
      reads Footprint()
    {
      if pinned.Some? then pinned else if persistent != null then Some(persistent.current) else None
    }

    ghost predicate Valid()
      reads Footprint()
    {
      && WellKeyed(local.tables) && local.views.Keys <= local.tables.Keys
      && (Visible().Some? ==> WellKeyed(Visible().value.tables))
    }

    function Table(name: string): (r: Option<TableEntry<P>>)
      requires Valid()
      reads Footprint()
      ensures r.Some? ==> Normalize(r.value.name) == Normalize(name)
    {
      Lookup(local.tables, local.hidden, Visible(), name)
    }

    constructor (local: LocalState<P>, persistent: PersistentCatalog?<P>, pinned: Option<Snapshot<P>>)
      ensures this.local == local && this.persistent == persistent && this.pinned == pinned
    {
      this.local := local;
      this.persistent := persistent;
      this.pinned := pinned;
    }

    /** The first half of pinning: the local state is copied under its own lock, which is then released. */
    method CopyLocal() returns (own: LocalState<P>)
      ensures fresh(own)
      ensures own.tables == local.tables && own.views == local.views && own.hidden == local.hidden
    {
      own := new LocalState(local.tables, local.views, local.hidden);
    }

    /**
     The second half: the persistent snapshot is read, which may be later.  The pinned session answers
     from the copied local state and this snapshot, and depends on no shared object.
     */
    method PinSnapshot(own: LocalState<P>) returns (copy: Session<P>)
      requires Valid() && WellKeyed(own.tables) && own.views.Keys <= own.tables.Keys
      ensures fresh(copy) && copy.local == own && copy.Footprint() == {own} && copy.Valid()
      ensures forall name :: copy.Table(name) == Lookup(own.tables, own.hidden, Visible(), name)
    {
      copy := new Session(own, persistent, Visible());
    }

    /** The name now means the new table; whatever hid or defined it before is gone. */
    method Register(entry: TableEntry<P>)
      requires Valid()
      modifies local
      ensures Valid()
      ensures var key := Normalize(entry.name);
              && local.views == old(local.views) - {key} && local.hidden == old(local.hidden) - {key}
              && forall name :: Table(name) == if Normalize(name) == key then Some(entry) else old(Table(name))
    {
      var key := Normalize(entry.name);
      local.tables := local.tables[key := entry];
      local.views := local.views - {key};
      local.hidden := local.hidden - {key};
    }

    /** Removes the local meaning; a persistent table of the name shows again unless it is hidden. */
    method Unregister(name: string) returns (r: Option<TableEntry<P>>)
      requires Valid()
      modifies local
      ensures Valid()
      ensures var key := Normalize(name);
              && r == (if key in old(local.tables) then Some(old(local.tables)[key]) else None)
              && local.views == old(local.views) - {key} && local.hidden == old(local.hidden)
              && (forall other :: Normalize(other) != key ==> Table(other) == old(Table(other)))
              && Table(name) == Lookup(map[], local.hidden, Visible(), name)
    {
      var key := Normalize(name);
      r := if key in local.tables then Some(local.tables[key]) else None;
      local.tables := local.tables - {key};
      local.views := local.views - {key};
    }

    /** The name means nothing until it is registered again, whatever is published. */
    method HidePersistent(name: string)
      requires Valid()
      modifies local
      ensures Valid()
      ensures var key := Normalize(name);
              && local.views == old(local.views) - {key} && local.hidden == old(local.hidden) + {key}
              && (forall other :: Table(other) == if Normalize(other) == key then None else old(Table(other)))
    {
      var key := Normalize(name);
      local.tables := local.tables - {key};
      local.views := local.views - {key};
      local.hidden := local.hidden + {key};
    }

    /** Swaps the provider of a local table exactly when it is still the expected one. */
    method ReplaceProvider(name: string, expected: P, replacement: P) returns (r: Result<(), CatalogError>)
      requires Valid()
      modifies local
      ensures Valid() && local.views == old(local.views) && local.hidden == old(local.hidden)
      ensures var key := Normalize(name);
              var held := key in old(local.tables);
              && (r.Ok? <==> held && old(local.tables)[key].provider == expected)
              && (r == Err(MissingTable) <==> !held)
              && (forall other :: Table(other) ==
                    if r.Ok? && Normalize(other) == key then Some(old(local.tables)[key].(provider := replacement))
                    else old(Table(other)))
    {
      var key := Normalize(name);
      if key !in local.tables { return Err(MissingTable); }
      var entry := local.tables[key];
      if entry.provider != expected { return Err(ProviderChanged); }
      local.tables := local.tables[key := TableEntry(entry.name, replacement)];
      return Ok(());
    }

    /** A view never replaces a table, and replaces a view only on request. */
    method RegisterView(entry: TableEntry<P>, sql: string, replace: bool) returns (r: Result<(), CatalogError>)
      requires Valid()
      modifies local
      ensures Valid() && local.hidden == old(local.hidden)
      ensures var key := Normalize(entry.name);
              var isView := key in old(local.views);
              && (r == Err(NameIsTable) <==> key in old(local.tables) && !isView)
              && (r == Err(ViewExists) <==> isView && !replace)
              && (r.Ok? <==> if isView then replace else key !in old(local.tables))
              && local.views == (if r.Ok? then old(local.views)[key := sql] else old(local.views))
              && forall name :: Table(name) == if r.Ok? && Normalize(name) == key then Some(entry) else old(Table(name))
    {
      var key := Normalize(entry.name);
      if key in local.tables && key !in local.views { return Err(NameIsTable); }
      if (key in local.tables || key in local.views) && !replace { return Err(ViewExists); }
      local.tables := local.tables[key := entry];
      local.views := local.views[key := sql];
      return Ok(());
    }

    /** Drops views only; a table of the name stays. */
    method DropView(name: string) returns (dropped: bool)
      requires Valid()
      modifies local
      ensures Valid() && local.hidden == old(local.hidden)
      ensures var key := Normalize(name);
              && dropped == (key in old(local.views)) && local.views == old(local.views) - {key}
              && (forall other :: !dropped || Normalize(other) != key ==> Table(other) == old(Table(other)))
              && (dropped ==> Table(name) == Lookup(map[], local.hidden, Visible(), name))
    {
      var key := Normalize(name);
      if key !in local.views { return false; }
      local.views := local.views - {key};
      local.tables := local.tables - {key};
      return true;
    }

    /** Lists exactly the names under which lookups find their tables, each once. */
    method TableNames() returns (names: seq<string>)
      requires Valid()
      ensures forall n :: n in names <==> Table(n).Some? && Table(n).value.name == n
      ensures forall n :: Table(n).Some? ==> Table(n).value.name in names
      ensures forall i, j :: 0 <= i < j < |names| ==> Normalize(names[i]) != Normalize(names[j])
    {
      hide Normalize, Lookup;
      var visible := NamesOf(local.tables, {});
      if Visible().Some? { visible := NamesOf(Visible().value.tables, local.hidden) + visible; }
      NamesAreLookups(local.tables, local.hidden, Visible(), visible);
      names := Values(visible);
    }
  }

  /** The display names of the tables whose normal names are not hidden. */
  function NamesOf<P>(tables: Tables<P>, hidden: set<string>): (names: map<string, string>)
    requires WellKeyed(tables)
    ensures forall k :: k in names <==> k in tables && k !in hidden
    ensures forall k :: k in names ==> names[k] == tables[k].name
  {
    map k | k in tables && Normalize(tables[k].name) !in hidden :: Normalize(tables[k].name) := tables[k].name
  }

  lemma NamesAreLookups<P>(tables: Tables<P>, hidden: set<string>, snapshot: Option<Snapshot<P>>,
                           names: map<string, string>)
    requires WellKeyed(tables) && (snapshot.Some? ==> WellKeyed(snapshot.value.tables))
    requires names == (if snapshot.Some? then NamesOf(snapshot.value.tables, hidden) else map[]) + NamesOf(tables, {})
    ensures forall k :: k in names ==> Normalize(names[k]) == k
    ensures forall n :: Lookup(tables, hidden, snapshot, n).Some? <==> Normalize(n) in names
    ensures forall n :: Lookup(tables, hidden, snapshot, n).Some? ==>
              names[Normalize(n)] == Lookup(tables, hidden, snapshot, n).value.name
  {
    hide Normalize, NamesOf;
  }

  method Values(visible: map<string, string>) returns (names: seq<string>)
    requires forall k :: k in visible ==> Normalize(visible[k]) == k
    ensures forall n :: n in names <==> Normalize(n) in visible && visible[Normalize(n)] == n
    ensures forall i, j :: 0 <= i < j < |names| ==> Normalize(names[i]) != Normalize(names[j])
  {
    hide Normalize;
    names := [];
    var rest := visible.Keys;
    while rest != {}
      invariant rest <= visible.Keys
      invariant forall n :: n in names <==> Normalize(n) in visible && Normalize(n) !in rest && visible[Normalize(n)] == n
      invariant forall i, j :: 0 <= i < j < |names| ==> Normalize(names[i]) != Normalize(names[j])
      decreases rest
    {
      var k :| k in rest;
      assert visible[k] !in names;
      rest := rest - {k};
      names := names + [visible[k]];
    }
  }

  // ---------------------------------------------------------------- isolation

  datatype Operation<P> =
    | Register(entry: TableEntry<P>)
    | Unregister(name: string)
    | Hide(name: string)
    | ReplaceProvider(name: string, expected: P, replacement: P)
    | RegisterView(entry: TableEntry<P>, sql: string, replace: bool)
    | DropView(name: string)
    | Publish(generation: nat, entries: seq<TableEntry<P>>)
    | Replace(generation: nat, entries: seq<TableEntry<P>>)

  ghost function Shared<P>(live: Session<P>): set<object> {
    {live.local} + if live.persistent != null then {live.persistent} else {}
  }

  ghost predicate Live<P>(live: Session<P>)
    reads Shared(live)
  {
    live.Valid() && (live.persistent != null ==> live.persistent.Valid())
  }

  predicate IsPublication<P>(op: Operation<P>) { op.Publish? || op.Replace? }

  /** A publication leaves the local state alone, every other operation the persistent catalog. */
  method Perform<P>(live: Session<P>, op: Operation<P>)
    requires Live(live)
    modifies Shared(live)
    ensures Live(live)
    ensures IsPublication(op) ==> unchanged(live.local)
    ensures !IsPublication(op) && live.persistent != null ==> unchanged(live.persistent)
  {
    match op
    case Register(entry) => live.Register(entry);
    case Unregister(name) => var _ := live.Unregister(name);
    case Hide(name) => live.HidePersistent(name);
    case ReplaceProvider(name, expected, replacement) =>
      var _ := live.ReplaceProvider(name, expected, replacement);
    case RegisterView(entry, sql, replace) => var _ := live.RegisterView(entry, sql, replace);
    case DropView(name) => var _ := live.DropView(name);
    case Publish(generation, entries) =>
      if live.persistent != null && generation <= U64_MAX { var _ := live.persistent.Publish(generation, entries); }
    case Replace(generation, entries) =>
      if live.persistent != null && generation <= U64_MAX { var _ := live.persistent.Replace(generation, entries); }
  }

  /**
   Pinning while other tasks operate on the live session between its two halves: the pinned answers
   combine the local state of the first moment with the snapshot of the second.  They are those of the
   first moment if nothing was published in between, those of the second if nothing but that was done.
   */
  method Pin<P>(live: Session<P>, between: seq<Operation<P>>) returns (pinned: Session<P>)
    requires Live(live)
    modifies Shared(live)
    ensures Live(live) && fresh(pinned) && fresh(pinned.Footprint()) && pinned.Valid()
    ensures forall name ::
              pinned.Table(name) == Lookup(old(live.local.tables), old(live.local.hidden), live.Visible(), name)
    ensures (forall op :: op in between ==> !IsPublication(op)) ==>
              forall name :: pinned.Table(name) == old(live.Table(name))
    ensures (forall op :: op in between ==> IsPublication(op)) ==>
              forall name :: pinned.Table(name) == live.Table(name)
  {
    var own := live.CopyLocal();
    for n := 0 to |between|
      invariant Live(live)
      invariant own.tables == old(live.local.tables) && own.views == old(live.local.views)
      invariant own.hidden == old(live.local.hidden)
      invariant (forall op :: op in between ==> !IsPublication(op)) ==> live.Visible() == old(live.Visible())
      invariant (forall op :: op in between ==> IsPublication(op)) ==>
        live.local.tables == old(live.local.tables) && live.local.hidden == old(live.local.hidden)
    {
      assert between[n] in between;
      Perform(live, between[n]);
    }
    pinned := live.PinSnapshot(own);
  }

  /** The gap shows: hide a name, then publish it; the pinned answer is one the live session never gave. */
  lemma PinMixesMoments<P>(provider: P)
    ensures var entry := TableEntry("t", provider);
            var before, after := Some(Snapshot(0, map[])), Some(Snapshot(1, map["t" := entry]));
            && Lookup(map[], {}, after, "t") == Some(entry)
            && Lookup(map[], {}, before, "t") == Lookup(map[], {"t"}, before, "t") == Lookup(map[], {"t"}, after, "t")
               == None
  {
    assert Normalize("t") == "t";
  }

  /** Exactly when it does not: every name the local copy leaves to the snapshot means the same in both. */
  lemma PinAnswersFirstMoment<P>(tables: Tables<P>, hidden: set<string>, before: Option<Snapshot<P>>,
                                 after: Option<Snapshot<P>>)
    ensures (forall name :: Lookup(tables, hidden, after, name) == Lookup(tables, hidden, before, name))
            <==> forall name :: Normalize(name) !in tables && Normalize(name) !in hidden ==>
                   Lookup(map[], {}, after, name) == Lookup(map[], {}, before, name)
  {
    hide Normalize;
    if forall name :: Lookup(tables, hidden, after, name) == Lookup(tables, hidden, before, name) {
      forall name | Normalize(name) !in tables && Normalize(name) !in hidden
        ensures Lookup(map[], {}, after, name) == Lookup(map[], {}, before, name)
      {
        assert Lookup(tables, hidden, after, name) == Lookup(tables, hidden, before, name);
      }
    } else {
      var name :| Lookup(tables, hidden, after, name) != Lookup(tables, hidden, before, name);
      assert Lookup(map[], {}, after, name) != Lookup(map[], {}, before, name);
    }
  }

  /** After any sequence of operations on the live session, a pinned copy still answers as at its pinning. */
  method RunBeside<P>(live: Session<P>, pinned: Session<P>, ops: seq<Operation<P>>)
    requires Live(live) && pinned.Valid() && pinned.Footprint() !! Shared(live)
    modifies Shared(live)
    ensures Live(live) && pinned.Valid()
    ensures forall name :: pinned.Table(name) == old(pinned.Table(name))
  {
    for n := 0 to |ops|
      invariant Live(live) && pinned.Valid()
      invariant forall name :: pinned.Table(name) == old(pinned.Table(name))
    {
      Perform(live, ops[n]);
    }
  }

  /** Pinned in a quiet moment, a copy answers as the session did then, whatever is done to it later. */
  method PinThenRun<P>(live: Session<P>, ops: seq<Operation<P>>) returns (pinned: Session<P>)
    requires Live(live)
    modifies Shared(live)
    ensures Live(live) && pinned.Valid()
    ensures forall name :: pinned.Table(name) == old(live.Table(name))
  {
    pinned := Pin(live, []);
    RunBeside(live, pinned, ops);
  }

  ghost function Wins(won: seq<bool>): nat {
    if won == [] then 0 else Wins(won[..|won| - 1]) + if won[|won| - 1] then 1 else 0
  }

  /**
   Any interleaving of publishers: winners expect strictly increasing generations, so no generation is
   followed twice, and each win advances the generation by exactly one.
   */
  method PublishAll<P>(catalog: PersistentCatalog<P>, attempts: seq<(nat, seq<TableEntry<P>>)>) returns (won: seq<bool>)
    requires catalog.Valid() && forall i :: 0 <= i < |attempts| ==> attempts[i].0 <= U64_MAX
    modifies catalog
    ensures catalog.Valid() && |won| == |attempts|
    ensures forall i, j :: 0 <= i < j < |won| && won[i] && won[j] ==> attempts[i].0 < attempts[j].0
    ensures catalog.current.generation == old(catalog.current.generation) + Wins(won)
  {
    won := [];
    for n := 0 to |attempts|
      invariant catalog.Valid() && |won| == n
      invariant forall i :: 0 <= i < n && won[i] ==> attempts[i].0 < catalog.current.generation
      invariant forall i, j :: 0 <= i < j < n && won[i] && won[j] ==> attempts[i].0 < attempts[j].0
      invariant catalog.current.generation == old(catalog.current.generation) + Wins(won)
    {
      var r := catalog.Publish(attempts[n].0, attempts[n].1);
      assert (won + [r.Ok?])[..n] == won;
      won := won + [r.Ok?];
    }
  }
}
