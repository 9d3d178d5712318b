/** The radix tree of page tables, keyed by the physical frame a table lies in, and the flat map from
    pages to entries that it represents. */
module PageTree {
  import opened Units
  import opened Words
  import opened PageEntry

  type Tables = map<nat, seq<nat>>

  /** For every table, the indices that lead to it from the root. */
  type Places = map<nat, seq<nat>>

  const DEPTH: nat := 3

  function Zeros(): seq<nat> {
    seq(ENTRIES, i => 0)
  }

  ghost predicate TableOK(tables: Tables, t: nat) {
    && t in tables && |tables[t]| == ENTRIES && (forall i :: 0 <= i < ENTRIES ==> tables[t][i] < W64)
    && t % PAGE == 0 && t < PHYS_LIMIT
  }

  /** A present entry above the leaf tables leads to the table whose place it is; bits 7 (huge page) and
      63 (execute-disable) are clear. */
  ghost predicate Leads(tables: Tables, places: Places, t: nat, i: int)
    requires t in tables && 0 <= i < |tables[t]| && t in places
  {
    var e := tables[t][i];
    IsPresent(e) ==>
      FrameOf(e) in places && places[FrameOf(e)] == places[t] + [i] && !Bit(e, PAT_BIT) && !Bit(e, XD_BIT)
  }

  /** Entry i of table t is present and holds table c. */
  ghost predicate Parent(tables: Tables, places: Places, t: nat, i: int, c: nat) {
    && t in tables && t in places && c in places && 0 <= i < |tables[t]|
    && |places[t]| < DEPTH && places[c] == places[t] + [i]
    && IsPresent(tables[t][i]) && FrameOf(tables[t][i]) == c
  }

  ghost predicate At(places: Places, t: nat, path: seq<nat>) {
    t in places && places[t] == path
  }

  ghost predicate Inner(tables: Tables, places: Places, t: nat) {
    t in places && t in tables && |places[t]| < DEPTH
  }

  ghost predicate HasParent(tables: Tables, places: Places, c: nat) {
    exists t, i :: Parent(tables, places, t, i, c)
  }

  /** The tables form a tree below `root`: a table's place determines it, and its entries and parent agree
      with the places. */
  ghost predicate Tree(tables: Tables, places: Places, root: nat) {
    && tables.Keys == places.Keys && At(places, root, [])
    && (forall t {:trigger TableOK(tables, t)} :: t in places ==> TableOK(tables, t) && |places[t]| <= DEPTH)
    && (forall t, i {:trigger Leads(tables, places, t, i)} ::
          Inner(tables, places, t) && 0 <= i < |tables[t]| ==> Leads(tables, places, t, i))
    && (forall c {:trigger HasParent(tables, places, c)} :: c in places && c != root ==> HasParent(tables, places, c))
    && (forall c, d, path {:trigger At(places, c, path), At(places, d, path)} ::
          At(places, c, path) && At(places, d, path) ==> c == d)
  }

  // ---------- the flat map ----------

  ghost predicate ValidPath(path: seq<nat>) {
    |path| == DEPTH + 1 && forall i :: 0 <= i <= DEPTH ==> path[i] < ENTRIES
  }

  /** The leaf entry for a path; 0 (not present) when one of the tables on the way is missing. */
  ghost function EntryAt(tables: Tables, places: Places, path: seq<nat>): nat
    requires tables.Keys == places.Keys && |path| == DEPTH + 1
  {
    if t :| At(places, t, path[..DEPTH]) && path[DEPTH] < |tables[t]| then tables[t][path[DEPTH]] else 0
  }

  lemma EntryOfTable(tables: Tables, places: Places, root: nat, path: seq<nat>, t: nat)
    requires Tree(tables, places, root) && ValidPath(path) && At(places, t, path[..DEPTH])
    ensures |tables[t]| == ENTRIES && EntryAt(tables, places, path) == tables[t][path[DEPTH]]
  {
    assert TableOK(tables, t);
  }

  // ---------- a new table ----------

  /** create_table: a zeroed table in `frame`, linked from entry i of table t. */
  function NewTables(tables: Tables, t: nat, i: nat, frame: nat, flags: nat): Tables
    requires t in tables && i < |tables[t]|
  {
    var row: seq<nat> := tables[t][i := MakeEntry(frame, flags)];
    tables[frame := Zeros()][t := row]
  }

  function NewPlaces(places: Places, t: nat, i: nat, frame: nat): Places
    requires t in places
  {
    places[frame := places[t] + [i]]
  }

  /** A new table goes into an entry that was not present, in a frame that holds no table. */
  ghost predicate CanCreate(tables: Tables, places: Places, root: nat, t: nat, i: nat, frame: nat, flags: nat) {
    && Tree(tables, places, root) && Inner(tables, places, t) && i < ENTRIES == |tables[t]| && !IsPresent(tables[t][i])
    && frame !in places && frame % PAGE == 0 && frame < PHYS_LIMIT
    && Bit(flags, PRESENT_BIT) && !Bit(flags, PAT_BIT) && !Bit(flags, XD_BIT)
  }

  /** No table has the place of one that is to be created. */
  lemma PlaceIsFree(tables: Tables, places: Places, root: nat, t: nat, i: nat, d: nat)
    requires Tree(tables, places, root) && Inner(tables, places, t) && i < |tables[t]| && !IsPresent(tables[t][i])
    requires d in places
    ensures places[d] != places[t] + [i]
  {
    if places[d] == places[t] + [i] {
      assert d != root;
      assert HasParent(tables, places, d);
      var u, j :| Parent(tables, places, u, j, d);
      assert places[u] == (places[u] + [j])[..|places[u]|] == places[t];
      assert At(places, u, places[t]) && At(places, t, places[t]);
    }
  }

  lemma NewEntry(frame: nat, flags: nat)
    requires frame % PAGE == 0 && frame < PHYS_LIMIT
    requires Bit(flags, PRESENT_BIT) && !Bit(flags, PAT_BIT) && !Bit(flags, XD_BIT)
    ensures var e := MakeEntry(frame, flags);
            e < W64 && IsPresent(e) && FrameOf(e) == frame && !Bit(e, PAT_BIT) && !Bit(e, XD_BIT)
  {
    EntryRoundTrip(frame, flags);
    FrameBits(frame);
    EntryBit(frame, flags, PAT_BIT);
    EntryBit(frame, flags, XD_BIT);
  }

  lemma ZeroNotPresent()
    ensures !IsPresent(0)
  {}

  lemma CreateTablesOK(tables: Tables, places: Places, root: nat, t: nat, i: nat, frame: nat, flags: nat)
    requires CanCreate(tables, places, root, t, i, frame, flags)
    ensures var tables', places' := NewTables(tables, t, i, frame, flags), NewPlaces(places, t, i, frame);
            && tables'.Keys == places'.Keys && At(places', root, [])
            && forall c :: c in places' ==> TableOK(tables', c) && |places'[c]| <= DEPTH
  {
    NewEntry(frame, flags);
    var tables', places' := NewTables(tables, t, i, frame, flags), NewPlaces(places, t, i, frame);
    assert TableOK(tables, t);
    forall c | c in places' ensures TableOK(tables', c) && |places'[c]| <= DEPTH {
      if c != frame { assert TableOK(tables, c); }
    }
  }

  lemma CreateLeads(tables: Tables, places: Places, root: nat, t: nat, i: nat, frame: nat, flags: nat, c: nat, j: nat)
    requires CanCreate(tables, places, root, t, i, frame, flags)
    requires Inner(NewTables(tables, t, i, frame, flags), NewPlaces(places, t, i, frame), c)
    requires j < |NewTables(tables, t, i, frame, flags)[c]|
    ensures Leads(NewTables(tables, t, i, frame, flags), NewPlaces(places, t, i, frame), c, j)
  {
    NewEntry(frame, flags);
    ZeroNotPresent();
    if c != frame && !(c == t && j == i) {
      assert Inner(tables, places, c);
      assert Leads(tables, places, c, j);
    }
  }

  lemma CreateParents(tables: Tables, places: Places, root: nat, t: nat, i: nat, frame: nat, flags: nat, c: nat)
    requires CanCreate(tables, places, root, t, i, frame, flags)
    requires c in NewPlaces(places, t, i, frame) && c != root
    ensures HasParent(NewTables(tables, t, i, frame, flags), NewPlaces(places, t, i, frame), c)
  {
    NewEntry(frame, flags);
    var tables', places' := NewTables(tables, t, i, frame, flags), NewPlaces(places, t, i, frame);
    if c == frame {
      assert Parent(tables', places', t, i, c);
    } else {
      assert HasParent(tables, places, c);
      var u, j :| Parent(tables, places, u, j, c);
      assert Parent(tables', places', u, j, c);
    }
  }

  /** The tree grows, and the flat map does not change. */
  lemma CreateKeepsTree(tables: Tables, places: Places, root: nat, t: nat, i: nat, frame: nat, flags: nat)
    requires CanCreate(tables, places, root, t, i, frame, flags)
    ensures Tree(NewTables(tables, t, i, frame, flags), NewPlaces(places, t, i, frame), root)
  {
    var tables', places' := NewTables(tables, t, i, frame, flags), NewPlaces(places, t, i, frame);
    CreateTablesOK(tables, places, root, t, i, frame, flags);
    forall c, j | Inner(tables', places', c) && 0 <= j < |tables'[c]| ensures Leads(tables', places', c, j) {
      CreateLeads(tables, places, root, t, i, frame, flags, c, j);
    }
    forall c | c in places' && c != root ensures HasParent(tables', places', c) {
      CreateParents(tables, places, root, t, i, frame, flags, c);
    }
    forall c, d, path | At(places', c, path) && At(places', d, path) ensures c == d {
      if c != frame && d != frame {
        assert At(places, c, path) && At(places, d, path);
      } else if c != frame {
        PlaceIsFree(tables, places, root, t, i, c);
      } else if d != frame {
        PlaceIsFree(tables, places, root, t, i, d);
      }
    }
  }

  lemma CreateKeepsEntries(tables: Tables, places: Places, root: nat, t: nat, i: nat, frame: nat, flags: nat,
                           path: seq<nat>)
    requires CanCreate(tables, places, root, t, i, frame, flags) && ValidPath(path)
    ensures var tables', places' := NewTables(tables, t, i, frame, flags), NewPlaces(places, t, i, frame);
            tables'.Keys == places'.Keys && EntryAt(tables', places', path) == EntryAt(tables, places, path)
  {
    var tables', places' := NewTables(tables, t, i, frame, flags), NewPlaces(places, t, i, frame);
    CreateKeepsTree(tables, places, root, t, i, frame, flags);
    if c :| At(places', c, path[..DEPTH]) {
      EntryOfTable(tables', places', root, path, c);
      if c == frame {
        forall d | At(places, d, path[..DEPTH]) ensures false {
          PlaceIsFree(tables, places, root, t, i, d);
        }
      } else {
        EntryOfTable(tables, places, root, path, c);
      }
    } else {
      forall d | At(places, d, path[..DEPTH]) ensures false {
        assert At(places', d, path[..DEPTH]);
      }
    }
  }

  // ---------- a leaf entry changes ----------

  function SetEntry(tables: Tables, t: nat, i: nat, raw: nat): Tables
    requires t in tables && i < |tables[t]|
  {
    var row: seq<nat> := tables[t][i := raw];
    tables[t := row]
  }

  lemma SetKeepsTree(tables: Tables, places: Places, root: nat, t: nat, i: nat, raw: nat)
    requires Tree(tables, places, root) && t in places && |places[t]| == DEPTH && i < ENTRIES && raw < W64
    ensures t in tables && |tables[t]| == ENTRIES && Tree(SetEntry(tables, t, i, raw), places, root)
  {
    assert TableOK(tables, t);
    var tables' := SetEntry(tables, t, i, raw);
    forall c | c in places ensures TableOK(tables', c) {
      assert TableOK(tables, c);
    }
    forall c, j | Inner(tables', places, c) && 0 <= j < |tables'[c]| ensures Leads(tables', places, c, j) {
      assert Inner(tables, places, c);
      assert Leads(tables, places, c, j);
    }
    forall c | c in places && c != root ensures HasParent(tables', places, c) {
      assert HasParent(tables, places, c);
      var u, j :| Parent(tables, places, u, j, c);
      assert Parent(tables', places, u, j, c);
    }
  }

  /** Only the entry of one page changes. */
  lemma SetChangesOne(tables: Tables, places: Places, root: nat, t: nat, i: nat, raw: nat, path: seq<nat>)
    requires Tree(tables, places, root) && t in places && |places[t]| == DEPTH && i < ENTRIES && raw < W64
    requires ValidPath(path)
    ensures t in tables && |tables[t]| == ENTRIES
    ensures EntryAt(SetEntry(tables, t, i, raw), places, path)
            == if path == places[t] + [i] then raw else EntryAt(tables, places, path)
  {
    SetKeepsTree(tables, places, root, t, i, raw);
    var tables' := SetEntry(tables, t, i, raw);
    assert path == path[..DEPTH] + [path[DEPTH]];
    if c :| At(places, c, path[..DEPTH]) {
      EntryOfTable(tables, places, root, path, c);
      EntryOfTable(tables', places, root, path, c);
      if c == t {
        assert path == places[t] + [i] <==> path[DEPTH] == i;
      } else {
        assert path[..DEPTH] != places[t] by { assert At(places, t, places[t]); }
      }
    } else {
      assert path[..DEPTH] != places[t] by { assert At(places, t, places[t]); }
    }
  }

  // ---------- walking ----------

  /** The table reached from t by the given indices, or -1: what the hardware and virt2pte follow. */
  function Walk(tables: Tables, t: nat, path: seq<nat>): int
    decreases |path|
  {
    if path == [] then t
    else if t in tables && path[0] < |tables[t]| && IsPresent(tables[t][path[0]]) then
      Walk(tables, FrameOf(tables[t][path[0]]), path[1..])
    else -1
  }

  lemma {:induction false} WalkAppend(tables: Tables, t: nat, a: seq<nat>, b: seq<nat>)
    ensures Walk(tables, t, a + b) == if Walk(tables, t, a) < 0 then -1 else Walk(tables, Walk(tables, t, a), b)
    decreases |a|
  {
    if a == [] {
      assert a + b == b;
    } else {
      assert (a + b)[1..] == a[1..] + b;
      if t in tables && a[0] < |tables[t]| && IsPresent(tables[t][a[0]]) {
        WalkAppend(tables, FrameOf(tables[t][a[0]]), a[1..], b);
      }
    }
  }

  /** Walking ends at the table whose place extends the start by the indices walked. */
  lemma {:induction false} WalkEndsAt(tables: Tables, places: Places, root: nat, t: nat, path: seq<nat>)
    requires Tree(tables, places, root) && t in places && |places[t]| + |path| <= DEPTH && Walk(tables, t, path) >= 0
    ensures At(places, Walk(tables, t, path), places[t] + path)
    decreases |path|
  {
    if path == [] {
      assert places[t] + path == places[t];
    } else {
      assert Inner(tables, places, t);
      assert Leads(tables, places, t, path[0]);
      var c := FrameOf(tables[t][path[0]]);
      WalkEndsAt(tables, places, root, c, path[1..]);
      assert places[t] + path == (places[t] + [path[0]]) + path[1..];
    }
  }

  /** Every table is reached by walking to its place. */
  lemma {:induction false} WalkReaches(tables: Tables, places: Places, root: nat, c: nat)
    requires Tree(tables, places, root) && c in places
    ensures Walk(tables, root, places[c]) == c
    decreases |places[c]|
  {
    if c == root {
    } else {
      assert HasParent(tables, places, c);
      var t, i :| Parent(tables, places, t, i, c);
      WalkReaches(tables, places, root, t);
      WalkAppend(tables, root, places[t], [i]);
      assert Walk(tables, t, [i]) == Walk(tables, c, []);
    }
  }

  /** The tables reachable from the root are a tree: each is reached by exactly one sequence of indices. */
  lemma ReachedByOnePath(tables: Tables, places: Places, root: nat, c: nat, path: seq<nat>)
    requires Tree(tables, places, root) && |path| <= DEPTH
    ensures Walk(tables, root, path) == c <==> At(places, c, path)
  {
    if Walk(tables, root, path) == c {
      WalkEndsAt(tables, places, root, root, path);
      assert places[root] + path == path;
    }
    if At(places, c, path) { WalkReaches(tables, places, root, c); }
  }

  /** How many tables are missing below t on the way given by the indices. */
  function Missing(tables: Tables, t: nat, path: seq<nat>): (k: nat)
    ensures k <= |path|
    decreases |path|
  {
    if path == [] then 0
    else if t in tables && path[0] < |tables[t]| && IsPresent(tables[t][path[0]]) then
      Missing(tables, FrameOf(tables[t][path[0]]), path[1..])
    else |path|
  }

  lemma {:induction false} NoneMissing(tables: Tables, t: nat, path: seq<nat>)
    ensures Missing(tables, t, path) == 0 <==> Walk(tables, t, path) >= 0
    decreases |path|
  {
    if path != [] && t in tables && path[0] < |tables[t]| && IsPresent(tables[t][path[0]]) {
      NoneMissing(tables, FrameOf(tables[t][path[0]]), path[1..]);
    }
  }

  /** A page has a leaf table exactly when no table is missing on its path. */
  lemma LeafTable(tables: Tables, places: Places, root: nat, path: seq<nat>)
    requires Tree(tables, places, root) && |path| == DEPTH
    ensures Missing(tables, root, path) == 0 <==> exists t :: At(places, t, path)
  {
    NoneMissing(tables, root, path);
    if Walk(tables, root, path) >= 0 { ReachedByOnePath(tables, places, root, Walk(tables, root, path), path); }
    forall t | At(places, t, path) ensures Walk(tables, root, path) >= 0 {
      ReachedByOnePath(tables, places, root, t, path);
    }
  }

  /** The entry that walking the tables from the root finds for a path, as the processor does; 0 when a table is
      missing on the way. */
  function Lookup(tables: Tables, root: nat, path: seq<nat>): nat
    requires |path| == DEPTH + 1
  {
    var t := Walk(tables, root, path[..DEPTH]);
    if t in tables && path[DEPTH] < |tables[t]| then tables[t][path[DEPTH]] else 0
  }

  /** In a tree the entry of a path is the one that the walk finds. */
  lemma EntryIsLookup(tables: Tables, places: Places, root: nat, path: seq<nat>)
    requires Tree(tables, places, root) && ValidPath(path)
    ensures EntryAt(tables, places, path) == Lookup(tables, root, path)
  {
    var t := Walk(tables, root, path[..DEPTH]);
    if t >= 0 {
      ReachedByOnePath(tables, places, root, t, path[..DEPTH]);
      EntryOfTable(tables, places, root, path, t);
    } else {
      forall c | At(places, c, path[..DEPTH]) ensures false {
        ReachedByOnePath(tables, places, root, c, path[..DEPTH]);
      }
    }
  }

  // ---------- how states are related ----------

  /** The flat map is the same. */
  ghost predicate SamePages(tables: Tables, places: Places, tables': Tables, places': Places) {
    && tables.Keys == places.Keys && tables'.Keys == places'.Keys
    && forall path {:trigger EntryAt(tables', places', path)} :: ValidPath(path) ==>
         EntryAt(tables', places', path) == EntryAt(tables, places, path)
  }

  /** The flat map has changed at one path only, where it now holds `raw`. */
  ghost predicate Remapped(tables: Tables, places: Places, tables': Tables, places': Places, at: seq<nat>, raw: nat) {
    && tables.Keys == places.Keys && tables'.Keys == places'.Keys
    && forall path {:trigger EntryAt(tables', places', path)} :: ValidPath(path) ==>
         EntryAt(tables', places', path) == if path == at then raw else EntryAt(tables, places, path)
  }

  /** Tables keep their places. */
  ghost predicate Grown(places: Places, places': Places) {
    forall t {:trigger t in places} :: t in places ==> t in places' && places'[t] == places[t]
  }

  lemma CreateIsSame(tables: Tables, places: Places, root: nat, t: nat, i: nat, frame: nat, flags: nat)
    requires CanCreate(tables, places, root, t, i, frame, flags)
    ensures SamePages(tables, places, NewTables(tables, t, i, frame, flags), NewPlaces(places, t, i, frame))
  {
    var tables', places' := NewTables(tables, t, i, frame, flags), NewPlaces(places, t, i, frame);
    CreateTablesOK(tables, places, root, t, i, frame, flags);
    forall path | ValidPath(path) ensures EntryAt(tables', places', path) == EntryAt(tables, places, path) {
      CreateKeepsEntries(tables, places, root, t, i, frame, flags, path);
    }
  }

  lemma SetRemaps(tables: Tables, places: Places, root: nat, t: nat, i: nat, raw: nat)
    requires Tree(tables, places, root) && t in places && |places[t]| == DEPTH && i < ENTRIES && raw < W64
    ensures t in tables && |tables[t]| == ENTRIES
    ensures Remapped(tables, places, SetEntry(tables, t, i, raw), places, places[t] + [i], raw)
  {
    SetKeepsTree(tables, places, root, t, i, raw);
    forall path | ValidPath(path)
      ensures EntryAt(SetEntry(tables, t, i, raw), places, path)
              == if path == places[t] + [i] then raw else EntryAt(tables, places, path)
    {
      SetChangesOne(tables, places, root, t, i, raw, path);
    }
  }

  // ---------- places that are taken ----------

  /** A table has the place q. */
  ghost predicate Occupied(places: Places, q: seq<nat>) {
    exists t :: At(places, t, q)
  }

  /** The first d indices of a path, or fewer of them. */
  predicate Begins(q: seq<nat>, path: seq<nat>, d: nat) {
    |q| <= d && q <= path
  }

  /** The new places are those on the first d steps of a path. */
  ghost predicate Extends(places: Places, places': Places, path: seq<nat>, d: nat) {
    forall q {:trigger Occupied(places', q)} :: Occupied(places', q) <==> Occupied(places, q) || Begins(q, path, d)
  }

  lemma ExtendsNone(places: Places, root: nat, path: seq<nat>)
    requires At(places, root, [])
    ensures Extends(places, places, path, 0)
  {
    assert Occupied(places, []);
    forall q | Begins(q, path, 0) ensures Occupied(places, q) { assert q == []; }
  }

  /** A step to a table that exists. */
  lemma ExtendsAlong(places: Places, places': Places, path: seq<nat>, d: nat, c: nat)
    requires d < |path| && Extends(places, places', path, d) && At(places', c, path[..d + 1])
    ensures Extends(places, places', path, d + 1)
  {
    forall q ensures Occupied(places', q) <==> Occupied(places, q) || Begins(q, path, d + 1) {
      if Begins(q, path, d + 1) && !Begins(q, path, d) {
        assert q == path[..d + 1];
      }
    }
  }

  /** A step to a new table. */
  lemma ExtendsNew(places: Places, places': Places, path: seq<nat>, d: nat, t: nat, frame: nat)
    requires d < |path| && Extends(places, places', path, d) && At(places', t, path[..d]) && frame !in places'
    ensures Extends(places, NewPlaces(places', t, path[d], frame), path, d + 1)
  {
    var after := NewPlaces(places', t, path[d], frame);
    assert path[..d] + [path[d]] == path[..d + 1];
    assert At(after, frame, path[..d + 1]);
    forall q ensures Occupied(after, q) <==> Occupied(places, q) || Begins(q, path, d + 1) {
      if Occupied(after, q) {
        var c :| At(after, c, q);
        if c != frame { assert At(places', c, q); }
      }
      if Occupied(places', q) {
        var c :| At(places', c, q);
        assert At(after, c, q);
      }
      if Begins(q, path, d + 1) && !Begins(q, path, d) {
        assert q == path[..d + 1];
      }
    }
  }

  /** The entry that leads to a place is present exactly when the place is taken. */
  lemma PresentIsOccupied(tables: Tables, places: Places, root: nat, t: nat, q: seq<nat>, i: nat)
    requires Tree(tables, places, root) && At(places, t, q) && |q| < DEPTH && i < ENTRIES
    ensures t in tables && |tables[t]| == ENTRIES
    ensures IsPresent(tables[t][i]) <==> Occupied(places, q + [i])
    ensures IsPresent(tables[t][i]) ==> At(places, FrameOf(tables[t][i]), q + [i])
  {
    assert TableOK(tables, t);
    if IsPresent(tables[t][i]) {
      assert Leads(tables, places, t, i);
      assert At(places, FrameOf(tables[t][i]), q + [i]);
    } else if Occupied(places, q + [i]) {
      var c :| At(places, c, q + [i]);
      PlaceIsFree(tables, places, root, t, i, c);
    }
  }

  /** A place is taken only if the one before it is. */
  lemma OccupiedBefore(tables: Tables, places: Places, root: nat, q: seq<nat>, i: nat)
    requires Tree(tables, places, root) && Occupied(places, q + [i])
    ensures Occupied(places, q)
  {
    var c :| At(places, c, q + [i]);
    assert c != root;
    assert HasParent(tables, places, c);
    var t, j :| Parent(tables, places, t, j, c);
    assert places[t] == (places[t] + [j])[..|places[t]|] == (q + [i])[..|q|] == q;
    assert At(places, t, q);
  }

  /** Tables that are missing for the last n of the indices on a path. */
  ghost function Untaken(places: Places, path: seq<nat>, d: nat): (k: nat)
    requires d <= |path|
    ensures k <= |path| - d
    decreases |path| - d
  {
    if d == |path| then 0 else (if Occupied(places, path[..d + 1]) then 0 else 1) + Untaken(places, path, d + 1)
  }

  lemma {:induction false} AllUntaken(tables: Tables, places: Places, root: nat, path: seq<nat>, d: nat)
    requires Tree(tables, places, root) && d <= |path| && !Occupied(places, path[..d])
    ensures Untaken(places, path, d) == |path| - d
    decreases |path| - d
  {
    if d < |path| {
      assert path[..d + 1] == path[..d] + [path[d]];
      if Occupied(places, path[..d + 1]) { OccupiedBefore(tables, places, root, path[..d], path[d]); }
      AllUntaken(tables, places, root, path, d + 1);
    }
  }

  /** The tables that a walk misses are those whose places are not taken. */
  lemma {:induction false} MissingIsUntaken(tables: Tables, places: Places, root: nat, t: nat, path: seq<nat>, d: nat)
    requires Tree(tables, places, root) && |path| == DEPTH && (forall i :: 0 <= i < DEPTH ==> path[i] < ENTRIES)
    requires d <= DEPTH && At(places, t, path[..d])
    ensures Missing(tables, t, path[d..]) == Untaken(places, path, d)
    decreases DEPTH - d
  {
    if d < DEPTH {
      assert path[d..][1..] == path[d + 1..] && path[..d + 1] == path[..d] + [path[d]];
      PresentIsOccupied(tables, places, root, t, path[..d], path[d]);
      if IsPresent(tables[t][path[d]]) {
        MissingIsUntaken(tables, places, root, FrameOf(tables[t][path[d]]), path, d + 1);
      } else {
        AllUntaken(tables, places, root, path, d + 1);
      }
    }
  }
}
