/** The states of an address space: its page tables and the frames of the allocator; and the changes that the
    operations make to them, one at a time. */
module SpaceChanges {
  import opened Units
  import opened Words
  import opened PageEntry
  import opened PageTree
  import opened FreeFrames

  /** Frames fit the 40 bits an entry has for them. */
  const MAX_FRAMES: nat := 0x100_0000_0000

  ghost predicate InUse(frames: seq<bool>, address: nat) {
    address / PAGE < |frames| && frames[address / PAGE]
  }

  ghost predicate TablesUsed(tables: Tables, frames: seq<bool>) {
    |frames| <= MAX_FRAMES && forall t {:trigger t in tables} :: t in tables ==> t % PAGE == 0 && InUse(frames, t)
  }

  /** Page tables, their places in the tree, and the frames of the allocator. */
  datatype Space = Space(tables: Tables, places: Places, frames: seq<bool>)

  /** The tables are a tree, each in a frame of its own that the bitmap has as used. */
  ghost predicate Good(s: Space, root: nat) {
    Tree(s.tables, s.places, root) && TablesUsed(s.tables, s.frames)
  }

  /** Bits of the flags an entry above the leaf gets. */
  ghost predicate TableFlags(flags: nat) {
    Bit(flags, PRESENT_BIT) && !Bit(flags, PAT_BIT) && !Bit(flags, XD_BIT)
  }

  /** Mapping a page with entry e to `phys` displaces a frame, which is then released. */
  predicate Displaces(e: nat, phys: nat) {
    IsPresent(e) && FrameOf(e) != phys
  }

  /** The frames after the one at `address` is released. */
  function AfterRelease(frames: seq<bool>, address: nat): (r: seq<bool>)
    ensures |r| == |frames|
  {
    if address / PAGE < |frames| then frames[address / PAGE := false] else frames
  }

  /** Table t has an entry i, on the way to a leaf. */
  ghost predicate HasEntry(s: Space, t: nat, i: nat) {
    Inner(s.tables, s.places, t) && i < ENTRIES && |s.tables[t]| == ENTRIES
  }

  /** The state once entry i of leaf table t has been set, after the frame it displaces is released. */
  function MapEntry(s: Space, t: nat, i: nat, phys: nat, raw: nat): Space
    requires t in s.tables && i < |s.tables[t]|
  {
    var e := s.tables[t][i];
    Space(SetEntry(s.tables, t, i, raw), s.places,
          if Displaces(e, phys) then AfterRelease(s.frames, FrameOf(e)) else s.frames)
  }

  // ---------- what the changes keep ----------

  lemma NewTableUsed(tables: Tables, tables': Tables, frames: seq<bool>, frame: nat)
    requires TablesUsed(tables, frames) && frame % PAGE == 0 && frame / PAGE < |frames| && !frames[frame / PAGE]
    requires tables'.Keys == tables.Keys + {frame}
    ensures frame !in tables && frame < PHYS_LIMIT && TablesUsed(tables', frames[frame / PAGE := true])
  {
    var frames' := frames[frame / PAGE := true];
    assert frame in tables ==> InUse(frames, frame);
    forall t | t in tables' ensures t % PAGE == 0 && InUse(frames', t) {
      if t != frame { assert t in tables; }
    }
  }

  lemma ReleaseKeepsTables(tables: Tables, frames: seq<bool>, frame: nat)
    requires TablesUsed(tables, frames) && frame % PAGE == 0 && frame !in tables
    ensures TablesUsed(tables, AfterRelease(frames, frame))
  {
    forall t | t in tables ensures t % PAGE == 0 && InUse(AfterRelease(frames, frame), t) {
      assert t == t / PAGE * PAGE && frame == frame / PAGE * PAGE;
    }
  }

  /** A table is created: the tree and the bitmap stay sound. */
  lemma CreateKeepsGood(s: Space, root: nat, t: nat, i: nat, frame: nat, flags: nat)
    requires Good(s, root) && HasEntry(s, t, i) && !IsPresent(s.tables[t][i]) && TableFlags(flags)
    requires frame % PAGE == 0 && frame / PAGE == Lowest(s.frames)
    ensures frame !in s.tables && CanCreate(s.tables, s.places, root, t, i, frame, flags)
    ensures Good(Space(NewTables(s.tables, t, i, frame, flags), NewPlaces(s.places, t, i, frame), Take(s.frames, 1)),
                 root)
  {
    NewTableUsed(s.tables, NewTables(s.tables, t, i, frame, flags), s.frames, frame);
    CreateKeepsTree(s.tables, s.places, root, t, i, frame, flags);
    assert Take(s.frames, 0) == s.frames;
  }

  /** A present entry above the leaf tables has bits 7 and 63 clear, and leads to a table, other than the root,
      whose frame is marked used. */
  lemma EntriesAboveLeaves(s: Space, root: nat, t: nat, i: nat)
    requires Good(s, root) && t in s.tables && t in s.places && |s.places[t]| < DEPTH && i < |s.tables[t]|
    requires IsPresent(s.tables[t][i])
    ensures !Bit(s.tables[t][i], PAT_BIT) && !Bit(s.tables[t][i], XD_BIT)
    ensures FrameOf(s.tables[t][i]) in s.tables && FrameOf(s.tables[t][i]) != root
            && InUse(s.frames, FrameOf(s.tables[t][i]))
  {
    assert Inner(s.tables, s.places, t);
    assert Leads(s.tables, s.places, t, i);
  }

  /** In every state that satisfies the invariant each table is reached from the root by one sequence of indices. */
  lemma TablesAreTree(s: Space, root: nat, t: nat, path: seq<nat>)
    requires Good(s, root) && t in s.tables && |path| <= DEPTH
    ensures |s.places[t]| <= DEPTH && (Walk(s.tables, root, path) == t <==> path == s.places[t]) && InUse(s.frames, t)
  {
    assert TableOK(s.tables, t);
    ReachedByOnePath(s.tables, s.places, root, t, path);
  }

  // ---------- runs of changes ----------

  /** The changes that the operations are made of: a table is created, a leaf entry is written (releasing the frame
      it displaces), a frame is handed out, a frame is released. */
  datatype Change =
    | Create(t: nat, i: nat, flags: nat)
    | Write(t: nat, i: nat, phys: nat, raw: nat)
    | HandOut
    | GiveBack(frame: nat)

  /** No frame that is released holds a table; everything else is as the code does it. */
  ghost predicate Changed(s: Space, c: Change, s': Space) {
    match c
    case Create(t, i, flags) =>
      && HasEntry(s, t, i) && !IsPresent(s.tables[t][i]) && TableFlags(flags) && Lowest(s.frames) >= 0
      && var frame := Lowest(s.frames) * PAGE;
      s' == Space(NewTables(s.tables, t, i, frame, flags), NewPlaces(s.places, t, i, frame), Take(s.frames, 1))
    case Write(t, i, phys, raw) =>
      && t in s.places && t in s.tables && |s.places[t]| == DEPTH && i < ENTRIES == |s.tables[t]| && raw < W64
      && (Displaces(s.tables[t][i], phys) ==> FrameOf(s.tables[t][i]) !in s.tables)
      && s' == MapEntry(s, t, i, phys, raw)
    case HandOut => s' == s.(frames := Take(s.frames, 1))
    case GiveBack(frame) => frame % PAGE == 0 && frame !in s.tables && s' == s.(frames := AfterRelease(s.frames, frame))
  }

  lemma ChangeKeepsGood(s: Space, c: Change, s': Space, root: nat)
    requires Good(s, root) && Changed(s, c, s')
    ensures Good(s', root)
  {
    match c {
      case Create(t, i, flags) => CreateKeepsGood(s, root, t, i, Lowest(s.frames) * PAGE, flags);
      case Write(t, i, phys, raw) => WriteKeepsGood(s, root, t, i, phys, raw);
      case HandOut => TakeKeepsTables(s.tables, s.frames);
      case GiveBack(frame) => ReleaseKeepsTables(s.tables, s.frames, frame);
    }
  }

  lemma WriteKeepsGood(s: Space, root: nat, t: nat, i: nat, phys: nat, raw: nat)
    requires Good(s, root) && t in s.places && t in s.tables && |s.places[t]| == DEPTH
             && i < ENTRIES == |s.tables[t]| && raw < W64
    requires Displaces(s.tables[t][i], phys) ==> FrameOf(s.tables[t][i]) !in s.tables
    ensures Good(MapEntry(s, t, i, phys, raw), root)
  {
    SetKeepsTree(s.tables, s.places, root, t, i, raw);
    FrameBits(s.tables[t][i]);
    if Displaces(s.tables[t][i], phys) { ReleaseKeepsTables(s.tables, s.frames, FrameOf(s.tables[t][i])); }
  }

  lemma TakeKeepsTables(tables: Tables, frames: seq<bool>)
    requires TablesUsed(tables, frames)
    ensures TablesUsed(tables, Take(frames, 1))
  {
    assert Take(frames, 0) == frames;
    forall t | t in tables ensures InUse(Take(frames, 1), t) {
      assert InUse(frames, t);
    }
  }

  ghost predicate Run(states: seq<Space>, changes: seq<Change>) {
    && |states| == |changes| + 1
    && forall k :: 0 <= k < |changes| ==> Changed(states[k], changes[k], states[k + 1])
  }

  lemma {:induction false} RunIsGood(states: seq<Space>, changes: seq<Change>, root: nat, k: nat)
    requires Run(states, changes) && Good(states[0], root) && k < |states|
    ensures Good(states[k], root)
  {
    if k > 0 {
      RunIsGood(states, changes, root, k - 1);
      ChangeKeepsGood(states[k - 1], changes[k - 1], states[k], root);
    }
  }

  /** After every change of every run, also in the middle of an operation that panics later: each table is reached
      by one sequence of indices only, and lies in a frame that is marked used. */
  lemma TreeInEveryRun(states: seq<Space>, changes: seq<Change>, root: nat, k: nat, t: nat, path: seq<nat>)
    requires Run(states, changes) && Good(states[0], root) && k < |states| && t in states[k].tables && |path| <= DEPTH
    ensures t in states[k].places && (Walk(states[k].tables, root, path) == t <==> path == states[k].places[t])
    ensures InUse(states[k].frames, t)
  {
    RunIsGood(states, changes, root, k);
    TablesAreTree(states[k], root, t, path);
  }

  // ---------- what changes lead to ----------

  ghost predicate Chain(s: Space, s': Space, states: seq<Space>, changes: seq<Change>) {
    Run(states, changes) && states[0] == s && states[|changes|] == s'
  }

  /** A run of changes leads from s to s'. */
  ghost predicate Reaches(s: Space, s': Space) {
    exists states, changes :: Chain(s, s', states, changes)
  }

  lemma ReachesSelf(s: Space)
    ensures Reaches(s, s)
  {
    assert Chain(s, s, [s], []);
  }

  lemma ReachesOne(s: Space, c: Change, s': Space)
    requires Changed(s, c, s')
    ensures Reaches(s, s')
  {
    assert Chain(s, s', [s, s'], [c]);
  }

  lemma ChainJoin(s: Space, s1: Space, s2: Space, states: seq<Space>, changes: seq<Change>,
                  states': seq<Space>, changes': seq<Change>)
    requires Chain(s, s1, states, changes) && Chain(s1, s2, states', changes')
    ensures Chain(s, s2, states + states'[1..], changes + changes')
  {
    var ss, cs, n := states + states'[1..], changes + changes', |changes|;
    forall k | 0 <= k < |cs| ensures Changed(ss[k], cs[k], ss[k + 1]) {
      if k < n {
        assert Changed(states[k], changes[k], states[k + 1]);
      } else {
        assert Changed(states'[k - n], changes'[k - n], states'[k - n + 1]);
        assert ss[k] == states'[k - n];
      }
    }
  }

  lemma ReachesFurther(s: Space, s1: Space, s2: Space)
    requires Reaches(s, s1) && Reaches(s1, s2)
    ensures Reaches(s, s2)
  {
    var states, changes :| Chain(s, s1, states, changes);
    var states', changes' :| Chain(s1, s2, states', changes');
    ChainJoin(s, s1, s2, states, changes, states', changes');
  }

  /** What is reached from a sound state is sound. */
  lemma ReachesGood(s: Space, s': Space, root: nat)
    requires Good(s, root) && Reaches(s, s')
    ensures Good(s', root)
  {
    var states, changes :| Chain(s, s', states, changes);
    RunIsGood(states, changes, root, |changes|);
  }

  lemma ReleaseReaches(s: Space, frame: nat)
    ensures Reaches(s, s)
    ensures frame % PAGE == 0 && frame !in s.tables ==> Reaches(s, s.(frames := AfterRelease(s.frames, frame)))
  {
    ReachesSelf(s);
    if frame % PAGE == 0 && frame !in s.tables {
      ReachesOne(s, GiveBack(frame), s.(frames := AfterRelease(s.frames, frame)));
    }
  }
}
