/** src/paging.c: the frame bitmap, page tables and page directories as one mutable memory of
    objects. A page table or directory is named by its address; address 0 is the null pointer,
    and `kmalloc_ap` is a supply of addresses no live object has. */
module Paging {
  import opened Memory
  import opened Frames
  import opened PageTables

  datatype MapResult = PageMapped | AlreadyPresent | OutOfMemory

  class AddressSpaces {
    const bitmap: FrameBitmap
    const kernel: int
    var tables: Tables
    var dirs: Dirs
    var phys: seq<seq<Byte>>
    var next: int
    ghost var home: Homes
    ghost var owner: Owners

    ghost predicate Valid()
      reads this, bitmap, bitmap.words
    {
      Consistent() && UserOk(tables, home, kernel)
    }

    /** Everything but that the pages of a process are open to user code. */
    ghost predicate Consistent()
      reads this, bitmap, bitmap.words
    {
      && bitmap.Valid() && |phys| == bitmap.nframes
      && (forall f :: 0 <= f < |phys| ==> |phys[f]| == PAGE_SIZE)
      && TablesOk(tables, next) && DirsShaped(dirs, kernel, next)
      && LinksOk(tables.Keys, dirs, home, kernel) && HomesOk(tables.Keys, dirs, home)
      && OwnersOk(tables, owner, bitmap.nframes) && owner.Keys == bitmap.Used()
    }

    /** The kernel directory at boot: no tables yet. */
    constructor (nframes: nat, contents: seq<seq<Byte>>)
      requires |contents| == nframes && forall f :: 0 <= f < nframes ==> |contents[f]| == PAGE_SIZE
      ensures Valid() && fresh(bitmap) && fresh(bitmap.words) && bitmap.nframes == nframes
      ensures dirs.Keys == {kernel} && tables == map[] && phys == contents
    {
      bitmap := new FrameBitmap(nframes);
      kernel, next := 1, 2;
      tables, dirs, phys := map[], map[1 := seq(ENTRIES, _ => 0)], contents;
      home, owner := map[], map[];
    }

    /** Page n of directory d is present and open to user code, in a private table or a shared one. */
    predicate UserPage(d: int, n: nat)
      reads this
    {
      && d in dirs && n / ENTRIES < |dirs[d]|
      && var t := dirs[d][n / ENTRIES];
      && t != 0 && t in tables && n % ENTRIES < |tables[t]| && tables[t][n % ENTRIES].present
      && tables[t][n % ENTRIES].user
    }

    // -------------------------------------------------------------- single entries

    /** get_page(make = 1) on an empty slot: attach a fresh zeroed table. */
    method NewTable(d: int, k: nat) returns (t: int)
      requires Valid() && d in dirs && k < ENTRIES && dirs[d][k] == 0
      modifies this`tables, this`dirs, this`next, this`home
      ensures Valid() && t !in old(tables) && t != 0
      ensures tables == old(tables)[t := BlankTable()] && dirs == old(dirs)[d := old(dirs)[d][k := t]]
      ensures home == old(home)[t := Home(d, k)]
    {
      hide LinksOk, HomesOk, OwnersOk, UserOk, TablesOk, DirsShaped, BlankTable;
      t := next;
      DirsAreShaped(dirs, kernel, next);
      HomesAreTables(tables, dirs, home, next);
      ShapeNewTable(tables, dirs, kernel, next, d, k);
      LinksNewTable(tables.Keys, dirs, home, kernel, d, k, t);
      HomesNewTable(tables.Keys, dirs, home, d, k, t);
      OwnersNewTable(tables, owner, bitmap.nframes, t, BlankTable());
      UserNewTable(tables, home, kernel, t, Home(d, k));
      assert tables[t := BlankTable()].Keys == tables.Keys + {t};
      tables := tables[t := BlankTable()];
      dirs := dirs[d := dirs[d][k := t]];
      home := home[t := Home(d, k)];
      next := next + 1;
    }

    /** alloc_frame; false is the out-of-memory PANIC. */
    method AllocFrame(t: int, i: nat, isKernel: bool, isWriteable: bool) returns (ok: bool)
      requires Valid() && t in tables && i < ENTRIES
      modifies this`tables, this`owner, bitmap.words
      ensures !ok <==> !old(tables)[t][i].present && old(bitmap.Full())
      ensures Consistent() && (!isKernel || old(tables)[t][i].present || !ok || home[t].dir == kernel ==> Valid())
      ensures !ok || old(tables)[t][i].present ==>
                tables == old(tables) && owner == old(owner) && bitmap.Used() == old(bitmap.Used())
      ensures ok && !old(tables)[t][i].present ==>
                var f := tables[t][i].frame;
                var p := old(tables)[t][i].(present := true, rw := isWriteable, user := !isKernel, frame := f);
                && tables == old(tables)[t := old(tables)[t][i := p]]
                && f !in old(owner) && owner == old(owner)[f := Entry(t, i)]
                && bitmap.Used() == old(bitmap.Used()) + {f}
                && f < |phys|
    {
      hide FrameBitmap.Valid, FrameBitmap.Used, LinksOk, HomesOk, OwnersOk, UserOk, TablesOk, DirsShaped;
      HomesAreTables(tables, dirs, home, next);
      if tables[t][i].present { return true; }
      var f := bitmap.FirstFrame();
      if f == -1 { return false; }
      bitmap.SetFrame(f);
      var p := tables[t][i].(present := true, rw := isWriteable, user := !isKernel, frame := f);
      OwnersGain(tables, owner, bitmap.nframes, t, i, p);
      TablePut(tables, next, t, i, p);
      if !isKernel || home[t].dir == kernel { UserPut(tables, home, kernel, t, i, p); }
      tables := tables[t := tables[t][i := p]];
      owner := owner[f := Entry(t, i)];
      return true;
    }

    /** free_frame. */
    method FreeFrame(t: int, i: nat)
      requires Valid() && t in tables && i < ENTRIES
      modifies this`tables, this`owner, bitmap.words
      ensures Valid()
      ensures !old(tables)[t][i].present ==>
                tables == old(tables) && owner == old(owner) && bitmap.Used() == old(bitmap.Used())
      ensures old(tables)[t][i].present ==>
                var f := old(tables)[t][i].frame;
                && tables == old(tables)[t := old(tables)[t][i := Page(false, true, false, false, false, 0)]]
                && owner == old(owner) - {f} && bitmap.Used() == old(bitmap.Used()) - {f}
    {
      hide LinksOk, HomesOk, OwnersOk, UserOk, TablesOk, DirsShaped;
      HomesAreTables(tables, dirs, home, next);
      if !tables[t][i].present { return; }
      FrameInRange(tables, owner, bitmap.nframes, t, i);
      var f := tables[t][i].frame;
      bitmap.ClearFrame(f);
      var p := Page(false, true, false, false, false, 0);
      OwnersLose(tables, owner, bitmap.nframes, t, i, p);
      TablePut(tables, next, t, i, p);
      UserPut(tables, home, kernel, t, i, p);
      tables := tables[t := tables[t][i := p]];
      owner := owner - {f};
    }

    // -------------------------------------------------------------- cloning

    method NewDirectory() returns (d: int)
      requires Valid()
      modifies this`dirs, this`next
      ensures Valid() && d !in old(dirs) && dirs == old(dirs)[d := seq(ENTRIES, _ => 0)]
    {
      hide OwnersOk, UserOk;
      d := next;
      dirs := dirs[d := seq(ENTRIES, _ => 0)];
      next := next + 1;
    }

    /** Change the flags of an entry, keeping its frame. */
    method SetFlags(t: int, i: nat, p: Page)
      requires Valid() && t in tables && i < |tables[t]|
      requires p.present == tables[t][i].present && p.frame == tables[t][i].frame && (tables[t][i].user ==> p.user)
      modifies this`tables
      ensures Valid() && tables == old(tables)[t := old(tables)[t][i := p]]
    {
      hide OwnersOk, UserOk, LinksOk, HomesOk;
      OwnersFlags(tables, owner, bitmap.nframes, t, i, p);
      UserFlags(tables, home, kernel, t, i, p);
      assert tables[t := tables[t][i := p]].Keys == tables.Keys;
      tables := tables[t := tables[t][i := p]];
    }

    /** copy_page_physical. */
    method CopyFrame(from: nat, to: nat)
      requires Valid() && from < |phys| && to < |phys|
      modifies this`phys
      ensures Valid() && phys == old(phys)[to := old(phys)[from]]
    {
      hide OwnersOk, UserOk, LinksOk, HomesOk;
      phys := phys[to := phys[from]];
    }

    /** Copy one present entry into an empty entry of a new table: its own frame, the same flags
        (`user` forced on by alloc_frame) and the same bytes. False is the out-of-memory PANIC. */
    method CloneEntry(src: int, i: nat, t: int) returns (ok: bool, f: nat)
      requires Valid() && src in tables && t in tables && src != t && i < ENTRIES
      requires tables[src][i].present && tables[t][i] == ABSENT && tables[src][i].frame < |phys|
      modifies this`tables, this`owner, this`phys, bitmap.words
      ensures !ok ==> bitmap.Valid() && bitmap.Full()
      ensures ok ==> Valid() && f !in old(owner) && f < |old(phys)| && owner == old(owner)[f := Entry(t, i)]
      ensures ok ==> tables == old(tables)[t := old(tables)[t][i := old(tables)[src][i].(user := true, frame := f)]]
      ensures ok ==> phys == old(phys)[f := old(phys)[old(tables)[src][i].frame]]
    {
      hide OwnersOk, UserOk, LinksOk, HomesOk;
      ghost var tables0 := tables;
      ok := AllocFrame(t, i, false, false);
      if !ok { return ok, 0; }
      var from, to := tables[src][i], tables[t][i];
      assert from == tables0[src][i];
      f := to.frame;
      var p := to.(rw := from.rw || to.rw, user := from.user || to.user,
                   accessed := from.accessed || to.accessed, dirty := from.dirty || to.dirty);
      SetFlags(t, i, p);
      CopyFrame(from.frame, f);
      assert p == from.(user := true, frame := f);
      PutTwice(tables0, t, i, to, p);
    }

    /** clone_table: a fresh table linked at slot k of directory d, then every present entry. */
    method CloneTable(src: int, d: int, k: nat) returns (ok: bool, t: int)
      requires Valid() && src in tables && d in dirs && k < ENTRIES && dirs[d][k] == 0
      modifies this`tables, this`dirs, this`next, this`home, this`owner, this`phys, bitmap.words
      ensures !ok ==> bitmap.Valid() && bitmap.Full()
      ensures ok ==> Valid() && t !in old(tables) && t in tables && dirs == old(dirs)[d := old(dirs)[d][k := t]]
      ensures ok ==>
                t != 0 && t !in old(home) && home == old(home)[t := Home(d, k)] && tables.Keys == old(tables).Keys + {t}
      ensures ok ==> Kept(old(tables), tables, old(owner), owner, old(phys), phys)
      ensures ok ==> OwnedBy(old(owner), owner, t)
      ensures ok ==> SameEntries(old(tables)[src], tables[t], phys, ENTRIES)
    {
      hide LinksOk, OwnersOk, UserOk, SameEntries;
      ghost var tables0 := tables;
      t := NewTable(d, k);
      ok := CloneEntries(src, t, tables0);
    }

    method CloneEntries(src: int, t: int, ghost tables0: Tables) returns (ok: bool)
      requires Valid() && t !in tables0 && src in tables0 && tables == tables0[t := BlankTable()]
      modifies this`tables, this`owner, this`phys, bitmap.words
      ensures !ok ==> bitmap.Valid() && bitmap.Full()
      ensures ok ==> Valid() && t in tables && tables.Keys == tables0.Keys + {t}
      ensures ok ==> Kept(tables0, tables, old(owner), owner, old(phys), phys) && OwnedBy(old(owner), owner, t)
      ensures ok ==> SameEntries(tables0[src], tables[t], phys, ENTRIES)
    {
      hide LinksOk, HomesOk, SameEntries, SameEntry, OwnersOk, UserOk, OwnedBy, BlankFrom, Kept, BlankTable;
      ghost var owner0, phys0 := owner, phys;
      assert tables[src] == tables0[src];
      CloneStart(tables0, tables, owner0, phys0, src, t);
      var i := 0;
      while i < ENTRIES
        invariant i <= ENTRIES && Valid() && t in tables
        invariant tables.Keys == tables0.Keys + {t}
        invariant Kept(tables0, tables, owner0, owner, phys0, phys) && OwnedBy(owner0, owner, t)
        invariant SameEntries(tables0[src], tables[t], phys, i)
        invariant BlankFrom(tables[t], i)
      {
        KeptIn(tables0, tables, owner0, owner, phys0, phys, src);
        if tables[src][i].present {
          BlankAt(tables[t], i);
          ghost var tables1, owner1, phys1 := tables, owner, phys;
          FrameInRange(tables, owner, bitmap.nframes, src, i);
          var f;
          ok, f := CloneEntry(src, i, t);
          if !ok { return; }
          CloneStep(tables0, tables1, tables, owner0, owner1, owner, phys0, phys1, phys, bitmap.nframes, src, t, i, f);
        } else {
          SkipStep(tables0[src], tables[t], phys, i);
        }
        i := i + 1;
      }
      ok := true;
    }

    /** Point slot k of directory d at the kernel's table for that slot. */
    method ShareTable(d: int, k: nat)
      requires Valid() && d in dirs && k < ENTRIES && dirs[d][k] == 0 && dirs[kernel][k] != 0
      modifies this`dirs
      ensures Valid() && dirs == old(dirs)[d := old(dirs)[d][k := old(dirs)[kernel][k]]]
    {
      hide OwnersOk, UserOk;
      dirs := dirs[d := dirs[d][k := dirs[kernel][k]]];
    }

    /** clone_directory, slot by slot: kernel tables are shared, every other table is copied page by page. */
    method CopyDirectory(src: int) returns (ok: bool, d: int)
      requires Valid() && src in dirs
      modifies this`tables, this`dirs, this`next, this`home, this`owner, this`phys, bitmap.words
      ensures !ok ==> bitmap.Valid() && bitmap.Full()
      ensures ok ==> Valid() && d !in old(dirs) && d in dirs && dirs == old(dirs)[d := dirs[d]]
      ensures ok ==> Kept(old(tables), tables, old(owner), owner, old(phys), phys)
      ensures ok ==> Gained(old(home), home, old(owner), owner, d)
      ensures ok ==> ClonedSlots(old(tables), tables, phys, old(dirs)[src], dirs[d], dirs[kernel], ENTRIES)
    {
      hide LinksOk, HomesOk, OwnersOk, UserOk, TablesOk, SameEntries, Kept, Gained, OwnedBy;
      ghost var tables0, dirs0, home0, owner0, phys0 := tables, dirs, home, owner, phys;
      d := NewDirectory();
      KeptSelf(tables0, owner0, phys0, home0, d, dirs0, bitmap.nframes);
      LinkedTables(tables0.Keys, dirs0, home0, kernel, src);
      var k := 0;
      while k < ENTRIES
        invariant k <= ENTRIES && Valid() && d in dirs && d !in dirs0 && src in dirs0 && dirs == dirs0[d := dirs[d]]
        invariant forall j :: k <= j < ENTRIES ==> dirs[d][j] == 0
        invariant Kept(tables0, tables, owner0, owner, phys0, phys) && Gained(home0, home, owner0, owner, d)
        invariant ClonedSlots(tables0, tables, phys, dirs0[src], dirs[d], dirs[kernel], k)
      {
        var s := dirs[src][k];
        if s != 0 {
          if dirs[kernel][k] == s {
            ShareTable(d, k);
          } else {
            ghost var tables1, dirs1, home1, owner1, phys1 := tables, dirs, home, owner, phys;
            KeptIn(tables0, tables, owner0, owner, phys0, phys, s);
            var t;
            ok, t := CloneTable(s, d, k);
            if !ok { return; }
            KeptTrans(tables0, tables1, tables, owner0, owner1, owner, phys0, phys1, phys);
            GainedStep(home0, home1, home, owner0, owner1, owner, tables1, tables, phys1, phys, t, d, k);
            ClonedSlotsKept(tables0, tables1, tables, owner0, owner1, owner, phys0, phys1, phys, dirs0[src], dirs1[d],
                            dirs[d], dirs[kernel], bitmap.nframes, k, t);
          }
        }
        k := k + 1;
      }
      ok := true;
    }

    // -------------------------------------------------------------- destruction

    /** Free every frame that table t maps. */
    method FreeEntries(t: int)
      requires Valid() && t in tables
      modifies this`tables, this`owner, bitmap.words
      ensures Valid() && t in tables && tables == old(tables)[t := tables[t]]
      ensures AllAbsent(tables[t]) && WithoutTable(old(owner), owner, t)
    {
      hide LinksOk, HomesOk, OwnersOk, UserOk, TablesOk, DirsShaped;
      HomesAreTables(tables, dirs, home, next);
      ghost var tables0, owner0 := tables, owner;
      var i := 0;
      while i < ENTRIES
        invariant i <= ENTRIES && Valid() && t in tables && |tables[t]| == ENTRIES && tables == tables0[t := tables[t]]
        invariant forall j :: 0 <= j < i ==> !tables[t][j].present
        invariant forall j :: i <= j < ENTRIES ==> tables[t][j] == tables0[t][j]
        invariant forall f :: f in owner ==> f in owner0 && owner[f] == owner0[f]
        invariant forall f :: f in owner0 && f !in owner ==> owner0[f].table == t
      {
        if tables[t][i].present { FrameInRange(tables, owner, bitmap.nframes, t, i); }
        FreeFrame(t, i);
        i := i + 1;
      }
      NoneLeft(tables, owner, bitmap.nframes, t);
    }

    /** kfree of a private table. Its slot is cleared with it: the directory object is about to go. */
    method DropTable(d: int, k: nat)
      requires Valid() && d in dirs && d != kernel && k < ENTRIES && dirs[d][k] != 0 && dirs[d][k] != dirs[kernel][k]
      requires AllAbsent(tables[dirs[d][k]])
      modifies this`tables, this`dirs, this`home
      ensures Valid() && dirs == old(dirs)[d := old(dirs)[d][k := 0]]
      ensures tables == old(tables) - {old(dirs)[d][k]} && home == old(home) - {old(dirs)[d][k]}
    {
      hide OwnersOk, UserOk, LinksOk, HomesOk, TablesOk, DirsShaped;
      DirsAreShaped(dirs, kernel, next);
      HomesAreTables(tables, dirs, home, next);
      var t := dirs[d][k];
      SlotOwner(tables, dirs, home, kernel, next, d, k);
      OwnersDropTable(tables, owner, bitmap.nframes, t);
      LinksDropTable(tables.Keys, dirs, home, kernel, d, k);
      HomesDropTable(tables.Keys, dirs, home, d, k);
      ShapeDropTable(tables, dirs, kernel, next, d, k, t);
      UserDropTable(tables, home, kernel, t);
      assert (tables - {t}).Keys == tables.Keys - {t};
      tables := tables - {t};
      home := home - {t};
      dirs := dirs[d := dirs[d][k := 0]];
    }

    /** destroy_directory, slot by slot: free the frames and tables that d owns, then d itself. */
    method ReleaseDirectory(d: int)
      requires Valid() && d in dirs && d != kernel
      modifies this`tables, this`dirs, this`home, this`owner, bitmap.words
      ensures Valid() && dirs == old(dirs) - {d}
      ensures Shrunk(old(tables), tables, old(home), home, old(owner), owner, d, ENTRIES)
      ensures bitmap.Used() == old(bitmap.Used()) - FramesOf(old(owner), old(home), d)
    {
      hide LinksOk, HomesOk, OwnersOk, UserOk, TablesOk, Shrunk;
      ghost var tables0, dirs0, home0, owner0 := tables, dirs, home, owner;
      ShrunkStart(tables0, home0, owner0, bitmap.nframes, d, dirs0, kernel, next);
      var k := 0;
      while k < ENTRIES
        invariant k <= ENTRIES && Valid() && d in dirs && dirs == dirs0[d := dirs[d]]
        invariant Shrunk(tables0, tables, home0, home, owner0, owner, d, k)
      {
        var t := dirs[d][k];
        ghost var tables1, home1, owner1 := tables, home, owner;
        SlotOwner(tables, dirs, home, kernel, next, d, k);
        if t != 0 && dirs[kernel][k] != t {
          FreeEntries(t);
          DropTable(d, k);
          ShrunkStep(tables0, tables1, tables, home0, home1, home, owner0, owner1, owner, d, k, t);
        } else {
          ShrunkSkip(tables0, tables, home0, home, owner0, owner, d, k);
        }
        k := k + 1;
      }
      DropDirectory(d, tables0, home0, owner0);
    }

    /** kfree of a directory object that owns no table any more. */
    method DropDirectory(d: int, ghost tables0: Tables, ghost home0: Homes, ghost owner0: Owners)
      requires Valid() && d in dirs && d != kernel
      requires Shrunk(tables0, tables, home0, home, owner0, owner, d, ENTRIES)
      modifies this`dirs
      ensures Valid() && dirs == old(dirs) - {d}
      ensures bitmap.Used() == owner0.Keys - FramesOf(owner0, home0, d)
    {
      hide OwnersOk, UserOk;
      dirs := dirs - {d};
    }

    // -------------------------------------------------------------- what a process can see

    /** The private memory of directory d: page number to permission and bytes. */
    ghost function Space(d: int): Space
      reads this
    {
      if d in dirs then SpaceOf(dirs[d], tables, home, phys, d) else map[]
    }

    /** The frames directory d owns. */
    ghost function FramesHeld(d: int): set<nat>
      reads this
    {
      FramesOf(owner, home, d)
    }

    /** The frames of every directory. */
    ghost function HeldBy(): map<int, set<nat>>
      reads this`dirs, this`owner, this`home
    {
      map e | e in dirs :: FramesOf(owner, home, e)
    }

    /** Everything that does not belong to directory d. */
    ghost function Others(d: int): World
      reads this
    {
      Outside(dirs, kernel, tables, home, owner, phys, d)
    }

    /** Every directory's private memory and frames, the frames in use, and the kernel's table slots. */
    ghost function Snapshot(): World
      reads this
    {
      World(map e | e in dirs :: Space(e), map e | e in dirs :: FramesHeld(e), owner.Keys,
            if kernel in dirs then dirs[kernel] else [])
    }

    /** Without directory d there is nothing but the others. */
    lemma OthersAreAll(d: int)
      requires Valid() && d !in dirs
      ensures Others(d) == Snapshot() && FramesHeld(d) == {}
    {
      hide SpaceOf, LinksOk, TablesOk;
    }

    lemma SnapshotFrames()
      ensures Snapshot().frames == HeldBy()
    {
      hide SpaceOf;
    }

    lemma SnapshotHolds()
      requires Valid()
      ensures forall d :: d !in dirs ==> Others(d) == Snapshot() && FramesHeld(d) == {}
      ensures Snapshot().spaces.Keys == dirs.Keys == Snapshot().frames.Keys && Snapshot().reserved == bitmap.Used()
      ensures forall e :: e in dirs ==> Snapshot().spaces[e] == Space(e) && Snapshot().frames[e] == FramesHeld(e)
    {
      hide AddressSpaces.Valid, AddressSpaces.Others, AddressSpaces.Space, AddressSpaces.FramesHeld;
      forall d | d !in dirs ensures Others(d) == Snapshot() && FramesHeld(d) == {} { OthersAreAll(d); }
      SnapshotParts();
    }

    lemma SnapshotParts()
      requires Valid()
      ensures Snapshot().spaces.Keys == dirs.Keys == Snapshot().frames.Keys && Snapshot().reserved == bitmap.Used()
      ensures forall e :: e in dirs ==> Snapshot().spaces[e] == Space(e) && Snapshot().frames[e] == FramesHeld(e)
    {
      hide SpaceOf, LinksOk, TablesOk, HomesOk, OwnersOk, UserOk;
    }

    /** The whole is directory d and the others. */
    lemma SnapshotFrom(d: int)
      requires Valid() && d in dirs
      ensures d !in Others(d).spaces && d !in Others(d).frames
      ensures Snapshot() == Joined(Others(d), d, Space(d), FramesHeld(d))
    {
      hide AddressSpaces.Valid, AddressSpaces.Others, AddressSpaces.Space, AddressSpaces.FramesHeld,
           AddressSpaces.Snapshot;
      OthersHold(d);
      SnapshotParts();
      SharedSlots();
      SnapshotShared();
      var w, all := Joined(Others(d), d, Space(d), FramesHeld(d)), Snapshot();
      assert forall e :: e in dirs ==> e == d || e in dirs.Keys - {d};
      assert w.spaces.Keys == all.spaces.Keys && w.frames.Keys == all.frames.Keys;
      assert forall e :: e in dirs ==> w.spaces[e] == all.spaces[e] && w.frames[e] == all.frames[e];
      assert all.spaces == w.spaces && all.frames == w.frames && all.reserved == w.reserved;
    }

    lemma SnapshotShared()
      requires Valid()
      ensures Snapshot().shared == dirs[kernel]
    {
    }

    /** What Others holds, directory by directory. */
    lemma OthersHold(d: int)
      requires Valid()
      ensures Others(d).spaces.Keys == dirs.Keys - {d} == Others(d).frames.Keys
      ensures forall e ::
                e in dirs.Keys - {d} ==> Others(d).spaces[e] == Space(e) && Others(d).frames[e] == FramesHeld(e)
      ensures Others(d).reserved == bitmap.Used() - FramesHeld(d) && FramesHeld(d) <= bitmap.Used()
    {
      hide SpaceOf, LinksOk, HomesOk, TablesOk, OwnersOk, UserOk;
    }

    lemma OthersHeld(d: int)
      requires Valid()
      ensures Others(d).frames.Keys == HeldBy().Keys - {d} && HeldBy().Keys == dirs.Keys
      ensures forall e :: e in dirs && e != d ==> e in Others(d).frames && Others(d).frames[e] == HeldBy()[e]
      ensures forall e :: e in dirs ==> HeldBy()[e] == FramesHeld(e)
    {
      hide AddressSpaces.Valid, AddressSpaces.Others, AddressSpaces.Space;
      OthersHold(d);
      hide AddressSpaces.FramesHeld;
      assert forall e :: e in dirs && e != d ==> e in dirs.Keys - {d};
    }

    lemma HeldApart(d: int, e: int)
      requires Valid() && d != e
      ensures FramesHeld(d) !! FramesHeld(e)
    {
    }

    lemma SharedSlots()
      requires Valid()
      ensures forall d :: Others(d).shared == dirs[kernel]
    {
    }

    /** The frame behind page n of directory d. */
    ghost function FrameAt(d: int, n: nat): nat
      requires Valid() && d in dirs && n in Space(d)
      reads this, bitmap, bitmap.words
    {
      tables[dirs[d][n / ENTRIES]][n % ENTRIES].frame
    }

    lemma SpaceShaped(d: int)
      requires Valid() && d in dirs
      ensures WholePages(Space(d))
    {
      hide TablesOk, LinksOk, HomesOk, OwnersOk, UserOk;
    }

    /** Two different private present pages, of one directory or of two, never share a frame. */
    lemma NoSharing(d: int, n: nat, d': int, n': nat)
      requires Valid() && d in dirs && d' in dirs && n in Space(d) && n' in Space(d') && (d != d' || n != n')
      ensures FrameAt(d, n) != FrameAt(d', n')
    {
      OwnSlotsOk(tables, next, dirs, home, kernel, d);
      OwnSlotsOk(tables, next, dirs, home, kernel, d');
      FrameInRange(tables, owner, bitmap.nframes, dirs[d][n / ENTRIES], n % ENTRIES);
      FrameInRange(tables, owner, bitmap.nframes, dirs[d'][n' / ENTRIES], n' % ENTRIES);
      hide LinksOk, HomesOk, OwnersOk, UserOk, TablesOk;
      SamePage(n, n');
    }

    lemma FrameIsHeld(d: int, n: nat)
      requires Valid() && d in dirs && n in Space(d)
      ensures FrameAt(d, n) in FramesHeld(d)
    {
      hide LinksOk, HomesOk, TablesOk;
      FrameInRange(tables, owner, bitmap.nframes, dirs[d][n / ENTRIES], n % ENTRIES);
    }

    lemma HeldPage(d: int, f: nat) returns (n: nat)
      requires Valid() && d in dirs && f in FramesHeld(d)
      ensures n in Space(d) && FrameAt(d, n) == f
    {
      var e := owner[f];
      var k, i := home[e.table].slot, e.index;
      assert k < ENTRIES && i < ENTRIES && dirs[d][k] == e.table && |tables[e.table]| == ENTRIES;
      n := k * ENTRIES + i;
      PageNumber(k, i);
      assert tables[e.table][i].present && tables[e.table][i].frame == f;
      hide LinksOk, HomesOk, TablesOk;
      PresentHere(dirs[d], tables, home, owner, bitmap.nframes, phys, d, n);
      hide OwnersOk, UserOk, SpaceOf, FramesOf;
    }

    /** The frames a directory holds are exactly those behind its private present pages. */
    lemma HeldFrames(d: int, f: nat)
      requires Valid() && d in dirs
      ensures f in FramesHeld(d) <==> exists n :: n in Space(d) && FrameAt(d, n) == f
    {
      hide LinksOk, HomesOk, TablesOk, OwnersOk, UserOk, SpaceOf, FramesOf;
      if n :| n in Space(d) && FrameAt(d, n) == f { FrameIsHeld(d, n); }
      if f in FramesHeld(d) { var n := HeldPage(d, f); }
    }

    /** The frames in use are the disjoint union of what the live directories hold. */
    lemma FramesAccounted(f: nat)
      requires Valid()
      ensures f in bitmap.Used() <==> exists d :: d in dirs && f in FramesHeld(d)
      ensures forall d, e :: d in dirs && e in dirs && f in FramesHeld(d) && f in FramesHeld(e) ==> d == e
    {
      if f in bitmap.Used() {
        assert owner[f].table in tables.Keys;
        assert home[owner[f].table].dir in dirs && f in FramesHeld(home[owner[f].table].dir);
      }
    }

    // -------------------------------------------------------------- whole directories

    /** clone_directory: the clone shows what the source shows; cloning the kernel directory gives
        an empty private space. Nothing else changes. False is the out-of-memory PANIC. */
    method CloneDirectory(src: int) returns (ok: bool, d: int)
      requires Valid() && src in dirs
      modifies this`tables, this`dirs, this`next, this`home, this`owner, this`phys, bitmap.words
      ensures !ok ==> bitmap.Valid() && bitmap.Full()
      ensures ok ==> Valid() && d !in old(dirs) && dirs.Keys == old(dirs).Keys + {d}
      ensures ok ==> Space(d) == (if src == kernel then map[] else old(Space(src))) && Others(d) == old(Others(d))
    {
      hide OwnersOk, UserOk, TablesOk, Kept, Gained, ClonedSlots;
      ghost var tables0, dirs0, home0, owner0, phys0 := tables, dirs, home, owner, phys;
      SourceSlots(tables, dirs, home, kernel, next, src);
      hide LinksOk, HomesOk;
      ok, d := CopyDirectory(src);
      if !ok { return; }
      forall e | e in dirs0
        ensures SpaceOf(dirs0[e], tables, home, phys, e) == SpaceOf(dirs0[e], tables0, home0, phys0, e)
        ensures FramesOf(owner, home, e) == FramesOf(owner0, home0, e)
      {
        SpaceKept(dirs0[e], tables0, tables, home0, home, owner0, owner, bitmap.nframes, phys0, phys, d, e);
        FramesKept(home0, home, owner0, owner, d, e);
      }
      HomeNonzero(tables, next, dirs, home);
      FramesGained(home0, home, owner0, owner, d);
      hide FramesOf, Outside, SpaceOf;
      OutsideSame(dirs0, dirs, kernel, tables0, tables, home0, home, owner0, owner, phys0, phys, d);
      if src == kernel {
        EmptyClone(dirs0[src], dirs[d], tables0, tables, home0, home, owner0, owner, phys, d);
      } else {
        SpaceCloned(dirs0[src], dirs[d], dirs[kernel], tables0, tables, home0, home, owner0, owner, phys0, phys, d,
                    src);
      }
    }

    /** destroy_directory: the frames d owned are free again, and nothing else changes. The directory that is
        loaded is never destroyed. */
    method DestroyDirectory(d: int, ghost loaded: int)
      requires Valid() && d in dirs && d != kernel && d != loaded
      modifies this`tables, this`dirs, this`home, this`owner, bitmap.words
      ensures Valid() && dirs.Keys == old(dirs).Keys - {d} && Others(d) == old(Others(d)) && FramesHeld(d) == {}
      ensures bitmap.Used() == old(bitmap.Used()) - old(FramesHeld(d))
    {
      hide OwnersOk, UserOk, TablesOk, LinksOk, HomesOk, Shrunk;
      ghost var tables0, dirs0, home0, owner0 := tables, dirs, home, owner;
      ReleaseDirectory(d);
      forall e | e in dirs0 && e != d
        ensures SpaceOf(dirs0[e], tables, home, phys, e) == SpaceOf(dirs0[e], tables0, home0, phys, e)
        ensures FramesOf(owner, home, e) == FramesOf(owner0, home0, e)
      {
        SpaceSpared(dirs0[e], tables0, tables, home0, home, owner0, owner, phys, d, e);
        FramesSpared(tables0, tables, home0, home, owner0, owner, d, e);
      }
      FramesReleased(tables0, tables, home0, home, owner0, owner, d);
      hide FramesOf, Outside, SpaceOf;
      OutsideSame(dirs0, dirs, kernel, tables0, tables, home0, home, owner0, owner, phys, phys, d);
    }

    // -------------------------------------------------------------- single pages

    /** get_page: the table for page n of directory d, made when it is asked for and there is none; 0 is no table. */
    method GetPage(d: int, n: nat, make: bool) returns (t: int)
      requires Valid() && d in dirs && n < ENTRIES * ENTRIES
      modifies this`tables, this`dirs, this`next, this`home
      ensures Valid() && dirs.Keys == old(dirs).Keys && t == dirs[d][n / ENTRIES]
      ensures t != 0 <==> make || old(dirs)[d][n / ENTRIES] != 0
      ensures t == old(dirs)[d][n / ENTRIES] ==> dirs == old(dirs) && tables == old(tables) && home == old(home)
      ensures t != old(dirs)[d][n / ENTRIES] ==> t !in old(tables) && tables == old(tables)[t := BlankTable()]
      ensures t != 0 ==>
                t in tables && t in home && home[t].slot == n / ENTRIES && (home[t].dir == d || home[t].dir == kernel)
      ensures t != 0 && d != kernel && old(dirs)[kernel][n / ENTRIES] == 0 ==> home[t] == Home(d, n / ENTRIES)
      ensures forall e :: e in dirs ==> Space(e) == old(Space(e)) && FramesHeld(e) == old(FramesHeld(e))
      ensures d != kernel ==> Others(d) == old(Others(d))
    {
      hide OwnersOk, UserOk, LinksOk, HomesOk, TablesOk, DirsShaped, FramesOf, Outside, SpaceOf, BlankTable;
      DirsAreShaped(dirs, kernel, next);
      HomesAreTables(tables, dirs, home, next);
      t := dirs[d][n / ENTRIES];
      if t == 0 && make {
        ghost var tables0, dirs0, home0 := tables, dirs, home;
        OwnedTables(tables, owner, bitmap.nframes, home);
        t := NewTable(d, n / ENTRIES);
        forall e | e in dirs
          ensures Space(e) == SpaceOf(dirs0[e], tables0, home0, phys, e) && FramesHeld(e) == FramesOf(owner, home0, e)
        {
          SpaceNewTable(dirs0[e], dirs[e], tables0, home0, phys, e, d, t, n / ENTRIES);
          FramesNewTable(owner, home0, e, d, t, n / ENTRIES);
        }
        if d != kernel {
          OutsideSame(dirs0, dirs, kernel, tables0, tables, home0, home, owner, owner, phys, phys, d);
        }
      } else if t != 0 {
        SlotLinks(tables.Keys, dirs, home, kernel, d, n / ENTRIES);
        if d != kernel { SlotOwner(tables, dirs, home, kernel, next, d, n / ENTRIES); }
      }
    }

    /** `alloc_frame(page, 0, 1); zero_page_physical(page->frame)` on entry i of table t. False is the
        out-of-memory PANIC. */
    method ZeroEntry(t: int, i: nat) returns (ok: bool, f: nat)
      requires Valid() && t in tables && i < ENTRIES
      modifies this`tables, this`owner, this`phys, bitmap.words
      ensures !ok ==> bitmap.Valid() && bitmap.Full()
      ensures ok ==> Valid() && f < |old(phys)| && phys == old(phys)[f := ZeroFrame()] && |tables[t]| == ENTRIES
      ensures ok && old(tables)[t][i].present ==>
                f == old(tables)[t][i].frame && tables == old(tables) && owner == old(owner)
      ensures ok && !old(tables)[t][i].present ==> f !in old(owner) && owner == old(owner)[f := Entry(t, i)]
      ensures ok && !old(tables)[t][i].present ==>
                var p := old(tables)[t][i].(present := true, rw := true, user := true, frame := f);
                tables == old(tables)[t := old(tables)[t][i := p]]
    {
      hide OwnersOk, UserOk, LinksOk, HomesOk, ZeroFrame;
      ok := AllocFrame(t, i, false, true);
      if !ok { return ok, 0; }
      FrameInRange(tables, owner, bitmap.nframes, t, i);
      f := tables[t][i].frame;
      phys := phys[f := ZeroFrame()];
    }

    /** An absent page of d becomes a zeroed writable one; a present page is zeroed. False is the
        out-of-memory PANIC. */
    method AttachZeroed(d: int, n: nat) returns (ok: bool)
      requires Valid() && d in dirs && n < ENTRIES * ENTRIES
      requires dirs[d][n / ENTRIES] in home && home[dirs[d][n / ENTRIES]] == Home(d, n / ENTRIES)
      modifies this`tables, this`owner, this`phys, bitmap.words
      ensures !ok ==> bitmap.Valid() && bitmap.Full()
      ensures ok ==> Valid() && Others(d) == old(Others(d))
      ensures ok ==>
                Space(d) ==
                  old(Space(d))[n := View(if n in old(Space(d)) then old(Space(d))[n].rw else true, ZeroFrame())]
    {
      hide OwnersOk, UserOk, LinksOk, ZeroFrame;
      ghost var tables0, owner0, phys0 := tables, owner, phys;
      var t, i := dirs[d][n / ENTRIES], n % ENTRIES;
      OwnSlotsOk(tables, next, dirs, home, kernel, d);
      assert t in tables.Keys;
      PresentHere(dirs[d], tables, home, owner, bitmap.nframes, phys, d, n);
      var f;
      ok, f := ZeroEntry(t, i);
      if !ok { return; }
      hide HomesOk, TablesOk;
      FrameInRange(tables, owner, bitmap.nframes, t, i);
      SpaceChanged(dirs[d], tables0, tables, home, owner, bitmap.nframes, phys0, phys, d, n, f);
      forall e | e in dirs.Keys - {d}
        ensures SpaceOf(dirs[e], tables, home, phys, e) == SpaceOf(dirs[e], tables0, home, phys0, e)
      {
        SpaceElsewhere(dirs[e], tables0, tables, home, owner, bitmap.nframes, phys0, phys, e, d, t, f);
      }
      FramesGain(owner0, owner, home, f, t, i, d);
      hide FramesOf, Outside, SpaceOf;
      OutsideSame(dirs, dirs, kernel, tables0, tables, home, home, owner0, owner, phys0, phys, d);
    }

    /** `page->rw = writable`. */
    method SetWritable(d: int, n: nat, writable: bool)
      requires Valid() && d in dirs && n in Space(d)
      modifies this`tables
      ensures Valid() && Others(d) == old(Others(d))
      ensures Space(d) == old(Space(d))[n := old(Space(d))[n].(rw := writable)]
    {
      hide OwnersOk, UserOk, LinksOk, HomesOk;
      ghost var tables0 := tables;
      var t, i := dirs[d][n / ENTRIES], n % ENTRIES;
      var p := tables[t][i].(rw := writable);
      OwnSlotsOk(tables, next, dirs, home, kernel, d);
      SetFlags(t, i, p);
      SpaceChanged(dirs[d], tables0, tables, home, owner, bitmap.nframes, phys, phys, d, n, p.frame);
      FrameInRange(tables, owner, bitmap.nframes, t, i);
      forall e | e in dirs && e != d ensures Space(e) == SpaceOf(dirs[e], tables0, home, phys, e) {
        SpaceElsewhere(dirs[e], tables0, tables, home, owner, bitmap.nframes, phys, phys, e, d, t, p.frame);
      }
      hide FramesOf, Outside, SpaceOf;
      OutsideSame(dirs, dirs, kernel, tables0, tables, home, home, owner, owner, phys, phys, d);
    }

    /** What the processor asks of a store by user code: a present user page, in a private table or a shared one, that
        is writable. */
    predicate UserWritable(d: int, n: nat)
      reads this
    {
      UserPage(d, n) && tables[dirs[d][n / ENTRIES]][n % ENTRIES].rw
    }

    /** Where the kernel has no table, user code may use exactly the pages of the directory, and write the writable
        ones. */
    lemma UserPages(d: int, n: nat)
      requires Valid() && d in dirs && d != kernel && n < ENTRIES * ENTRIES && dirs[kernel][n / ENTRIES] == 0
      ensures UserPage(d, n) <==> n in Flags(d)
      ensures UserWritable(d, n) <==> n in Flags(d) && Flags(d)[n]
    {
      hide OwnersOk, UserOk, LinksOk, HomesOk, TablesOk;
      Walk(d, n);
    }

    /** Whether page n of directory d is present, where the kernel has no table. */
    method PagePresent(d: int, n: nat) returns (ok: bool)
      requires Valid() && d in dirs && d != kernel && n < ENTRIES * ENTRIES && dirs[kernel][n / ENTRIES] == 0
      ensures ok <==> n in Flags(d)
    {
      hide OwnersOk, UserOk, LinksOk, HomesOk, TablesOk;
      Walk(d, n);
      var s := dirs[d][n / ENTRIES];
      ok := s != 0 && tables[s][n % ENTRIES].present;
    }

    lemma Walk(d: int, n: nat)
      requires Valid() && d in dirs && d != kernel && n < ENTRIES * ENTRIES
      ensures |dirs[d]| == ENTRIES == |dirs[kernel]| && n / ENTRIES < ENTRIES
      ensures var s := dirs[d][n / ENTRIES];
              && (s != 0 ==> s in tables && |tables[s]| == ENTRIES)
              && (n in Space(d) <==> s != 0 && s != dirs[kernel][n / ENTRIES] && tables[s][n % ENTRIES].present)
              && (n in Space(d) ==> Space(d)[n].rw == tables[s][n % ENTRIES].rw && tables[s][n % ENTRIES].user)
    {
      var s, i := dirs[d][n / ENTRIES], n % ENTRIES;
      SlotOwner(tables, dirs, home, kernel, next, d, n / ENTRIES);
      if s != 0 && tables[s][i].present { FrameInRange(tables, owner, bitmap.nframes, s, i); }
      if s != 0 && s == dirs[kernel][n / ENTRIES] { KernelSlot(d, n / ENTRIES); }
      if n in Space(d) { UserAt(tables, home, kernel, s, i); }
      hide OwnersOk, UserOk, LinksOk;
    }

    /** The kernel's tables are nobody else's. */
    lemma KernelSlot(d: int, k: nat)
      requires Valid() && d in dirs && d != kernel && k < ENTRIES && dirs[d][k] != 0 && dirs[d][k] == dirs[kernel][k]
      ensures home[dirs[d][k]].dir == kernel
    {
    }

    /** One byte stored through directory d. */
    method StoreByte(d: int, a: nat, b: Byte)
      requires Valid() && d in dirs && PageOf(a) in Space(d)
      modifies this`phys
      ensures Valid() && Others(d) == old(Others(d))
      ensures |old(Space(d))[PageOf(a)].bytes| == PAGE_SIZE
      ensures var v := old(Space(d))[PageOf(a)];
              Space(d) == old(Space(d))[PageOf(a) := v.(bytes := v.bytes[a % PAGE_SIZE := b])]
    {
      hide OwnersOk, UserOk, LinksOk, HomesOk;
      ghost var phys0 := phys;
      var n := PageOf(a);
      var t, i := dirs[d][n / ENTRIES], n % ENTRIES;
      FrameInRange(tables, owner, bitmap.nframes, t, i);
      var f := tables[t][i].frame;
      var page: seq<Byte> := phys[f][a % PAGE_SIZE := b];
      phys := phys[f := page];
      OwnSlotsOk(tables, next, dirs, home, kernel, d);
      SpaceChanged(dirs[d], tables, tables, home, owner, bitmap.nframes, phys0, phys, d, n, f);
      forall e | e in dirs && e != d ensures Space(e) == SpaceOf(dirs[e], tables, home, phys0, e) {
        SpaceElsewhere(dirs[e], tables, tables, home, owner, bitmap.nframes, phys0, phys, e, d, t, f);
      }
      hide FramesOf, Outside, SpaceOf;
      OutsideSame(dirs, dirs, kernel, tables, tables, home, home, owner, owner, phys0, phys, d);
    }

    // -------------------------------------------------------------- memory as bytes

    ghost function Flags(d: int): map<nat, bool>
      reads this
    {
      FlagsOf(Space(d))
    }

    ghost function Memory(d: int): Mem
      reads this
    {
      MemOf(Space(d))
    }

    /** `page->present` for an entry that get_page returned. */
    method IsPresent(d: int, n: nat) returns (present: bool)
      requires Valid() && d in dirs && n < ENTRIES * ENTRIES
      requires dirs[d][n / ENTRIES] in home && home[dirs[d][n / ENTRIES]] == Home(d, n / ENTRIES)
      ensures present <==> n in Flags(d)
    {
      PresentHere(dirs[d], tables, home, owner, bitmap.nframes, phys, d, n);
      assert dirs[d][n / ENTRIES] in tables.Keys;
      hide OwnersOk, UserOk, LinksOk, SpaceOf;
      present := tables[dirs[d][n / ENTRIES]][n % ENTRIES].present;
    }

    /** get_page(make = 1), then `present` refused, then alloc_frame and zero_page_physical. */
    method MapPage(d: int, n: nat) returns (r: MapResult)
      requires Valid() && d in dirs && d != kernel && n < ENTRIES * ENTRIES && dirs[kernel][n / ENTRIES] == 0
      modifies this`tables, this`dirs, this`next, this`home, this`owner, this`phys, bitmap.words
      ensures r == OutOfMemory ==> bitmap.Valid() && bitmap.Full()
      ensures r != OutOfMemory ==> Valid() && dirs.Keys == old(dirs).Keys && Others(d) == old(Others(d))
      ensures r != OutOfMemory ==> (r == AlreadyPresent <==> n in old(Flags(d)))
      ensures r == AlreadyPresent ==> Space(d) == old(Space(d))
      ensures r == PageMapped ==> Flags(d) == old(Flags(d))[n := true] && Memory(d) == WithZeroPage(old(Memory(d)), n)
    {
      hide OwnersOk, UserOk, LinksOk, HomesOk, SpaceOf, Outside, ZeroFrame;
      ghost var space0 := Space(d);
      SpaceShaped(d);
      var t := GetPage(d, n, true);
      var present := IsPresent(d, n);
      if present { return AlreadyPresent; }
      var ok := AttachZeroed(d, n);
      if !ok { return OutOfMemory; }
      hide AddressSpaces.Valid, AddressSpaces.Others, AddressSpaces.Space;
      assert n !in space0;
      assert Space(d) == space0[n := View(true, ZeroFrame())];
      MemZeroed(space0, n, true);
      FlagsSet(space0, n, View(true, ZeroFrame()));
      hide MemOf, FlagsOf, WithZeroPage;
      r := PageMapped;
    }

    /** get_page(make = 1), alloc_frame and zero_page_physical, with no test for a page already there. */
    method AttachPage(d: int, n: nat) returns (ok: bool)
      requires Valid() && d in dirs && d != kernel && n < ENTRIES * ENTRIES && dirs[kernel][n / ENTRIES] == 0
      requires n !in Flags(d)
      modifies this`tables, this`dirs, this`next, this`home, this`owner, this`phys, bitmap.words
      ensures !ok ==> bitmap.Valid() && bitmap.Full()
      ensures ok ==> Valid() && dirs.Keys == old(dirs).Keys && Others(d) == old(Others(d))
      ensures ok ==> Flags(d) == old(Flags(d))[n := true] && Memory(d) == WithZeroPage(old(Memory(d)), n)
    {
      hide OwnersOk, UserOk, LinksOk, HomesOk, SpaceOf, Outside, ZeroFrame;
      ghost var space0 := Space(d);
      SpaceShaped(d);
      var t := GetPage(d, n, true);
      ok := AttachZeroed(d, n);
      if !ok { return; }
      hide AddressSpaces.Valid, AddressSpaces.Others, AddressSpaces.Space;
      assert n !in space0;
      assert Space(d) == space0[n := View(true, ZeroFrame())];
      MemZeroed(space0, n, true);
      FlagsSet(space0, n, View(true, ZeroFrame()));
      hide MemOf, FlagsOf, WithZeroPage;
    }

    /** `page->rw = writable` on a present page. */
    method Protect(d: int, n: nat, writable: bool)
      requires Valid() && d in dirs && n in Flags(d)
      modifies this`tables
      ensures Valid() && Others(d) == old(Others(d))
      ensures Flags(d) == old(Flags(d))[n := writable] && Memory(d) == old(Memory(d))
    {
      hide OwnersOk, UserOk, LinksOk, HomesOk, SpaceOf, Outside;
      ghost var space0 := Space(d);
      SetWritable(d, n, writable);
      MemProtected(space0, n, writable);
    }

    method PokeByte(d: int, a: nat, b: Byte)
      requires Valid() && d in dirs && a in Memory(d)
      modifies this`phys
      ensures Valid() && Others(d) == old(Others(d))
      ensures Flags(d) == old(Flags(d)) && Memory(d) == old(Memory(d))[a := b]
    {
      SpaceShaped(d);
      hide OwnersOk, UserOk, LinksOk, HomesOk, SpaceOf, Outside, TablesOk, PageOf;
      ghost var space0 := Space(d);
      MemStored(space0, a, b);
      StoreByte(d, a, b);
      hide MemOf, FlagsOf, AddressSpaces.Valid;
    }

    /** memcpy of bytes into the memory of directory d. */
    method Poke(d: int, a: nat, bytes: seq<Byte>)
      requires Valid() && d in dirs && Mapped(Memory(d), a, |bytes|)
      modifies this`phys
      ensures Valid() && Others(d) == old(Others(d))
      ensures Flags(d) == old(Flags(d)) && Memory(d) == Overlay(old(Memory(d)), a, bytes)
    {
      hide OwnersOk, UserOk, LinksOk, HomesOk, SpaceOf, Outside, TablesOk, MemOf, FlagsOf;
      var i := 0;
      while i < |bytes|
        invariant i <= |bytes| && Valid() && Others(d) == old(Others(d))
        invariant Flags(d) == old(Flags(d)) && Memory(d) == Overlay(old(Memory(d)), a, bytes[..i])
      {
        OverlayNext(old(Memory(d)), a, bytes, i);
        PokeByte(d, a + i, bytes[i]);
        i := i + 1;
      }
      assert bytes[..i] == bytes;
    }

    /** A little-endian store of n bytes. */
    method PokeWord(d: int, a: nat, n: nat, v: nat)
      requires Valid() && d in dirs && Mapped(Memory(d), a, n)
      modifies this`phys
      ensures Valid() && Others(d) == old(Others(d))
      ensures Flags(d) == old(Flags(d)) && Memory(d) == StoreLE(old(Memory(d)), a, n, v)
      decreases n
    {
      hide OwnersOk, UserOk, LinksOk, HomesOk, SpaceOf, Outside, TablesOk, MemOf, FlagsOf;
      if n > 0 {
        StoreLEFrame(Memory(d), a + 1, n - 1, v / 256);
        PokeWord(d, a + 1, n - 1, v / 256);
        PokeByte(d, a, v % 256);
      }
    }

    /** One byte read through directory d. */
    method PeekByte(d: int, a: nat) returns (b: Byte)
      requires Valid() && d in dirs && a in Memory(d)
      ensures b == Memory(d)[a]
    {
      SpaceShaped(d);
      hide OwnersOk, UserOk, LinksOk, HomesOk, Outside, TablesOk, PageOf;
      MemAt(Space(d), a);
      var n := PageOf(a);
      b := phys[tables[dirs[d][n / ENTRIES]][n % ENTRIES].frame][a % PAGE_SIZE];
    }

    /** A little-endian load of n bytes. */
    method PeekWord(d: int, a: nat, n: nat) returns (v: nat)
      requires Valid() && d in dirs && Mapped(Memory(d), a, n)
      ensures v == LoadLE(Memory(d), a, n)
      decreases n
    {
      hide OwnersOk, UserOk, LinksOk, HomesOk, SpaceOf, Outside, TablesOk, MemOf;
      if n == 0 { return 0; }
      var low := PeekByte(d, a);
      var rest := PeekWord(d, a + 1, n - 1);
      v := low + 256 * rest;
    }

    /** The pages marked present are the ones whose bytes can be reached. */
    lemma FlagsReach(d: int, n: nat)
      requires Valid() && d in dirs && n in Flags(d)
      ensures forall a: int :: PageOf(a) == n ==> a in Memory(d)
    {
      SpaceShaped(d);
      hide OwnersOk, UserOk, LinksOk, HomesOk, SpaceOf, Outside, TablesOk, PageOf;
      MemPresent(Space(d), n);
    }
  }
}
