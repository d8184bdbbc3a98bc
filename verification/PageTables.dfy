/** Page tables and page directories as values: who owns which table and frame, and what a
    directory shows of memory. */
module PageTables {
  import opened Memory

  const ENTRIES := 1024

  datatype Page = Page(present: bool, rw: bool, user: bool, accessed: bool, dirty: bool, frame: nat)

  const ABSENT := Page(false, false, false, false, false, 0)

  /** One entry of one page table: what owns a frame. */
  datatype Entry = Entry(table: int, index: nat)

  /** The one directory slot that owns a table; a kernel table is shared, and owned by the kernel. */
  datatype Home = Home(dir: int, slot: nat)

  type Tables = map<int, seq<Page>>
  type Dirs = map<int, seq<int>>
  type Homes = map<int, Home>
  type Owners = map<nat, Entry>

  // ---------------------------------------------------------------- ownership

  ghost predicate TablesOk(tables: Tables, next: int) {
    forall t :: t in tables ==> 0 < t < next && |tables[t]| == ENTRIES
  }

  ghost predicate DirsShaped(dirs: Dirs, kernel: int, next: int) {
    kernel in dirs && forall d :: d in dirs ==> 0 < d < next && |dirs[d]| == ENTRIES
  }

  /** A directory points only at tables it owns or at the kernel's table of the same slot. */
  ghost predicate LinksOk(tables: set<int>, dirs: Dirs, home: Homes, kernel: int) {
    forall d, k :: d in dirs && 0 <= k < |dirs[d]| && dirs[d][k] != 0 ==>
      && dirs[d][k] in tables && dirs[d][k] in home && home[dirs[d][k]].slot == k
      && (home[dirs[d][k]].dir == d || home[dirs[d][k]].dir == kernel)
  }

  /** Every table is where its home says it is. */
  ghost predicate HomesOk(tables: set<int>, dirs: Dirs, home: Homes) {
    && home.Keys == tables
    && forall t :: t in home ==>
         home[t].dir in dirs && home[t].slot < |dirs[home[t].dir]| && dirs[home[t].dir][home[t].slot] == t
  }

  /** Present entries own their frames, each frame has one owner, and nothing else is owned. */
  ghost predicate OwnersOk(tables: Tables, owner: Owners, nframes: nat) {
    && (forall t, i :: t in tables && 0 <= i < |tables[t]| && tables[t][i].present ==>
          tables[t][i].frame in owner && owner[tables[t][i].frame] == Entry(t, i))
    && (forall f :: f in owner ==>
          && f < nframes && owner[f].table in tables && owner[f].index < |tables[owner[f].table]|
          && tables[owner[f].table][owner[f].index].present && tables[owner[f].table][owner[f].index].frame == f)
  }

  /** Every page of a process is open to user code. */
  ghost predicate UserOk(tables: Tables, home: Homes, kernel: int) {
    forall t, i :: t in tables && t in home && home[t].dir != kernel && 0 <= i < |tables[t]| && tables[t][i].present ==>
      tables[t][i].user
  }

  lemma UserPut(tables: Tables, home: Homes, kernel: int, t: int, i: nat, p: Page)
    requires UserOk(tables, home, kernel) && t in tables && i < |tables[t]|
    requires p.user || !p.present || (t in home && home[t].dir == kernel)
    ensures UserOk(tables[t := tables[t][i := p]], home, kernel)
  {
  }

  lemma UserFlags(tables: Tables, home: Homes, kernel: int, t: int, i: nat, p: Page)
    requires UserOk(tables, home, kernel) && t in tables && i < |tables[t]|
    requires p.present == tables[t][i].present && (tables[t][i].user ==> p.user)
    ensures UserOk(tables[t := tables[t][i := p]], home, kernel)
  {
  }

  lemma UserNewTable(tables: Tables, home: Homes, kernel: int, t: int, h: Home)
    requires UserOk(tables, home, kernel)
    ensures UserOk(tables[t := BlankTable()], home[t := h], kernel)
  {
  }

  lemma UserDropTable(tables: Tables, home: Homes, kernel: int, t: int)
    requires UserOk(tables, home, kernel)
    ensures UserOk(tables - {t}, home - {t}, kernel)
  {
  }

  lemma UserAt(tables: Tables, home: Homes, kernel: int, t: int, i: nat)
    requires UserOk(tables, home, kernel) && t in tables && t in home && i < |tables[t]| && tables[t][i].present
    requires home[t].dir != kernel
    ensures tables[t][i].user
  {
  }

  lemma OwnersGain(tables: Tables, owner: Owners, nframes: nat, t: int, i: nat, p: Page)
    requires OwnersOk(tables, owner, nframes) && t in tables && i < |tables[t]| && !tables[t][i].present
    requires p.present && p.frame !in owner && p.frame < nframes
    ensures OwnersOk(tables[t := tables[t][i := p]], owner[p.frame := Entry(t, i)], nframes)
  {
  }

  lemma OwnersLose(tables: Tables, owner: Owners, nframes: nat, t: int, i: nat, p: Page)
    requires OwnersOk(tables, owner, nframes) && t in tables && i < |tables[t]| && tables[t][i].present
    requires !p.present
    ensures OwnersOk(tables[t := tables[t][i := p]], owner - {tables[t][i].frame}, nframes)
  {
  }

  lemma OwnersFlags(tables: Tables, owner: Owners, nframes: nat, t: int, i: nat, p: Page)
    requires OwnersOk(tables, owner, nframes) && t in tables && i < |tables[t]|
    requires p.present == tables[t][i].present && p.frame == tables[t][i].frame
    ensures OwnersOk(tables[t := tables[t][i := p]], owner, nframes)
  {
  }

  lemma OwnersNewTable(tables: Tables, owner: Owners, nframes: nat, t: int, blank: seq<Page>)
    requires OwnersOk(tables, owner, nframes) && t !in tables
    requires forall i :: 0 <= i < |blank| ==> !blank[i].present
    ensures OwnersOk(tables[t := blank], owner, nframes)
  {
  }

  lemma OwnersDropTable(tables: Tables, owner: Owners, nframes: nat, t: int)
    requires OwnersOk(tables, owner, nframes) && t in tables
    requires forall i :: 0 <= i < |tables[t]| ==> !tables[t][i].present
    ensures OwnersOk(tables - {t}, owner, nframes)
  {
  }

  /** The links that are left when table t goes and the slot that pointed at it is cleared. */
  lemma LinksDropTable(tables: set<int>, dirs: Dirs, home: Homes, kernel: int, d: int, k: nat)
    requires LinksOk(tables, dirs, home, kernel) && HomesOk(tables, dirs, home) && d in dirs && k < |dirs[d]|
    requires dirs[d][k] in home && home[dirs[d][k]] == Home(d, k) && d != kernel
    ensures LinksOk(tables - {dirs[d][k]}, dirs[d := dirs[d][k := 0]], home - {dirs[d][k]}, kernel)
  {
    var t, dirs', home' := dirs[d][k], dirs[d := dirs[d][k := 0]], home - {dirs[d][k]};
    forall e, j | e in dirs' && 0 <= j < |dirs'[e]| && dirs'[e][j] != 0
      ensures dirs'[e][j] in tables - {t} && dirs'[e][j] in home' && home'[dirs'[e][j]].slot == j
      ensures home'[dirs'[e][j]].dir == e || home'[dirs'[e][j]].dir == kernel
    {
      assert dirs[e][j] == dirs'[e][j];
      assert dirs[e][j] != t;
    }
  }

  lemma HomesDropTable(tables: set<int>, dirs: Dirs, home: Homes, d: int, k: nat)
    requires HomesOk(tables, dirs, home) && d in dirs && k < |dirs[d]|
    ensures HomesOk(tables - {dirs[d][k]}, dirs[d := dirs[d][k := 0]], home - {dirs[d][k]})
  {
  }

  lemma ShapeDropTable(tables: Tables, dirs: Dirs, kernel: int, next: int, d: int, k: nat, t: int)
    requires TablesOk(tables, next) && DirsShaped(dirs, kernel, next) && d in dirs && k < ENTRIES
    ensures TablesOk(tables - {t}, next) && DirsShaped(dirs[d := dirs[d][k := 0]], kernel, next)
  {
  }

  /** A new table, and the slot that points at it. */
  lemma ShapeNewTable(tables: Tables, dirs: Dirs, kernel: int, next: int, d: int, k: nat)
    requires TablesOk(tables, next) && DirsShaped(dirs, kernel, next) && d in dirs && k < ENTRIES
    ensures next !in tables && next > 0 && TablesOk(tables[next := BlankTable()], next + 1)
    ensures DirsShaped(dirs[d := dirs[d][k := next]], kernel, next + 1)
  {
  }

  lemma LinksNewTable(tables: set<int>, dirs: Dirs, home: Homes, kernel: int, d: int, k: nat, t: int)
    requires LinksOk(tables, dirs, home, kernel) && d in dirs && k < |dirs[d]| && t !in tables
    ensures LinksOk(tables + {t}, dirs[d := dirs[d][k := t]], home[t := Home(d, k)], kernel)
  {
    var dirs', home' := dirs[d := dirs[d][k := t]], home[t := Home(d, k)];
    forall e, j | e in dirs' && 0 <= j < |dirs'[e]| && dirs'[e][j] != 0
      ensures dirs'[e][j] in tables + {t} && dirs'[e][j] in home' && home'[dirs'[e][j]].slot == j
      ensures home'[dirs'[e][j]].dir == e || home'[dirs'[e][j]].dir == kernel
    {
      if e != d || j != k { assert dirs[e][j] == dirs'[e][j]; }
    }
  }

  lemma HomesNewTable(tables: set<int>, dirs: Dirs, home: Homes, d: int, k: nat, t: int)
    requires HomesOk(tables, dirs, home) && d in dirs && k < |dirs[d]| && dirs[d][k] == 0 && t !in tables
    requires 0 !in tables
    ensures HomesOk(tables + {t}, dirs[d := dirs[d][k := t]], home[t := Home(d, k)])
  {
  }

  /** Tables are the ones with homes, and 0 is none. */
  lemma HomesAreTables(tables: Tables, dirs: Dirs, home: Homes, next: int)
    requires TablesOk(tables, next) && HomesOk(tables.Keys, dirs, home)
    ensures home.Keys == tables.Keys && 0 !in tables && forall t :: t in tables ==> |tables[t]| == ENTRIES
  {
  }

  lemma DirsAreShaped(dirs: Dirs, kernel: int, next: int)
    requires DirsShaped(dirs, kernel, next)
    ensures kernel in dirs && forall d :: d in dirs ==> |dirs[d]| == ENTRIES
  {
  }

  /** A slot that holds a table. */
  lemma SlotLinks(tables: set<int>, dirs: Dirs, home: Homes, kernel: int, d: int, k: nat)
    requires LinksOk(tables, dirs, home, kernel) && d in dirs && k < |dirs[d]| && dirs[d][k] != 0
    ensures var t := dirs[d][k];
            t in tables && t in home && home[t].slot == k && (home[t].dir == d || home[t].dir == kernel)
  {
  }

  lemma TablePut(tables: Tables, next: int, t: int, i: nat, p: Page)
    requires TablesOk(tables, next) && t in tables && i < ENTRIES
    ensures TablesOk(tables[t := tables[t][i := p]], next) && tables[t := tables[t][i := p]].Keys == tables.Keys
  {
  }

  /** Frames that the tables owned by directory d hold. */
  ghost function FramesOf(owner: Owners, home: Homes, d: int): set<nat> {
    set f | f in owner && owner[f].table in home && home[owner[f].table].dir == d
  }

  function BlankTable(): (s: seq<Page>)
    ensures |s| == ENTRIES && forall i :: 0 <= i < ENTRIES ==> s[i] == ABSENT
  {
    seq(ENTRIES, _ => ABSENT)
  }

  function ZeroFrame(): (s: seq<Byte>)
    ensures |s| == PAGE_SIZE && forall i :: 0 <= i < PAGE_SIZE ==> s[i] == 0
  {
    seq(PAGE_SIZE, _ => 0)
  }

  // ---------------------------------------------------------------- facts about cloning

  /** Everything that existed before still exists, unchanged. */
  ghost predicate Kept(tables0: Tables, tables: Tables, owner0: Owners, owner: Owners, phys0: seq<seq<Byte>>,
                       phys: seq<seq<Byte>>) {
    && (forall s :: s in tables0 ==> s in tables && tables[s] == tables0[s])
    && (forall f :: f in owner0 ==> f in owner && owner[f] == owner0[f])
    && |phys| == |phys0|
    && (forall f :: f in owner0 && f < |phys0| ==> phys[f] == phys0[f])
  }

  /** Every frame gained belongs to table t. */
  ghost predicate OwnedBy(owner0: Owners, owner: Owners, t: int) {
    forall f :: f in owner && f !in owner0 ==> owner[f].table == t
  }

  /** Every table and frame gained belongs to directory d, which owned nothing before. */
  ghost predicate Gained(home0: Homes, home: Homes, owner0: Owners, owner: Owners, d: int) {
    && (forall t :: t in home0 ==> t in home && home[t] == home0[t] && home0[t].dir != d)
    && (forall t :: t in home && t !in home0 ==> home[t].dir == d)
    && (forall f :: f in owner0 ==> f in owner && owner[f] == owner0[f] && owner0[f].table in home0)
    && (forall f :: f in owner && f !in owner0 ==> owner[f].table in home && owner[f].table !in home0)
  }

  /** q is a private copy of p: the same flags with `user` set, the same bytes. */
  ghost predicate SameEntry(p: Page, q: Page, phys: seq<seq<Byte>>) {
    if p.present then
      && p.frame < |phys| && q.frame < |phys|
      && q == p.(user := true, frame := q.frame) && phys[q.frame] == phys[p.frame]
    else q == ABSENT
  }

  ghost predicate SameEntries(src: seq<Page>, dst: seq<Page>, phys: seq<seq<Byte>>, n: nat) {
    && |src| == |dst| == ENTRIES
    && forall i :: 0 <= i < n && i < ENTRIES ==> SameEntry(src[i], dst[i], phys)
  }

  ghost predicate BlankFrom(table: seq<Page>, i: nat) {
    forall j :: i <= j < |table| ==> table[j] == ABSENT
  }

  ghost predicate ClonedSlot(tables0: Tables, tables: Tables, phys: seq<seq<Byte>>, s: int, t: int, shared: int) {
    if s == 0 || s == shared then t == s
    else
      && t != 0 && t != s && t in tables && t !in tables0 && s in tables0
      && SameEntries(tables0[s], tables[t], phys, ENTRIES)
  }

  /** The first n slots: empty and kernel slots as in the source, private tables copied. */
  ghost predicate ClonedSlots(tables0: Tables, tables: Tables, phys: seq<seq<Byte>>, src: seq<int>, dst: seq<int>,
                              shared: seq<int>, n: nat) {
    && |src| == |dst| == |shared| == ENTRIES
    && forall k :: 0 <= k < n && k < ENTRIES ==> ClonedSlot(tables0, tables, phys, src[k], dst[k], shared[k])
  }

  lemma PutTwice(tables: Tables, t: int, i: nat, p: Page, q: Page)
    requires t in tables && i < |tables[t]|
    ensures tables[t := tables[t][i := p]][t := tables[t][i := p][i := q]] == tables[t := tables[t][i := q]]
  {
    assert tables[t][i := p][i := q] == tables[t][i := q];
  }

  lemma FrameInRange(tables: Tables, owner: Owners, nframes: nat, t: int, i: nat)
    requires OwnersOk(tables, owner, nframes) && t in tables && i < |tables[t]| && tables[t][i].present
    ensures tables[t][i].frame < nframes && tables[t][i].frame in owner && owner[tables[t][i].frame] == Entry(t, i)
  {
  }

  lemma BlankAt(table: seq<Page>, i: nat)
    requires BlankFrom(table, i) && i < |table|
    ensures table[i] == ABSENT
  {
  }

  lemma CloneStart(tables0: Tables, tables: Tables, owner0: Owners, phys0: seq<seq<Byte>>, src: int, t: int)
    requires t !in tables0 && src in tables0 && |tables0[src]| == ENTRIES && tables == tables0[t := BlankTable()]
    ensures Kept(tables0, tables, owner0, owner0, phys0, phys0) && OwnedBy(owner0, owner0, t)
    ensures SameEntries(tables0[src], tables[t], phys0, 0) && BlankFrom(tables[t], 0)
  {
  }

  lemma CloneStep(tables0: Tables, tables1: Tables, tables: Tables, owner0: Owners, owner1: Owners, owner: Owners,
                  phys0: seq<seq<Byte>>, phys1: seq<seq<Byte>>, phys: seq<seq<Byte>>, nframes: nat,
                  src: int, t: int, i: nat, f: nat)
    requires Kept(tables0, tables1, owner0, owner1, phys0, phys1) && OwnedBy(owner0, owner1, t)
    requires OwnersOk(tables1, owner1, nframes) && |phys1| == nframes
    requires src in tables0 && t in tables1 && t !in tables0 && i < ENTRIES && BlankFrom(tables1[t], i)
    requires SameEntries(tables0[src], tables1[t], phys1, i)
    requires tables0[src][i].present && tables0[src][i].frame < |phys1| && f < |phys1| && f !in owner1
    requires owner == owner1[f := Entry(t, i)]
    requires tables == tables1[t := tables1[t][i := tables0[src][i].(user := true, frame := f)]]
    requires phys == phys1[f := phys1[tables0[src][i].frame]]
    ensures Kept(tables0, tables, owner0, owner, phys0, phys) && OwnedBy(owner0, owner, t)
    ensures SameEntries(tables0[src], tables[t], phys, i + 1) && BlankFrom(tables[t], i + 1)
  {
    forall j: nat | j < i
      ensures SameEntry(tables0[src][j], tables[t][j], phys)
    {
      assert SameEntry(tables0[src][j], tables1[t][j], phys1);
      if tables0[src][j].present {
        FrameInRange(tables1, owner1, nframes, src, j);
        FrameInRange(tables1, owner1, nframes, t, j);
      }
    }
    FrameInRange(tables1, owner1, nframes, src, i);
  }

  lemma SkipStep(src: seq<Page>, dst: seq<Page>, phys: seq<seq<Byte>>, i: nat)
    requires SameEntries(src, dst, phys, i) && i < ENTRIES && !src[i].present && BlankFrom(dst, i)
    ensures SameEntries(src, dst, phys, i + 1) && BlankFrom(dst, i + 1)
  {
  }

  lemma KeptSelf(tables0: Tables, owner0: Owners, phys0: seq<seq<Byte>>, home0: Homes, d: int, dirs0: Dirs,
                 nframes: nat)
    requires HomesOk(tables0.Keys, dirs0, home0) && OwnersOk(tables0, owner0, nframes) && d !in dirs0
    ensures Kept(tables0, tables0, owner0, owner0, phys0, phys0) && Gained(home0, home0, owner0, owner0, d)
  {
    assert forall f :: f in owner0 ==> owner0[f].table in home0.Keys;
  }

  lemma KeptIn(tables0: Tables, tables: Tables, owner0: Owners, owner: Owners, phys0: seq<seq<Byte>>,
               phys: seq<seq<Byte>>, s: int)
    requires Kept(tables0, tables, owner0, owner, phys0, phys) && s in tables0
    ensures s in tables && tables[s] == tables0[s]
  {
  }

  lemma KeptTrans(tables0: Tables, tables1: Tables, tables: Tables, owner0: Owners, owner1: Owners, owner: Owners,
                  phys0: seq<seq<Byte>>, phys1: seq<seq<Byte>>, phys: seq<seq<Byte>>)
    requires Kept(tables0, tables1, owner0, owner1, phys0, phys1) && Kept(tables1, tables, owner1, owner, phys1, phys)
    ensures Kept(tables0, tables, owner0, owner, phys0, phys)
  {
  }

  lemma GainedStep(home0: Homes, home1: Homes, home: Homes, owner0: Owners, owner1: Owners, owner: Owners,
                   tables1: Tables, tables: Tables, phys1: seq<seq<Byte>>, phys: seq<seq<Byte>>, t: int, d: int, k: nat)
    requires Gained(home0, home1, owner0, owner1, d) && t !in home1 && home == home1[t := Home(d, k)]
    requires Kept(tables1, tables, owner1, owner, phys1, phys) && OwnedBy(owner1, owner, t)
    ensures Gained(home0, home, owner0, owner, d)
  {
    forall f | f in owner && f !in owner0 ensures owner[f].table in home && owner[f].table !in home0 {
      if f in owner1 { assert owner1[f].table in home1; }
    }
  }

  lemma LinkedTables(tables: set<int>, dirs: Dirs, home: Homes, kernel: int, d: int)
    requires LinksOk(tables, dirs, home, kernel) && d in dirs
    ensures forall k :: 0 <= k < |dirs[d]| && dirs[d][k] != 0 ==> dirs[d][k] in tables
  {
  }

  /** Bytes and entries copied earlier survive the copying of one more table. */
  lemma SameEntriesKept(tables: Tables, owner1: Owners, owner: Owners, tables1: Tables, phys1: seq<seq<Byte>>,
                        phys: seq<seq<Byte>>, nframes: nat, s: int, t: int)
    requires Kept(tables1, tables, owner1, owner, phys1, phys) && OwnersOk(tables1, owner1, nframes)
    requires s in tables1 && t in tables1 && SameEntries(tables1[s], tables1[t], phys1, ENTRIES)
    ensures SameEntries(tables1[s], tables[t], phys, ENTRIES)
  {
    forall j: nat | j < ENTRIES ensures SameEntry(tables1[s][j], tables[t][j], phys) {
      assert SameEntry(tables1[s][j], tables1[t][j], phys1);
      if tables1[s][j].present {
        FrameInRange(tables1, owner1, nframes, s, j);
        FrameInRange(tables1, owner1, nframes, t, j);
      }
    }
  }

  lemma ClonedSlotsKept(tables0: Tables, tables1: Tables, tables: Tables, owner0: Owners, owner1: Owners, owner: Owners,
                        phys0: seq<seq<Byte>>, phys1: seq<seq<Byte>>, phys: seq<seq<Byte>>,
                        src: seq<int>, dst1: seq<int>, dst: seq<int>, shared: seq<int>, nframes: nat, k: nat, t: int)
    requires Kept(tables0, tables1, owner0, owner1, phys0, phys1) && Kept(tables1, tables, owner1, owner, phys1, phys)
    requires OwnersOk(tables1, owner1, nframes) && k < ENTRIES
    requires ClonedSlots(tables0, tables1, phys1, src, dst1, shared, k) && dst == dst1[k := t]
    requires src[k] != 0 && src[k] != shared[k] && src[k] in tables0 && src[k] in tables1 && t != 0 && t in tables
    requires t !in tables1
    requires SameEntries(tables1[src[k]], tables[t], phys, ENTRIES)
    ensures ClonedSlots(tables0, tables, phys, src, dst, shared, k + 1)
  {
    hide SameEntries, OwnersOk, UserOk;
    forall j: nat | j < k ensures ClonedSlot(tables0, tables, phys, src[j], dst[j], shared[j]) {
      assert ClonedSlot(tables0, tables1, phys1, src[j], dst1[j], shared[j]);
      if src[j] != 0 && src[j] != shared[j] {
        SameEntriesKept(tables, owner1, owner, tables1, phys1, phys, nframes, src[j], dst1[j]);
      }
    }
  }

  // ---------------------------------------------------------------- facts about destruction

  ghost predicate AllAbsent(table: seq<Page>) {
    forall i :: 0 <= i < |table| ==> !table[i].present
  }

  /** Exactly the frames of table t are gone. */
  ghost predicate WithoutTable(owner0: Owners, owner: Owners, t: int) {
    && (forall f :: f in owner <==> f in owner0 && owner0[f].table != t)
    && (forall f :: f in owner ==> owner[f] == owner0[f])
  }

  lemma NoneLeft(tables: Tables, owner: Owners, nframes: nat, t: int)
    requires OwnersOk(tables, owner, nframes) && t in tables && AllAbsent(tables[t])
    ensures forall f :: f in owner ==> owner[f].table != t
  {
  }

  /** Table t is one of those d owns below slot k. */
  ghost predicate Released(home0: Homes, t: int, d: int, k: nat) {
    t in home0 && home0[t].dir == d && home0[t].slot < k
  }

  /** Exactly the tables d owns below slot k are gone, with the frames they held. */
  ghost predicate Shrunk(tables0: Tables, tables: Tables, home0: Homes, home: Homes, owner0: Owners, owner: Owners,
                         d: int, k: nat) {
    && home0.Keys == tables0.Keys && (forall t :: t in home0 ==> home0[t].slot < ENTRIES)
    && (forall t :: t in tables <==> t in tables0 && !Released(home0, t, d, k))
    && (forall t :: t in tables ==> tables[t] == tables0[t])
    && (forall t :: t in home <==> t in home0 && !Released(home0, t, d, k))
    && (forall t :: t in home ==> home[t] == home0[t])
    && (forall f :: f in owner <==> f in owner0 && !Released(home0, owner0[f].table, d, k))
    && (forall f :: f in owner ==> owner[f] == owner0[f])
    && (forall f :: f in owner0 ==> owner0[f].table in home0)
  }

  lemma ShrunkStart(tables0: Tables, home0: Homes, owner0: Owners, nframes: nat, d: int, dirs0: Dirs, kernel: int,
                    next: int)
    requires HomesOk(tables0.Keys, dirs0, home0) && OwnersOk(tables0, owner0, nframes)
    requires DirsShaped(dirs0, kernel, next)
    ensures Shrunk(tables0, tables0, home0, home0, owner0, owner0, d, 0)
  {
    forall f | f in owner0 ensures owner0[f].table in home0.Keys {
      assert owner0[f].table in tables0;
    }
  }

  lemma ShrunkStep(tables0: Tables, tables1: Tables, tables: Tables, home0: Homes, home1: Homes, home: Homes,
                   owner0: Owners, owner1: Owners, owner: Owners, d: int, k: nat, t: int)
    requires Shrunk(tables0, tables1, home0, home1, owner0, owner1, d, k)
    requires t in home1 && home1[t] == Home(d, k) && forall s :: s in home1 && home1[s] == Home(d, k) ==> s == t
    requires (forall s :: s in tables <==> s in tables1 && s != t)
    requires forall s :: s in tables ==> tables[s] == tables1[s]
    requires (forall s :: s in home <==> s in home1 && s != t) && forall s :: s in home ==> home[s] == home1[s]
    requires WithoutTable(owner1, owner, t)
    ensures Shrunk(tables0, tables, home0, home, owner0, owner, d, k + 1)
  {
    forall s ensures Released(home0, s, d, k + 1) <==> Released(home0, s, d, k) || s == t {
      if s in home1 && home1[s] == Home(d, k) { assert s == t; }
      if Released(home0, s, d, k + 1) && !Released(home0, s, d, k) {
        assert s in home1 && home1[s] == Home(d, k);
      }
    }
  }

  lemma ShrunkSkip(tables0: Tables, tables: Tables, home0: Homes, home: Homes, owner0: Owners, owner: Owners, d: int,
                   k: nat)
    requires Shrunk(tables0, tables, home0, home, owner0, owner, d, k)
    requires forall s :: s in home ==> home[s] != Home(d, k)
    ensures Shrunk(tables0, tables, home0, home, owner0, owner, d, k + 1)
  {
    forall s ensures Released(home0, s, d, k + 1) <==> Released(home0, s, d, k) {
      if s in home { assert home[s] != Home(d, k); }
    }
  }

  /** A slot of d holds nothing, a kernel table, or the one table whose home it is. */
  lemma SlotOwner(tables: Tables, dirs: Dirs, home: Homes, kernel: int, next: int, d: int, k: nat)
    requires TablesOk(tables, next) && DirsShaped(dirs, kernel, next) && LinksOk(tables.Keys, dirs, home, kernel)
    requires HomesOk(tables.Keys, dirs, home) && d in dirs && d != kernel && k < ENTRIES
    ensures dirs[d][k] != 0 ==> dirs[d][k] in tables && dirs[d][k] in home
    ensures dirs[d][k] != 0 && dirs[kernel][k] != dirs[d][k] ==> home[dirs[d][k]] == Home(d, k)
    ensures dirs[d][k] == 0 || dirs[kernel][k] == dirs[d][k] ==> forall s :: s in home ==> home[s] != Home(d, k)
    ensures forall s :: s in home && home[s] == Home(d, k) ==> s == dirs[d][k]
  {
    var t := dirs[d][k];
    forall s | s in home && home[s] == Home(d, k) ensures s == t && t != 0 && dirs[kernel][k] != t {
      assert s in tables;
    }
    if t != 0 && dirs[kernel][k] != t {
      var h := home[t];
      assert dirs[h.dir][h.slot] == t;
    }
  }

  // ---------------------------------------------------------------- what a directory shows

  /** One private page: its permission and its bytes. */
  datatype View = View(rw: bool, bytes: seq<Byte>)

  type Space = map<nat, View>

  datatype Sight = Nothing | Sees(view: View)

  /** Entry i of table s, as the private memory of directory d: nothing unless d owns the table and the entry is
      present. */
  ghost function See(tables: Tables, home: Homes, phys: seq<seq<Byte>>, d: int, s: int, i: nat): Sight {
    if && s in home && home[s].dir == d && s in tables && i < |tables[s]|
       && tables[s][i].present && tables[s][i].frame < |phys|
    then Sees(View(tables[s][i].rw, phys[tables[s][i].frame])) else Nothing
  }

  /** The private memory of directory d: page number to permission and bytes. */
  ghost function SpaceOf(slots: seq<int>, tables: Tables, home: Homes, phys: seq<seq<Byte>>, d: int): Space {
    map n: nat
      | 0 <= n < ENTRIES * ENTRIES && n / ENTRIES < |slots|
        && See(tables, home, phys, d, slots[n / ENTRIES], n % ENTRIES).Sees?
      :: See(tables, home, phys, d, slots[n / ENTRIES], n % ENTRIES).view
  }

  lemma SpaceSame(slots: seq<int>, slots': seq<int>, tables: Tables, tables': Tables, home: Homes, home': Homes,
                  phys: seq<seq<Byte>>, phys': seq<seq<Byte>>, d: int, d': int)
    requires |slots| == |slots'|
    requires forall k: nat, i: nat :: k < |slots| && i < ENTRIES ==>
               See(tables', home', phys', d', slots'[k], i) == See(tables, home, phys, d, slots[k], i)
    ensures SpaceOf(slots', tables', home', phys', d') == SpaceOf(slots, tables, home, phys, d)
  {
    hide See;
  }

  lemma SpaceNewTable(slots0: seq<int>, slots: seq<int>, tables0: Tables, home0: Homes, phys: seq<seq<Byte>>, d': int,
                      d: int, t: int, k: nat)
    requires t !in tables0 && t !in home0 && k < |slots0| && 0 !in home0
    requires if d' == d then slots0[k] == 0 && slots == slots0[k := t] else slots == slots0
    ensures SpaceOf(slots, tables0[t := BlankTable()], home0[t := Home(d, k)], phys, d') ==
              SpaceOf(slots0, tables0, home0, phys, d')
  {
    SpaceSame(slots0, slots, tables0, tables0[t := BlankTable()], home0, home0[t := Home(d, k)], phys, phys, d', d');
  }

  /** Changing frame f and the entry that owns it shows in no other directory. */
  lemma SpaceElsewhere(slots: seq<int>, tables: Tables, tables': Tables, home: Homes, owner: Owners, nframes: nat,
                       phys: seq<seq<Byte>>, phys': seq<seq<Byte>>, d': int, d: int, t: int, f: nat)
    requires OwnersOk(tables', owner, nframes) && |phys| == |phys'| == nframes && d' != d
    requires f in owner && owner[f].table == t && t in home && home[t].dir == d
    requires forall g :: 0 <= g < nframes && g != f ==> phys'[g] == phys[g]
    requires tables'.Keys == tables.Keys && forall s :: s in tables && s != t ==> tables'[s] == tables[s]
    ensures SpaceOf(slots, tables', home, phys', d') == SpaceOf(slots, tables, home, phys, d')
  {
    forall k: nat, i: nat | k < |slots| && i < ENTRIES
      ensures See(tables', home, phys', d', slots[k], i) == See(tables, home, phys, d', slots[k], i)
    {
      if See(tables', home, phys', d', slots[k], i).Sees? { FrameInRange(tables', owner, nframes, slots[k], i); }
    }
    SpaceSame(slots, slots, tables, tables', home, home, phys, phys', d', d');
  }

  /** A directory reaches its own tables each from one slot. */
  ghost predicate OwnSlots(slots: seq<int>, home: Homes, d: int) {
    forall k :: 0 <= k < |slots| && slots[k] in home && home[slots[k]].dir == d ==> home[slots[k]].slot == k
  }

  /** Changing one entry of d's own tables, and the frame it owns, changes one page of d's memory. */
  lemma SpaceChanged(slots: seq<int>, tables: Tables, tables': Tables, home: Homes, owner: Owners, nframes: nat,
                     phys: seq<seq<Byte>>, phys': seq<seq<Byte>>, d: int, n: nat, f: nat)
    requires OwnersOk(tables', owner, nframes) && |phys| == |phys'| == nframes && n < ENTRIES * ENTRIES
    requires OwnSlots(slots, home, d) && n / ENTRIES < |slots|
    requires forall g :: 0 <= g < nframes && g != f ==> phys'[g] == phys[g]
    requires var t, i := slots[n / ENTRIES], n % ENTRIES;
             && t in home && home[t].dir == d && t in tables' && |tables'[t]| == ENTRIES && tables'[t][i].present
             && tables'[t][i].frame == f
             && t in tables && |tables[t]| == ENTRIES && tables'.Keys == tables.Keys
             && (forall s :: s in tables && s != t ==> tables'[s] == tables[s])
             && (forall j :: 0 <= j < ENTRIES && j != i ==> tables'[t][j] == tables[t][j])
    ensures f < nframes
    ensures SpaceOf(slots, tables', home, phys', d)
         == SpaceOf(slots, tables, home, phys, d)[n := View(tables'[slots[n / ENTRIES]][n % ENTRIES].rw, phys'[f])]
  {
    hide OwnersOk, UserOk, See, SpaceOf;
    var t, i := slots[n / ENTRIES], n % ENTRIES;
    SeeChanged(tables, tables', home, owner, nframes, phys, phys', d, t, i, f);
    forall m: nat | m < ENTRIES * ENTRIES && m != n && m / ENTRIES < |slots|
      ensures See(tables', home, phys', d, slots[m / ENTRIES], m % ENTRIES) ==
                See(tables, home, phys, d, slots[m / ENTRIES], m % ENTRIES)
    {
      SamePage(m, n);
    }
    SpacePut(slots, tables, tables', home, phys, phys', d, n, View(tables'[t][i].rw, phys'[f]));
  }

  /** What the entries of one table show, when one of them changed. */
  lemma SeeChanged(tables: Tables, tables': Tables, home: Homes, owner: Owners, nframes: nat, phys: seq<seq<Byte>>,
                   phys': seq<seq<Byte>>, d: int, t: int, i: nat, f: nat)
    requires OwnersOk(tables', owner, nframes) && |phys| == |phys'| == nframes && i < ENTRIES
    requires forall g :: 0 <= g < nframes && g != f ==> phys'[g] == phys[g]
    requires t in home && home[t].dir == d && t in tables' && |tables'[t]| == ENTRIES && tables'[t][i].present
    requires tables'[t][i].frame == f
    requires t in tables && |tables[t]| == ENTRIES && tables'.Keys == tables.Keys
    requires forall s :: s in tables && s != t ==> tables'[s] == tables[s]
    requires forall j :: 0 <= j < ENTRIES && j != i ==> tables'[t][j] == tables[t][j]
    ensures f < nframes && See(tables', home, phys', d, t, i) == Sees(View(tables'[t][i].rw, phys'[f]))
    ensures forall s: int, j: nat :: (s != t || j != i) && j < ENTRIES ==>
              See(tables', home, phys', d, s, j) == See(tables, home, phys, d, s, j)
  {
    FrameInRange(tables', owner, nframes, t, i);
    forall s: int, j: nat | (s != t || j != i) && j < ENTRIES
      ensures See(tables', home, phys', d, s, j) == See(tables, home, phys, d, s, j)
    {
      if See(tables', home, phys', d, s, j).Sees? { FrameInRange(tables', owner, nframes, s, j); }
    }
  }

  /** One page of a space shows something new, all others what they did. */
  lemma SpacePut(slots: seq<int>, tables: Tables, tables': Tables, home: Homes, phys: seq<seq<Byte>>,
                 phys': seq<seq<Byte>>, d: int, n: nat, view: View)
    requires n < ENTRIES * ENTRIES && n / ENTRIES < |slots|
    requires See(tables', home, phys', d, slots[n / ENTRIES], n % ENTRIES) == Sees(view)
    requires forall m: nat :: m < ENTRIES * ENTRIES && m != n && m / ENTRIES < |slots| ==>
               See(tables', home, phys', d, slots[m / ENTRIES], m % ENTRIES) ==
               See(tables, home, phys, d, slots[m / ENTRIES], m % ENTRIES)
    ensures SpaceOf(slots, tables', home, phys', d) == SpaceOf(slots, tables, home, phys, d)[n := view]
  {
    hide See;
  }

  lemma SamePage(m: nat, n: nat)
    ensures m / ENTRIES == n / ENTRIES && m % ENTRIES == n % ENTRIES ==> m == n
  {
  }

  lemma PresentHere(slots: seq<int>, tables: Tables, home: Homes, owner: Owners, nframes: nat, phys: seq<seq<Byte>>,
                    d: int, n: nat)
    requires OwnersOk(tables, owner, nframes) && |phys| == nframes && n < ENTRIES * ENTRIES && n / ENTRIES < |slots|
    requires var t := slots[n / ENTRIES]; t in home && home[t].dir == d && t in tables && |tables[t]| == ENTRIES
    ensures var p := tables[slots[n / ENTRIES]][n % ENTRIES];
            && (p.present <==> n in SpaceOf(slots, tables, home, phys, d))
            && (p.present ==> SpaceOf(slots, tables, home, phys, d)[n].rw == p.rw)
  {
    if tables[slots[n / ENTRIES]][n % ENTRIES].present {
      FrameInRange(tables, owner, nframes, slots[n / ENTRIES], n % ENTRIES);
    }
  }

  lemma OwnSlotsOk(tables: Tables, next: int, dirs: Dirs, home: Homes, kernel: int, d: int)
    requires TablesOk(tables, next) && LinksOk(tables.Keys, dirs, home, kernel) && HomesOk(tables.Keys, dirs, home)
    requires d in dirs
    ensures OwnSlots(dirs[d], home, d)
  {
  }

  /** Cloning changes nothing another directory shows. */
  lemma SpaceKept(slots: seq<int>, tables0: Tables, tables: Tables, home0: Homes, home: Homes, owner0: Owners,
                  owner: Owners, nframes: nat, phys0: seq<seq<Byte>>, phys: seq<seq<Byte>>, d: int, d': int)
    requires Kept(tables0, tables, owner0, owner, phys0, phys) && Gained(home0, home, owner0, owner, d) && d' != d
    requires OwnersOk(tables0, owner0, nframes) && |phys0| == nframes && home0.Keys == tables0.Keys
    requires home.Keys == tables.Keys
    ensures SpaceOf(slots, tables, home, phys, d') == SpaceOf(slots, tables0, home0, phys0, d')
  {
    forall k: nat, i: nat | k < |slots| && i < ENTRIES
      ensures See(tables, home, phys, d', slots[k], i) == See(tables0, home0, phys0, d', slots[k], i)
    {
      var s := slots[k];
      if s in home0.Keys {
        if See(tables0, home0, phys0, d', s, i).Sees? { FrameInRange(tables0, owner0, nframes, s, i); }
      }
    }
    SpaceSame(slots, slots, tables0, tables, home0, home, phys0, phys, d', d');
  }

  /** What the clone shows is what the source shows. */
  lemma SpaceCloned(src: seq<int>, dst: seq<int>, shared: seq<int>, tables0: Tables, tables: Tables, home0: Homes,
                    home: Homes, owner0: Owners, owner: Owners, phys0: seq<seq<Byte>>, phys: seq<seq<Byte>>, d: int,
                    from: int)
    requires ClonedSlots(tables0, tables, phys, src, dst, shared, ENTRIES)
    requires Kept(tables0, tables, owner0, owner, phys0, phys) && Gained(home0, home, owner0, owner, d) && from != d
    requires home0.Keys == tables0.Keys && home.Keys == tables.Keys && 0 !in home
    requires forall k ::
               0 <= k < ENTRIES && src[k] != 0 && src[k] != shared[k] ==> src[k] in home0 && home0[src[k]].dir == from
    requires forall k ::
               0 <= k < ENTRIES && src[k] != 0 && src[k] == shared[k] ==> src[k] in home0 && home0[src[k]].dir != from
    ensures SpaceOf(dst, tables, home, phys, d) == SpaceOf(src, tables, home, phys, from)
  {
    hide SameEntries;
    forall k: nat, i: nat | k < |src| && i < ENTRIES
      ensures See(tables, home, phys, d, dst[k], i) == See(tables, home, phys, from, src[k], i)
    {
      assert ClonedSlot(tables0, tables, phys, src[k], dst[k], shared[k]);
      var s, t := src[k], dst[k];
      assert s in home0 ==> home[s] == home0[s] && home0[s].dir != d;
      if s != 0 && s != shared[k] {
        SameSight(tables0[s], tables[t], phys, i);
        assert t in home.Keys && t !in home0.Keys;
      }
    }
    SpaceSame(src, dst, tables, tables, home, home, phys, phys, from, d);
  }

  lemma SameSight(src: seq<Page>, dst: seq<Page>, phys: seq<seq<Byte>>, i: nat)
    requires SameEntries(src, dst, phys, ENTRIES) && i < ENTRIES
    ensures |src| == |dst| == ENTRIES && SameEntry(src[i], dst[i], phys)
  {
  }

  /** Destroying d changes nothing another directory shows. */
  lemma SpaceSpared(slots: seq<int>, tables0: Tables, tables: Tables, home0: Homes, home: Homes, owner0: Owners,
                    owner: Owners, phys: seq<seq<Byte>>, d: int, d': int)
    requires Shrunk(tables0, tables, home0, home, owner0, owner, d, ENTRIES) && d' != d
    ensures SpaceOf(slots, tables, home, phys, d') == SpaceOf(slots, tables0, home0, phys, d')
  {
    SpaceSame(slots, slots, tables0, tables, home0, home, phys, phys, d', d');
  }

  datatype World = World(spaces: map<int, Space>, frames: map<int, set<nat>>, reserved: set<nat>, shared: seq<int>)

  /** Everything that does not belong to directory d: the private memory and the frames of every
      other directory, the frames in use that d does not own, and the kernel's table slots. */
  ghost function Outside(dirs: Dirs, kernel: int, tables: Tables, home: Homes, owner: Owners, phys: seq<seq<Byte>>,
                         d: int): World
  {
    World(map e | e in dirs && e != d :: SpaceOf(dirs[e], tables, home, phys, e),
          map e | e in dirs && e != d
            :: FramesOf(owner, home, e),
          owner.Keys - FramesOf(owner, home, d),
          if kernel in dirs then dirs[kernel] else [])
  }

  /** The world w with directory d in it. */
  ghost function Joined(w: World, d: int, space: Space, held: set<nat>): World {
    World(w.spaces[d := space], w.frames[d := held], w.reserved + held, w.shared)
  }

  lemma OutsideSame(dirs: Dirs, dirs': Dirs, kernel: int, tables: Tables, tables': Tables, home: Homes, home': Homes,
                    owner: Owners, owner': Owners, phys: seq<seq<Byte>>, phys': seq<seq<Byte>>, d: int)
    requires kernel in dirs && kernel in dirs' && dirs'[kernel] == dirs[kernel] && dirs'.Keys - {d} == dirs.Keys - {d}
    requires forall e ::
               e in dirs.Keys - {d} ==>
                 SpaceOf(dirs'[e], tables', home', phys', e) == SpaceOf(dirs[e], tables, home, phys, e)
    requires forall e :: e in dirs.Keys - {d} ==> FramesOf(owner', home', e) == FramesOf(owner, home, e)
    requires owner'.Keys - FramesOf(owner', home', d) == owner.Keys - FramesOf(owner, home, d)
    ensures Outside(dirs', kernel, tables', home', owner', phys', d) ==
              Outside(dirs, kernel, tables, home, owner, phys, d)
  {
    hide SpaceOf, FramesOf;
    var w, w' := Outside(dirs, kernel, tables, home, owner, phys, d), Outside(dirs', kernel, tables', home', owner',
                         phys', d);
    assert w.spaces.Keys == dirs.Keys - {d} == w.frames.Keys && w'.spaces.Keys == dirs'.Keys - {d} == w'.frames.Keys;
    assert w'.spaces == w.spaces;
    assert w'.frames == w.frames;
  }

  lemma PageNumber(k: nat, i: nat)
    requires k < ENTRIES && i < ENTRIES
    ensures k * ENTRIES + i < ENTRIES * ENTRIES && (k * ENTRIES + i) / ENTRIES == k && (k * ENTRIES + i) % ENTRIES == i
  {
  }

  lemma HomeNonzero(tables: Tables, next: int, dirs: Dirs, home: Homes)
    requires TablesOk(tables, next) && HomesOk(tables.Keys, dirs, home)
    ensures 0 !in home
  {
    assert 0 !in tables;
  }

  /** Which of a directory's slots it owns, and which it borrows from the kernel. */
  lemma SourceSlots(tables: Tables, dirs: Dirs, home: Homes, kernel: int, next: int, src: int)
    requires TablesOk(tables, next) && DirsShaped(dirs, kernel, next) && LinksOk(tables.Keys, dirs, home, kernel)
    requires HomesOk(tables.Keys, dirs, home) && src in dirs
    ensures forall k :: 0 <= k < ENTRIES && dirs[src][k] != 0 && dirs[src][k] != dirs[kernel][k] ==>
              dirs[src][k] in home && home[dirs[src][k]].dir == src
    ensures forall k :: 0 <= k < ENTRIES && dirs[src][k] != 0 && dirs[src][k] == dirs[kernel][k] ==>
              dirs[src][k] in home && home[dirs[src][k]].dir == kernel
  {
    forall k | 0 <= k < ENTRIES && dirs[src][k] != 0 && dirs[src][k] != dirs[kernel][k]
      ensures dirs[src][k] in home && home[dirs[src][k]].dir == src
    {
      var h := home[dirs[src][k]];
      assert dirs[h.dir][h.slot] == dirs[src][k];
    }
  }

  lemma FramesKept(home0: Homes, home: Homes, owner0: Owners, owner: Owners, d: int, e: int)
    requires Gained(home0, home, owner0, owner, d) && e != d
    ensures FramesOf(owner, home, e) == FramesOf(owner0, home0, e)
  {
  }

  lemma FramesGained(home0: Homes, home: Homes, owner0: Owners, owner: Owners, d: int)
    requires Gained(home0, home, owner0, owner, d)
    ensures FramesOf(owner0, home0, d) == {}
    ensures owner.Keys - FramesOf(owner, home, d) == owner0.Keys
  {
  }

  lemma EmptyClone(src: seq<int>, dst: seq<int>, tables0: Tables, tables: Tables, home0: Homes, home: Homes,
                   owner0: Owners, owner: Owners, phys: seq<seq<Byte>>, d: int)
    requires ClonedSlots(tables0, tables, phys, src, dst, src, ENTRIES) && Gained(home0, home, owner0, owner, d)
    requires 0 !in home && forall k :: 0 <= k < ENTRIES && src[k] != 0 ==> src[k] in home0
    ensures SpaceOf(dst, tables, home, phys, d) == map[]
  {
    forall k | 0 <= k < ENTRIES ensures dst[k] in home ==> home[dst[k]].dir != d {
      assert ClonedSlot(tables0, tables, phys, src[k], dst[k], src[k]);
    }
  }

  lemma FramesSpared(tables0: Tables, tables: Tables, home0: Homes, home: Homes, owner0: Owners, owner: Owners, d: int,
                     e: int)
    requires Shrunk(tables0, tables, home0, home, owner0, owner, d, ENTRIES) && e != d
    ensures FramesOf(owner, home, e) == FramesOf(owner0, home0, e)
  {
  }

  lemma FramesReleased(tables0: Tables, tables: Tables, home0: Homes, home: Homes, owner0: Owners, owner: Owners,
                       d: int)
    requires Shrunk(tables0, tables, home0, home, owner0, owner, d, ENTRIES)
    ensures FramesOf(owner, home, d) == {}
  {
  }

  lemma FramesGain(owner: Owners, owner': Owners, home: Homes, f: nat, t: int, i: nat, d: int)
    requires t in home && home[t].dir == d && (owner' == owner || (f !in owner && owner' == owner[f := Entry(t, i)]))
    ensures forall e :: e != d ==> FramesOf(owner', home, e) == FramesOf(owner, home, e)
    ensures owner'.Keys - FramesOf(owner', home, d) == owner.Keys - FramesOf(owner, home, d)
  {
  }

  lemma OwnedTables(tables: Tables, owner: Owners, nframes: nat, home: Homes)
    requires OwnersOk(tables, owner, nframes) && home.Keys == tables.Keys
    ensures forall f :: f in owner ==> owner[f].table in home
  {
    forall f | f in owner ensures owner[f].table in home.Keys {
    }
  }

  lemma FramesNewTable(owner: Owners, home: Homes, e: int, d: int, t: int, k: nat)
    requires t !in home && forall f :: f in owner ==> owner[f].table in home
    ensures FramesOf(owner, home[t := Home(d, k)], e) == FramesOf(owner, home, e)
  {
  }

  // ---------------------------------------------------------------- memory as bytes

  /** Which pages are present, and which of them are writable. */
  ghost function FlagsOf(space: Space): map<nat, bool> {
    map n | n in space :: space[n].rw
  }

  function PageOf(a: int): int {
    a / PAGE_SIZE
  }

  /** Every byte a space maps, by address. */
  ghost function MemOf(space: Space): Mem {
    map a: int | 0 <= a < 0x1_0000_0000 && PageOf(a) in space && a % PAGE_SIZE < |space[PageOf(a)].bytes|
      :: space[PageOf(a)].bytes[a % PAGE_SIZE]
  }

  ghost predicate WholePages(space: Space) {
    forall n :: n in space ==> n < ENTRIES * ENTRIES && |space[n].bytes| == PAGE_SIZE
  }

  /** The same memory with page n present and zero. */
  ghost function WithZeroPage(m: Mem, n: nat): Mem {
    map a: int | 0 <= a < 0x1_0000_0000 && (a in m || PageOf(a) == n) :: if PageOf(a) == n then 0 else m[a]
  }

  lemma MemZeroed(space: Space, n: nat, rw: bool)
    requires WholePages(space) && n < ENTRIES * ENTRIES
    ensures WholePages(space[n := View(rw, ZeroFrame())])
    ensures MemOf(space[n := View(rw, ZeroFrame())]) == WithZeroPage(MemOf(space), n)
  {
    hide PageOf, WithZeroPage, ZeroFrame;
    var v := View(rw, ZeroFrame());
    var zeroed := space[n := v];
    MemDomain(space);
    MemDomain(zeroed);
    forall a: int | a in MemOf(zeroed)
      ensures MemOf(zeroed)[a] == if PageOf(a) == n then 0 else MemOf(space)[a]
    {
      MemAt(zeroed, a);
      if PageOf(a) != n { MemAt(space, a); }
    }
    hide MemOf, WholePages;
    IsZeroPage(MemOf(space), MemOf(zeroed), n);
  }

  lemma MemAt(space: Space, a: int)
    requires WholePages(space) && a in MemOf(space)
    ensures PageOf(a) in space && MemOf(space)[a] == space[PageOf(a)].bytes[a % PAGE_SIZE]
  {
    hide PageOf;
  }

  lemma IsZeroPage(m: Mem, m': Mem, n: nat)
    requires forall a: int :: a in m' <==> 0 <= a < 0x1_0000_0000 && (a in m || PageOf(a) == n)
    requires forall a: int :: a in m' ==> m'[a] == if PageOf(a) == n then 0 else m[a]
    ensures m' == WithZeroPage(m, n)
  {
    hide PageOf;
  }

  lemma MemDomain(space: Space)
    requires WholePages(space)
    ensures forall a: int :: a in MemOf(space) <==> 0 <= a < 0x1_0000_0000 && PageOf(a) in space
  {
    hide PageOf;
  }

  lemma FlagsSet(space: Space, n: nat, v: View)
    ensures FlagsOf(space[n := v]) == FlagsOf(space)[n := v.rw]
  {
  }

  lemma MemProtected(space: Space, n: nat, rw: bool)
    requires n in space
    ensures MemOf(space[n := space[n].(rw := rw)]) == MemOf(space)
    ensures FlagsOf(space[n := space[n].(rw := rw)]) == FlagsOf(space)[n := rw]
    ensures WholePages(space) ==> WholePages(space[n := space[n].(rw := rw)])
  {
  }

  lemma MemStored(space: Space, a: nat, b: Byte)
    requires WholePages(space) && a in MemOf(space)
    ensures PageOf(a) in space
    ensures var v := space[PageOf(a)]; var stored := space[PageOf(a) := v.(bytes := v.bytes[a % PAGE_SIZE := b])];
            WholePages(stored) && MemOf(stored) == MemOf(space)[a := b] && FlagsOf(stored) == FlagsOf(space)
  {
    forall x: int | PageOf(x) == PageOf(a) && x % PAGE_SIZE == a % PAGE_SIZE ensures x == a {
    }
  }

  lemma MemPresent(space: Space, n: nat)
    requires WholePages(space) && n in space
    ensures forall a: int :: PageOf(a) == n ==> a in MemOf(space)
  {
  }
}
