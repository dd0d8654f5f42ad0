/** The page buffer pool of buffer_pool/day_one_bpoll.c: a fixed table of
    NUM_PAGES slots caching PAGE_SIZE-byte pages, a soft `capacity`, a count
    of resident pages, and a simulated disk.

    The C code keeps one global pool; here every operation takes the pool as a
    value and returns the new one. The simulated disk write (a message plus
    clearing the dirty flag) is recorded as an entry appended to `disk`. */
module BufferPool {
  import opened Wrappers
  import Search

  const PAGE_SIZE: nat := 4096
  const NUM_PAGES: nat := 10

  datatype Page = Page(pageId: int, data: seq<bv8>, isDirty: bool)

  /** One simulated write to disk of a page's identifier and bytes. */
  datatype DiskWrite = DiskWrite(pageId: int, data: seq<bv8>)

  /** `slots[i] == None` is a NULL entry of the C page table. */
  datatype Pool = Pool(slots: seq<Option<Page>>, capacity: int, currentSize: int, disk: seq<DiskWrite>)

  /** The result of write_page_to_disk: the page afterwards and the writes it issued. */
  datatype Flushed = Flushed(page: Page, writes: seq<DiskWrite>)

  /** The result of load_page_to_buffer: the pool afterwards and the slot of the
      returned page, None standing for the NULL result. */
  datatype Loaded = Loaded(pool: Pool, slot: Option<nat>)

  /** The result of read_page: the pool afterwards and the bytes copied out. */
  datatype Read = Read(pool: Pool, data: seq<bv8>)

  function ZeroPage(): (d: seq<bv8>)
    ensures |d| == PAGE_SIZE && forall k :: 0 <= k < |d| ==> d[k] == 0
  {
    seq(PAGE_SIZE, _ => 0)
  }

  /** Slot `i` is occupied by the page `id`. */
  predicate Holds(slots: seq<Option<Page>>, i: int, id: int) {
    0 <= i < |slots| && HoldsPage(slots[i], id)
  }

  predicate HoldsPage(s: Option<Page>, id: int) {
    s.Some? && s.value.pageId == id
  }

  predicate Resident(pool: Pool, id: int) {
    exists i :: 0 <= i < |pool.slots| && Holds(pool.slots, i, id)
  }

  predicate IsDirtySlot(s: Option<Page>) {
    s.Some? && s.value.isDirty
  }

  /** Number of occupied slots. */
  function Occupancy(slots: seq<Option<Page>>): (n: nat)
    ensures n <= |slots|
    ensures n == 0 <==> forall i :: 0 <= i < |slots| ==> slots[i].None?
  {
    if |slots| == 0 then 0
    else (if slots[0].Some? then 1 else 0) + Occupancy(slots[1..])
  }

  /** The invariant the pool keeps: a table of NUM_PAGES slots, a size counter
      that counts the occupied ones, pairwise-distinct resident page ids and
      full-sized page buffers. */
  predicate Valid(pool: Pool) {
    && |pool.slots| == NUM_PAGES
    && pool.currentSize == Occupancy(pool.slots)
    && (forall i, j :: 0 <= i < j < |pool.slots| && pool.slots[i].Some? && pool.slots[j].Some? ==>
          pool.slots[i].value.pageId != pool.slots[j].value.pageId)
    && (forall i :: 0 <= i < |pool.slots| && pool.slots[i].Some? ==> |pool.slots[i].value.data| == PAGE_SIZE)
  }

  /** buffer_pool_init: every slot empty, nothing resident, the given capacity. */
  function Init(capacity: int): (r: Pool)
    ensures Valid(r)
    ensures forall i :: 0 <= i < |r.slots| ==> r.slots[i].None?
    ensures r.currentSize == 0 && r.capacity == capacity && r.disk == []
  {
    var slots := seq(NUM_PAGES, _ => None);
    assert Occupancy(slots) == 0;
    Pool(slots, capacity, 0, [])
  }

  /** find_page: the lowest occupied slot holding `id`, or None. */
  function FindPage(slots: seq<Option<Page>>, id: int): (r: Option<nat>)
    ensures r.Some? ==> Holds(slots, r.value, id)
    ensures r.Some? ==> forall j :: 0 <= j < r.value ==> !Holds(slots, j, id)
    ensures r.None? <==> forall j :: 0 <= j < |slots| ==> !Holds(slots, j, id)
  {
    var p := (s: Option<Page>) => HoldsPage(s, id);
    var r := Search.First(slots, p);
    assert r.None? ==> forall j :: 0 <= j < |slots| ==> !Holds(slots, j, id) by {
      if r.None? {
        forall j | 0 <= j < |slots| ensures !Holds(slots, j, id) {
          assert !p(slots[j]);
        }
      }
    }
    assert r.Some? ==> Holds(slots, r.value, id);
    r
  }

  /** The lowest occupied slot whose page is dirty: the eviction victim. */
  function FirstDirty(slots: seq<Option<Page>>): (r: Option<nat>)
    ensures r.Some? ==> r.value < |slots| && IsDirtySlot(slots[r.value])
    ensures r.Some? ==> forall j :: 0 <= j < r.value ==> !IsDirtySlot(slots[j])
    ensures r.None? <==> forall j :: 0 <= j < |slots| ==> !IsDirtySlot(slots[j])
  {
    Search.First(slots, IsDirtySlot)
  }

  /** The lowest NULL slot, where a newly loaded page goes. */
  function FirstEmpty(slots: seq<Option<Page>>): (r: Option<nat>)
    ensures r.Some? ==> r.value < |slots| && slots[r.value].None?
    ensures r.Some? ==> forall j :: 0 <= j < r.value ==> slots[j].Some?
    ensures r.None? <==> forall j :: 0 <= j < |slots| ==> slots[j].Some?
  {
    Search.First(slots, (s: Option<Page>) => s.None?)
  }

  /** load_page_from_disk: the simulated read yields a zero-filled clean page. */
  function LoadPageFromDisk(id: int): (p: Page)
    ensures p.pageId == id && !p.isDirty
    ensures |p.data| == PAGE_SIZE && forall k :: 0 <= k < |p.data| ==> p.data[k] == 0
  {
    Page(id, ZeroPage(), false)
  }

  /** write_page_to_disk: a dirty page is written once and becomes clean; a
      clean page is left alone and nothing is written. */
  function WritePageToDisk(p: Page): (r: Flushed)
    ensures !r.page.isDirty
    ensures r.page.pageId == p.pageId && r.page.data == p.data
    ensures p.isDirty ==> r.writes == [DiskWrite(p.pageId, p.data)]
    ensures !p.isDirty ==> r.page == p && r.writes == []
  {
    if p.isDirty then Flushed(p.(isDirty := false), [DiskWrite(p.pageId, p.data)])
    else Flushed(p, [])
  }

  /** Flushing twice writes nothing the second time and changes nothing. */
  lemma WritePageToDiskIdempotent(p: Page)
    ensures WritePageToDisk(WritePageToDisk(p).page).writes == []
    ensures WritePageToDisk(WritePageToDisk(p).page).page == WritePageToDisk(p).page
  {
  }

  /** The eviction step of load_page_to_buffer: the first dirty page, if there
      is one, is written to disk and its slot freed. */
  function EvictFirstDirty(pool: Pool): (r: Pool)
    ensures r.capacity == pool.capacity && |r.slots| == |pool.slots|
    ensures FirstDirty(pool.slots).None? ==> r == pool
    ensures FirstDirty(pool.slots).Some? ==>
      var i := FirstDirty(pool.slots).value;
      var victim := pool.slots[i].value;
      && r.disk == pool.disk + [DiskWrite(victim.pageId, victim.data)]
      && r.slots == pool.slots[i := None]
      && r.currentSize == pool.currentSize - 1
  {
    match FirstDirty(pool.slots)
    case None => pool
    case Some(i) =>
      var flushed := WritePageToDisk(pool.slots[i].value);
      pool.(slots := pool.slots[i := None],
            currentSize := pool.currentSize - 1,
            disk := pool.disk + flushed.writes)
  }

  /** The slots the NULL-free path of load_page_to_buffer works on: after the
      eviction step when the pool is at or over capacity. */
  function MakeRoom(pool: Pool): (r: Pool)
    ensures r.capacity == pool.capacity && |r.slots| == |pool.slots|
    ensures pool.currentSize < pool.capacity || FirstDirty(pool.slots).None? ==> r == pool
    ensures pool.currentSize >= pool.capacity && FirstDirty(pool.slots).Some? ==>
      var i := FirstDirty(pool.slots).value;
      var victim := pool.slots[i].value;
      && victim.isDirty
      && r.slots == pool.slots[i := None]
      && r.currentSize == pool.currentSize - 1
      && r.disk == pool.disk + [DiskWrite(victim.pageId, victim.data)]
  {
    if pool.currentSize >= pool.capacity then EvictFirstDirty(pool) else pool
  }

  /** When load_page_to_buffer returns a page (rather than NULL): the page is
      resident already, or a slot is free, or the pool is at capacity and a
      dirty page can be evicted. */
  predicate CanLoad(pool: Pool, id: int) {
    || FindPage(pool.slots, id).Some?
    || FirstEmpty(pool.slots).Some?
    || (pool.currentSize >= pool.capacity && FirstDirty(pool.slots).Some?)
  }

  /** After the eviction step a slot is free exactly when the page could be loaded on a miss. */
  lemma MakeRoomFreesSlot(pool: Pool, id: int)
    ensures FindPage(pool.slots, id).None? ==> (FirstEmpty(MakeRoom(pool).slots).Some? <==> CanLoad(pool, id))
  {
    var room := MakeRoom(pool);
    if pool.currentSize >= pool.capacity && FirstDirty(pool.slots).Some? {
      var i := FirstDirty(pool.slots).value;
      assert room.slots[i].None?;
    } else {
      assert room.slots == pool.slots;
    }
  }

  /** load_page_to_buffer. */
  function LoadPageToBuffer(pool: Pool, id: int): (r: Loaded)
    // a returned page is the requested one, and NULL exactly when nothing can be loaded
    ensures r.slot.Some? ==> Holds(r.pool.slots, r.slot.value, id)
    ensures r.slot.Some? <==> CanLoad(pool, id)
    // hit: the resident page is returned and nothing changes
    ensures FindPage(pool.slots, id).Some? ==> r == Loaded(pool, FindPage(pool.slots, id))
    // NULL: nothing changes at all
    ensures r.slot.None? ==> r.pool == pool
    ensures r.pool.capacity == pool.capacity && |r.pool.slots| == |pool.slots|
  {
    MakeRoomFreesSlot(pool, id);
    match FindPage(pool.slots, id)
    case Some(i) => Loaded(pool, Some(i))
    case None =>
      var room := MakeRoom(pool);
      match FirstEmpty(room.slots)
      case Some(k) =>
        Loaded(room.(slots := room.slots[k := Some(LoadPageFromDisk(id))],
                     currentSize := room.currentSize + 1), Some(k))
      case None => Loaded(room, None)
  }

  /** A miss at or over capacity evicts at most one page: the lowest dirty one,
      which is written to disk exactly once and no longer resident; with no
      dirty page nothing is written and every resident page stays. */
  lemma LoadMissEviction(pool: Pool, id: int)
    requires Valid(pool)
    requires FindPage(pool.slots, id).None?
    requires pool.currentSize >= pool.capacity
    ensures FirstDirty(pool.slots).Some? ==>
      var i := FirstDirty(pool.slots).value;
      var victim := pool.slots[i].value;
      var r := LoadPageToBuffer(pool, id);
      && r.pool.disk == pool.disk + [DiskWrite(victim.pageId, victim.data)]
      && !Resident(r.pool, victim.pageId)
      && (forall j :: 0 <= j < |pool.slots| && j != i && pool.slots[j].Some? ==> r.pool.slots[j] == pool.slots[j])
    ensures FirstDirty(pool.slots).None? ==>
      var r := LoadPageToBuffer(pool, id);
      && r.pool.disk == pool.disk
      && (forall j :: 0 <= j < |pool.slots| && pool.slots[j].Some? ==> r.pool.slots[j] == pool.slots[j])
  {
    var r := LoadPageToBuffer(pool, id);
    var room := MakeRoom(pool);
    if FirstDirty(pool.slots).Some? {
      var i := FirstDirty(pool.slots).value;
      var victim := pool.slots[i].value;
      assert room == EvictFirstDirty(pool);
      assert room.slots == pool.slots[i := None];
      assert room.slots[i].None?;
      var k := FirstEmpty(room.slots).value;
      assert k <= i;
      assert r.pool.slots == room.slots[k := Some(LoadPageFromDisk(id))];
      forall j | 0 <= j < |r.pool.slots|
        ensures !Holds(r.pool.slots, j, victim.pageId)
      {
        if j == k {
          assert !Holds(pool.slots, j, id);
          assert Holds(pool.slots, i, victim.pageId);
          assert victim.pageId != id;
        } else if j != i && pool.slots[j].Some? {
          assert pool.slots[j].value.pageId != victim.pageId;
        }
      }
    }
  }

  /** A miss that returns a page puts a fresh clean zero page with the
      requested id into the lowest empty slot left by the eviction step, and
      counts one more resident page. */
  lemma LoadMissFresh(pool: Pool, id: int)
    requires FindPage(pool.slots, id).None?
    requires CanLoad(pool, id)
    ensures
      var room := MakeRoom(pool);
      var r := LoadPageToBuffer(pool, id);
      && r.slot == FirstEmpty(room.slots)
      && r.pool.slots[r.slot.value] == Some(Page(id, ZeroPage(), false))
      && (forall j :: 0 <= j < r.slot.value ==> room.slots[j].Some?)
      && r.pool.currentSize == room.currentSize + 1
      && r.pool.disk == room.disk
  {
  }

  /** Emptying or filling one slot moves the occupancy count by one. */
  lemma {:induction false} OccupancyUpdate(slots: seq<Option<Page>>, i: nat, x: Option<Page>)
    requires i < |slots|
    ensures Occupancy(slots[i := x]) ==
      Occupancy(slots) - (if slots[i].Some? then 1 else 0) + (if x.Some? then 1 else 0)
  {
    if i == 0 {
      assert slots[i := x][1..] == slots[1..];
    } else {
      assert slots[i := x][1..] == slots[1..][i - 1 := x];
      OccupancyUpdate(slots[1..], i - 1, x);
    }
  }

  /** The eviction step keeps the pool invariant. */
  lemma MakeRoomPreservesValid(pool: Pool)
    requires Valid(pool)
    ensures Valid(MakeRoom(pool))
  {
    if MakeRoom(pool) != pool {
      OccupancyUpdate(pool.slots, FirstDirty(pool.slots).value, None);
    }
  }

  /** Filling an empty slot with a page no slot holds keeps the pool invariant. */
  lemma StorePreservesValid(pool: Pool, k: nat, p: Page)
    requires Valid(pool) && k < |pool.slots| && pool.slots[k].None? && |p.data| == PAGE_SIZE
    requires forall j :: 0 <= j < |pool.slots| && pool.slots[j].Some? ==> pool.slots[j].value.pageId != p.pageId
    ensures Valid(pool.(slots := pool.slots[k := Some(p)], currentSize := pool.currentSize + 1))
  {
    OccupancyUpdate(pool.slots, k, Some(p));
  }

  /** Loading keeps the pool invariant. Note that it does not keep
      `currentSize <= capacity`: with no dirty page nothing is evicted. */
  lemma LoadPreservesValid(pool: Pool, id: int)
    requires Valid(pool)
    ensures Valid(LoadPageToBuffer(pool, id).pool)
  {
    if FindPage(pool.slots, id).None? {
      var room := MakeRoom(pool);
      MakeRoomPreservesValid(pool);
      if FirstEmpty(room.slots).Some? {
        var k := FirstEmpty(room.slots).value;
        forall j | 0 <= j < |room.slots| && room.slots[j].Some?
          ensures room.slots[j].value.pageId != id
        {
          assert room.slots[j] == pool.slots[j];
          assert !Holds(pool.slots, j, id);
        }
        StorePreservesValid(room, k, LoadPageFromDisk(id));
      }
    }
  }

  /** A miss that needs no eviction (room to spare, or nothing dirty to
      evict) fills the first empty slot with the page read from disk. */
  lemma LoadIntoEmpty(pool: Pool, id: int, k: nat)
    requires k < |pool.slots| && pool.slots[k].None?
    requires forall j :: 0 <= j < k ==> pool.slots[j].Some?
    requires forall j :: 0 <= j < |pool.slots| ==> !Holds(pool.slots, j, id)
    requires pool.currentSize < pool.capacity || FirstDirty(pool.slots).None?
    ensures LoadPageToBuffer(pool, id) ==
      Loaded(pool.(slots := pool.slots[k := Some(LoadPageFromDisk(id))], currentSize := pool.currentSize + 1), Some(k))
  {
    assert FindPage(pool.slots, id).None?;
    assert MakeRoom(pool) == pool;
    assert FirstEmpty(pool.slots) == Some(k);
  }

  /** A counterexample to a capacity bound: a full pool of clean pages grows
      past its capacity on a miss. */
  lemma CleanPoolOutgrowsCapacity()
    ensures
      var pool := LoadPageToBuffer(Init(1), 1).pool;
      var r := LoadPageToBuffer(pool, 2);
      pool.currentSize == 1 && r.slot.Some? && r.pool.currentSize == 2 > r.pool.capacity
  {
    var p0 := Init(1);
    LoadIntoEmpty(p0, 1, 0);
    var pool := LoadPageToBuffer(p0, 1).pool;
    assert pool.slots[0] == Some(Page(1, ZeroPage(), false));
    assert FirstDirty(pool.slots).None?;
    LoadIntoEmpty(pool, 2, 1);
  }

  /** Storing a page for `id` in slot `k` when no lower slot holds `id` makes
      `k` the slot find_page reports. */
  lemma FindPageAfterStore(slots: seq<Option<Page>>, k: nat, p: Page)
    requires k < |slots|
    requires forall j :: 0 <= j < k ==> !Holds(slots, j, p.pageId)
    ensures FindPage(slots[k := Some(p)], p.pageId) == Some(k)
  {
    var r := FindPage(slots[k := Some(p)], p.pageId);
    assert Holds(slots[k := Some(p)], k, p.pageId);
    if r.value < k {
      assert Holds(slots, r.value, p.pageId);
    }
  }

  /** The slot load_page_to_buffer returns is the one find_page reports afterwards. */
  lemma LoadedIsFound(pool: Pool, id: int)
    requires CanLoad(pool, id)
    ensures FindPage(LoadPageToBuffer(pool, id).pool.slots, id) == LoadPageToBuffer(pool, id).slot
  {
    var r := LoadPageToBuffer(pool, id);
    if FindPage(pool.slots, id).None? {
      var room := MakeRoom(pool);
      var k := r.slot.value;
      forall j | 0 <= j < k ensures !Holds(room.slots, j, id) {
        assert !Holds(pool.slots, j, id);
        if pool.currentSize >= pool.capacity && FirstDirty(pool.slots).Some? {
          assert room.slots == pool.slots[FirstDirty(pool.slots).value := None];
        }
      }
      FindPageAfterStore(room.slots, k, LoadPageFromDisk(id));
    }
  }

  /** write_page: load the page, copy the bytes in, mark it dirty. The C code
      dereferences the loaded page without a NULL check, so loading must succeed. */
  function WritePage(pool: Pool, id: int, d: seq<bv8>): (r: Pool)
    requires |d| == PAGE_SIZE
    requires CanLoad(pool, id)
    ensures FindPage(r.slots, id).Some?
    ensures r.slots[FindPage(r.slots, id).value] == Some(Page(id, d, true))
    ensures
      var loaded := LoadPageToBuffer(pool, id);
      && r.slots == loaded.pool.slots[loaded.slot.value := Some(Page(id, d, true))]
      && r.currentSize == loaded.pool.currentSize && r.disk == loaded.pool.disk
      && r.capacity == pool.capacity
  {
    var loaded := LoadPageToBuffer(pool, id);
    var k := loaded.slot.value;
    var page := loaded.pool.slots[k].value;
    LoadedIsFound(pool, id);
    FindPageAfterStore(loaded.pool.slots, k, Page(id, d, true));
    loaded.pool.(slots := loaded.pool.slots[k := Some(page.(data := d, isDirty := true))])
  }

  /** read_page: load the page and copy its bytes out; the dirty flag is untouched. */
  function ReadPage(pool: Pool, id: int): (r: Read)
    requires CanLoad(pool, id)
    ensures r.pool == LoadPageToBuffer(pool, id).pool
    ensures FindPage(r.pool.slots, id).Some?
    ensures r.data == r.pool.slots[FindPage(r.pool.slots, id).value].value.data
    ensures FindPage(pool.slots, id).Some? ==> r.pool == pool
  {
    var loaded := LoadPageToBuffer(pool, id);
    LoadedIsFound(pool, id);
    Read(loaded.pool, loaded.pool.slots[loaded.slot.value].value.data)
  }

  /** Reading a written page returns the bytes written, keeps it dirty and
      changes nothing in the pool. */
  lemma ReadAfterWrite(pool: Pool, id: int, d: seq<bv8>)
    requires |d| == PAGE_SIZE
    requires CanLoad(pool, id)
    ensures CanLoad(WritePage(pool, id, d), id)
    ensures ReadPage(WritePage(pool, id, d), id).data == d
    ensures ReadPage(WritePage(pool, id, d), id).pool == WritePage(pool, id, d)
  {
  }

  /** Writing keeps the pool invariant. */
  lemma WritePreservesValid(pool: Pool, id: int, d: seq<bv8>)
    requires Valid(pool)
    requires |d| == PAGE_SIZE
    requires CanLoad(pool, id)
    ensures Valid(WritePage(pool, id, d))
  {
    LoadPreservesValid(pool, id);
    var loaded := LoadPageToBuffer(pool, id);
    var k := loaded.slot.value;
    OccupancyUpdate(loaded.pool.slots, k, Some(Page(id, d, true)));
  }

  /** The writes buffer_pool_destroy issues: the dirty resident pages in slot order. */
  function DirtyWrites(slots: seq<Option<Page>>): seq<DiskWrite> {
    if |slots| == 0 then []
    else
      var last := slots[|slots| - 1];
      DirtyWrites(slots[..|slots| - 1]) +
        (if IsDirtySlot(last) then [DiskWrite(last.value.pageId, last.value.data)] else [])
  }

  /** Every dirty resident page is written. */
  lemma {:induction false} DirtyWritesComplete(slots: seq<Option<Page>>)
    ensures forall i :: 0 <= i < |slots| && IsDirtySlot(slots[i]) ==>
      DiskWrite(slots[i].value.pageId, slots[i].value.data) in DirtyWrites(slots)
  {
    if |slots| > 0 {
      var n := |slots| - 1;
      var init := slots[..n];
      DirtyWritesComplete(init);
      forall i | 0 <= i < |slots| && IsDirtySlot(slots[i])
        ensures DiskWrite(slots[i].value.pageId, slots[i].value.data) in DirtyWrites(slots)
      {
        if i < n {
          assert init[i] == slots[i];
        }
      }
    }
  }

  /** Only dirty resident pages are written. */
  lemma {:induction false} DirtyWritesSound(slots: seq<Option<Page>>)
    ensures forall w :: w in DirtyWrites(slots) ==>
      exists i :: 0 <= i < |slots| && IsDirtySlot(slots[i]) && w == DiskWrite(slots[i].value.pageId, slots[i].value.data)
  {
    if |slots| > 0 {
      var n := |slots| - 1;
      var init := slots[..n];
      DirtyWritesSound(init);
      forall w | w in DirtyWrites(slots)
        ensures exists i :: 0 <= i < |slots| && IsDirtySlot(slots[i]) && w == DiskWrite(slots[i].value.pageId, slots[i].value.data)
      {
        if w in DirtyWrites(init) {
          var i :| 0 <= i < |init| && IsDirtySlot(init[i]) && w == DiskWrite(init[i].value.pageId, init[i].value.data);
          assert slots[i] == init[i];
        } else {
          assert IsDirtySlot(slots[n]);
        }
      }
    }
  }

  /** Each dirty resident page is written once per slot holding it. */
  lemma {:induction false} DirtyWritesCount(slots: seq<Option<Page>>)
    ensures |DirtyWrites(slots)| == |set i | 0 <= i < |slots| && IsDirtySlot(slots[i])|
  {
    if |slots| > 0 {
      var n := |slots| - 1;
      var init := slots[..n];
      DirtyWritesCount(init);
      var before := set i | 0 <= i < n && IsDirtySlot(init[i]);
      var after := set i | 0 <= i < |slots| && IsDirtySlot(slots[i]);
      if IsDirtySlot(slots[n]) {
        assert after == before + {n};
      } else {
        assert after == before;
      }
    }
  }

  /** buffer_pool_destroy: write every resident page through write_page_to_disk
      in slot order and release the slots; returns the disk trace afterwards. */
  method Destroy(pool: Pool) returns (disk: seq<DiskWrite>)
    ensures disk == pool.disk + DirtyWrites(pool.slots)
  {
    disk := pool.disk;
    var i := 0;
    while i < |pool.slots|
      invariant 0 <= i <= |pool.slots|
      invariant disk == pool.disk + DirtyWrites(pool.slots[..i])
    {
      assert pool.slots[..i + 1][..i] == pool.slots[..i];
      if pool.slots[i].Some? {
        var flushed := WritePageToDisk(pool.slots[i].value);
        disk := disk + flushed.writes;
      }
      i := i + 1;
    }
    assert pool.slots[..i] == pool.slots;
  }

  /** The writes of a table whose first three slots hold dirty pages 1, 2, 3
      with bytes `d` and whose other slots are empty. */
  lemma {:induction false} DirtyWritesOfFirstThree(s: seq<Option<Page>>, d: seq<bv8>)
    requires 3 <= |s|
    requires s[0] == Some(Page(1, d, true)) && s[1] == Some(Page(2, d, true)) && s[2] == Some(Page(3, d, true))
    requires forall j :: 3 <= j < |s| ==> s[j].None?
    ensures DirtyWrites(s) == [DiskWrite(1, d), DiskWrite(2, d), DiskWrite(3, d)]
  {
    assert DirtyWrites(s[..1]) == [DiskWrite(1, d)] by {
      assert s[..1][..0] == [];
    }
    assert DirtyWrites(s[..2]) == [DiskWrite(1, d), DiskWrite(2, d)] by {
      assert s[..2][..1] == s[..1];
    }
    assert DirtyWrites(s[..3]) == [DiskWrite(1, d), DiskWrite(2, d), DiskWrite(3, d)] by {
      assert s[..3][..2] == s[..2];
    }
    var k := 3;
    while k < |s|
      invariant 3 <= k <= |s|
      invariant DirtyWrites(s[..k]) == [DiskWrite(1, d), DiskWrite(2, d), DiskWrite(3, d)]
    {
      assert s[..k + 1][..k] == s[..k];
      k := k + 1;
    }
    assert s[..k] == s;
  }

  /** Writing a page that is not resident, when no eviction is needed, puts
      it dirty into the first empty slot. */
  lemma WriteIntoEmpty(pool: Pool, id: int, d: seq<bv8>, k: nat)
    requires |d| == PAGE_SIZE
    requires k < |pool.slots| && pool.slots[k].None?
    requires forall j :: 0 <= j < k ==> pool.slots[j].Some?
    requires forall j :: 0 <= j < |pool.slots| ==> !Holds(pool.slots, j, id)
    requires pool.currentSize < pool.capacity
    ensures CanLoad(pool, id)
    ensures WritePage(pool, id, d) ==
      pool.(slots := pool.slots[k := Some(Page(id, d, true))], currentSize := pool.currentSize + 1)
  {
    LoadIntoEmpty(pool, id, k);
  }

  /** The pool of the call sequence in main after its first `n` writes: pages 1 .. n
      dirty with bytes `d` in slots 0 .. n - 1, capacity 3, no disk writes yet. */
  function Filled(d: seq<bv8>, n: nat): Pool {
    Pool(seq(NUM_PAGES, j => if j < n then Some(Page(j + 1, d, true)) else None), 3, n, [])
  }

  /** The call sequence in main starts from the pool with no page written. */
  lemma InitIsEmptyFilled(d: seq<bv8>)
    ensures Init(3) == Filled(d, 0)
  {
    assert Init(3).slots == Filled(d, 0).slots;
  }

  /** Each write of the call sequence in main puts the next page into the next slot. */
  lemma WriteNext(d: seq<bv8>, n: nat)
    requires |d| == PAGE_SIZE && n < 3
    ensures CanLoad(Filled(d, n), n + 1)
    ensures WritePage(Filled(d, n), n + 1, d) == Filled(d, n + 1)
  {
    var pool := Filled(d, n);
    WriteIntoEmpty(pool, n + 1, d, n);
    assert pool.slots[n := Some(Page(n + 1, d, true))] == Filled(d, n + 1).slots;
  }

  /** The writes of the call sequence in main: it starts from the empty pool of
      capacity 3, and writing pages 1, 2 and 3 in turn puts each dirty into
      the next slot, so the three writes leave Filled(d, 3). */
  lemma {:induction false} ScenarioWrites(d: seq<bv8>)
    requires |d| == PAGE_SIZE
    ensures Init(3) == Filled(d, 0)
    ensures forall n: nat :: n < 3 ==>
      CanLoad(Filled(d, n), n + 1) && WritePage(Filled(d, n), n + 1, d) == Filled(d, n + 1)
  {
    InitIsEmptyFilled(d);
    forall n: nat | n < 3
      ensures CanLoad(Filled(d, n), n + 1) && WritePage(Filled(d, n), n + 1, d) == Filled(d, n + 1)
    {
      WriteNext(d, n);
    }
  }

  /** The rest of the call sequence in main, from the pool its three writes leave
      (see ScenarioWrites): reading page 2 is a hit returning its bytes, and
      destroying the pool writes pages 1, 2 and 3 in that order. */
  lemma {:induction false} MainScenario(d: seq<bv8>)
    requires |d| == PAGE_SIZE
    ensures
      var p3 := Filled(d, 3);
      && CanLoad(p3, 2)
      && ReadPage(p3, 2).data == d
      && ReadPage(p3, 2).pool == p3
      && p3.currentSize == 3
      && DirtyWrites(p3.slots) == [DiskWrite(1, d), DiskWrite(2, d), DiskWrite(3, d)]
  {
    var p3 := Filled(d, 3);
    ReadResident(p3, 2, 1);
    DirtyWritesOfFirstThree(p3.slots, d);
  }

  /** Reading a resident page is a hit: its bytes come back and nothing changes. */
  lemma ReadResident(pool: Pool, id: int, k: nat)
    requires Holds(pool.slots, k, id)
    requires forall j :: 0 <= j < k ==> !Holds(pool.slots, j, id)
    ensures CanLoad(pool, id)
    ensures ReadPage(pool, id).pool == pool
    ensures ReadPage(pool, id).data == pool.slots[k].value.data
  {
    assert FindPage(pool.slots, id) == Some(k);
  }
}
