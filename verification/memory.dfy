/** The first-fit free-list allocator of memory.c.

    The pool's bytes are addressed by offsets from its start. Each block
    begins with a header of HEADER bytes holding its size; `headers` maps the
    offset of every header written so far to the size stored there. The free
    list is the sequence of header offsets in list order (the C `next` links).
    A returned pointer is the offset just past its block's header. */
module MemoryPool {
  import opened Wrappers
  import Search

  /** sizeof(Block) on an LP64 target: a size_t and a pointer. */
  const HEADER: nat := 16

  /** size_t arithmetic is modulo 2^64. */
  const SIZE_T_LIMIT: nat := 0x1_0000_0000_0000_0000

  /** POOL_SIZE, the size of the pool the test driver creates. */
  const POOL_SIZE: nat := 1024 * 1024

  datatype Pool = Pool(poolSize: nat, headers: map<nat, nat>, freeList: seq<nat>)

  /** The result of poolMalloc: the pool afterwards and the returned pointer,
      None standing for NULL. */
  datatype Allocation = Allocation(pool: Pool, addr: Option<nat>)

  /** size_t addition. */
  function SizeAdd(a: nat, b: nat): nat {
    (a + b) % SIZE_T_LIMIT
  }

  /** The pool fits in size_t, every header describes a block inside the
      pool, and every block on the free list has a header. */
  predicate WellFormed(p: Pool) {
    && p.poolSize < SIZE_T_LIMIT
    && (forall o :: o in p.headers ==> o + HEADER + p.headers[o] <= p.poolSize)
    && (forall k :: 0 <= k < |p.freeList| ==> p.freeList[k] in p.headers)
  }

  /** The byte ranges [a, a + HEADER + sa) and [b, b + HEADER + sb) do not overlap. */
  predicate Apart(a: nat, sa: nat, b: nat, sb: nat) {
    a + HEADER + sa <= b || b + HEADER + sb <= a
  }

  /** The blocks on the free list cover pairwise disjoint byte ranges. */
  predicate Disjoint(p: Pool) {
    forall j, k :: 0 <= j < |p.freeList| && 0 <= k < |p.freeList| && j != k ==>
      p.freeList[j] in p.headers && p.freeList[k] in p.headers &&
      Apart(p.freeList[j], p.headers[p.freeList[j]], p.freeList[k], p.headers[p.freeList[k]])
  }

  /** Bytes covered by the blocks of `list`, headers included. */
  function Covered(headers: map<nat, nat>, list: seq<nat>): nat {
    if |list| == 0 then 0
    else (if list[0] in headers then HEADER + headers[list[0]] else 0) + Covered(headers, list[1..])
  }

  lemma {:induction false} CoveredConcat(headers: map<nat, nat>, a: seq<nat>, b: seq<nat>)
    ensures Covered(headers, a + b) == Covered(headers, a) + Covered(headers, b)
  {
    if |a| == 0 {
      assert a + b == b;
    } else {
      assert (a + b)[1..] == a[1..] + b;
      CoveredConcat(headers, a[1..], b);
    }
  }

  /** Coverage depends only on the headers of the listed blocks. */
  lemma {:induction false} CoveredFrame(h1: map<nat, nat>, h2: map<nat, nat>, list: seq<nat>)
    requires forall k :: 0 <= k < |list| ==> (list[k] in h1 <==> list[k] in h2)
    requires forall k :: 0 <= k < |list| && list[k] in h1 ==> h1[list[k]] == h2[list[k]]
    ensures Covered(h1, list) == Covered(h2, list)
  {
    if |list| > 0 {
      CoveredFrame(h1, h2, list[1..]);
    }
  }

  /** createMemoryPool: the free list is one block at offset 0 spanning the
      whole pool after its header. The C code writes a header into the pool,
      so the pool must hold one; its size is a size_t. */
  function CreateMemoryPool(poolSize: nat): (p: Pool)
    requires HEADER <= poolSize < SIZE_T_LIMIT
    ensures WellFormed(p) && Disjoint(p)
    ensures p.poolSize == poolSize && p.headers.Keys == {0}
    ensures p.freeList == [0] && 0 in p.headers && p.headers[0] == poolSize - HEADER
    ensures Covered(p.headers, p.freeList) == poolSize
  {
    Pool(poolSize, map[0 := poolSize - HEADER], [0])
  }

  predicate Fits(p: Pool, o: nat, size: nat) {
    o in p.headers && p.headers[o] >= size
  }

  /** The search loop of poolMalloc: the first listed block of at least `size` bytes. */
  function FirstFit(p: Pool, size: nat): (r: Option<nat>)
    ensures r.Some? ==> r.value < |p.freeList| && Fits(p, p.freeList[r.value], size)
    ensures r.Some? ==> forall j :: 0 <= j < r.value ==> !Fits(p, p.freeList[j], size)
    ensures r.None? <==> forall j :: 0 <= j < |p.freeList| ==> !Fits(p, p.freeList[j], size)
  {
    var fits := (o: nat) => Fits(p, o, size);
    var r := Search.First(p.freeList, fits);
    assert r.None? ==> forall j :: 0 <= j < |p.freeList| ==> !Fits(p, p.freeList[j], size) by {
      if r.None? {
        forall j | 0 <= j < |p.freeList| ensures !Fits(p, p.freeList[j], size) {
          assert !fits(p.freeList[j]);
        }
      }
    }
    assert r.Some? ==> Fits(p, p.freeList[r.value], size);
    r
  }

  /** The first-fit block is the `i`th when it fits and no earlier one does. */
  lemma FirstFitAt(p: Pool, size: nat, i: nat)
    requires i < |p.freeList| && Fits(p, p.freeList[i], size)
    requires forall j :: 0 <= j < i ==> !Fits(p, p.freeList[j], size)
    ensures FirstFit(p, size) == Some(i)
  {
  }

  /** In a well-formed pool a block's size plus a header never wraps around. */
  lemma NoWrap(p: Pool, o: nat, size: nat)
    requires WellFormed(p) && Fits(p, o, size)
    ensures SizeAdd(size, HEADER) == size + HEADER
    ensures p.headers[o] - size - HEADER < SIZE_T_LIMIT
  {
  }

  /** The headers after splitting block `o`: it shrinks to `size` bytes and
      a new header right after those bytes takes the rest. */
  function Carve(headers: map<nat, nat>, o: nat, size: nat): (r: map<nat, nat>)
    requires o in headers && headers[o] > size + HEADER
    ensures o in r && o + HEADER + size in r
    ensures r[o] == size && r[o + HEADER + size] == headers[o] - size - HEADER
  {
    headers[o + HEADER + size := headers[o] - size - HEADER][o := size]
  }

  /** `h'` has the headers of `h` plus one at `b`, and every header other
      than those at `a` and `b` keeps its size. */
  predicate HeadersKept(h: map<nat, nat>, h': map<nat, nat>, a: nat, b: nat) {
    && h'.Keys == h.Keys + {b}
    && forall q :: q in h && q != a && q != b ==> q in h' && h'[q] == h[q]
  }

  /** Splitting touches no header but the split block's and the new tail's:
      exactly one header is added and every other keeps its size. */
  lemma CarveKeepsHeaders(headers: map<nat, nat>, o: nat, size: nat)
    requires o in headers && headers[o] > size + HEADER
    ensures HeadersKept(headers, Carve(headers, o, size), o, o + HEADER + size)
  {
  }

  /** The free list with its `i`th block replaced by `pieces`. */
  function Replace(list: seq<nat>, i: nat, pieces: seq<nat>): (r: seq<nat>)
    requires i < |list|
    ensures |r| == |list| - 1 + |pieces|
    ensures multiset(r) + multiset{list[i]} == multiset(list) + multiset(pieces)
  {
    assert list == list[..i] + [list[i]] + list[i + 1..];
    list[..i] + pieces + list[i + 1..]
  }

  /** poolMalloc as written: the first block that fits is handed out. If it
      is larger than `size` plus a header, its tail becomes a new free block
      linked right after it and the block shrinks to `size` bytes, but the
      block itself stays on the free list; otherwise it is unlinked. */
  function PoolMalloc(p: Pool, size: nat): (r: Allocation)
    requires WellFormed(p) && size < SIZE_T_LIMIT
    ensures WellFormed(r.pool) && r.pool.poolSize == p.poolSize
    ensures r.addr.None? <==> FirstFit(p, size).None?
    ensures r.addr.None? ==> r.pool == p
    ensures FirstFit(p, size).Some? ==>
      var i := FirstFit(p, size).value;
      var o: nat := p.freeList[i];
      var cur := p.headers[o];
      && r.addr == Some(o + HEADER)
      && (cur > size + HEADER ==>
            && r.pool.freeList == Replace(p.freeList, i, [o, o + HEADER + size])
            && r.pool.headers == Carve(p.headers, o, size))
      && (cur <= size + HEADER ==>
            && r.pool.freeList == Replace(p.freeList, i, [])
            && r.pool.headers == p.headers)
  {
    match FirstFit(p, size)
    case None => Allocation(p, None)
    case Some(i) =>
      var o: nat := p.freeList[i];
      var cur := p.headers[o];
      NoWrap(p, o, size);
      if cur > SizeAdd(size, HEADER) then
        var next: nat := o + HEADER + size;
        var headers := Carve(p.headers, o, size);
        Allocation(p.(headers := headers, freeList := Replace(p.freeList, i, [o, next])),
                   Some(o + HEADER))
      else
        Allocation(p.(freeList := Replace(p.freeList, i, [])), Some(o + HEADER))
  }

  /** Every listed block other than the `i`th lies wholly outside it. */
  lemma OthersApart(p: Pool, i: nat)
    requires Disjoint(p) && WellFormed(p) && i < |p.freeList|
    ensures forall k :: 0 <= k < |p.freeList| && k != i ==>
      p.freeList[k] != p.freeList[i] &&
      Apart(p.freeList[k], p.headers[p.freeList[k]], p.freeList[i], p.headers[p.freeList[i]])
  {
  }

  /** A block inside the range of `o` lies apart from whatever `o` lies apart from. */
  lemma InsideApart(a: nat, sa: nat, o: nat, so: nat, q: nat, sq: nat)
    requires Apart(a, sa, o, so)
    requires o <= q && q + HEADER + sq <= o + HEADER + so
    ensures a != q && Apart(a, sa, q, sq) && Apart(q, sq, a, sa)
  {
  }

  /** Every listed block other than the `i`th keeps its header in `h`. */
  predicate KeepsOthers(p: Pool, i: nat, h: map<nat, nat>)
    requires WellFormed(p)
  {
    forall k :: 0 <= k < |p.freeList| && k != i ==>
      p.freeList[k] in h && h[p.freeList[k]] == p.headers[p.freeList[k]]
  }

  /** Each of `pieces` has a header in `h` and lies inside the `i`th block. */
  predicate PiecesInside(p: Pool, i: nat, h: map<nat, nat>, pieces: seq<nat>)
    requires i < |p.freeList| && p.freeList[i] in p.headers
  {
    forall k :: 0 <= k < |pieces| ==>
      pieces[k] in h && p.freeList[i] <= pieces[k] &&
      pieces[k] + HEADER + h[pieces[k]] <= p.freeList[i] + HEADER + p.headers[p.freeList[i]]
  }

  /** Each of `pieces` has a header in `h` and starts after the first
      `HEADER + h[o]` bytes of the `i`th block `o`. */
  predicate PiecesAfter(p: Pool, i: nat, h: map<nat, nat>, pieces: seq<nat>)
    requires i < |p.freeList| && p.freeList[i] in h
  {
    forall k :: 0 <= k < |pieces| ==>
      pieces[k] in h && p.freeList[i] + HEADER + h[p.freeList[i]] <= pieces[k]
  }

  /** Every block on the free list has a header, is not `o`, and lies apart from `o`. */
  predicate AllApartFrom(r: Pool, o: nat)
    requires o in r.headers
  {
    forall k :: 0 <= k < |r.freeList| ==>
      && r.freeList[k] != o && r.freeList[k] in r.headers
      && Apart(r.freeList[k], r.headers[r.freeList[k]], o, r.headers[o])
  }

  /** Where the `j`th entry of a replaced list comes from. */
  lemma ReplaceEntry(list: seq<nat>, i: nat, pieces: seq<nat>, j: nat)
    requires i < |list| && j < |list| - 1 + |pieces|
    ensures j < i ==> Replace(list, i, pieces)[j] == list[j]
    ensures i <= j < i + |pieces| ==> Replace(list, i, pieces)[j] == pieces[j - i]
    ensures i + |pieces| <= j ==> Replace(list, i, pieces)[j] == list[j - |pieces| + 1]
  {
  }

  /** A piece of the `i`th block lies apart from every other listed block. */
  lemma PieceApart(p: Pool, i: nat, h: map<nat, nat>, pieces: seq<nat>, a: nat, m: nat)
    requires WellFormed(p) && Disjoint(p) && i < |p.freeList|
    requires PiecesInside(p, i, h, pieces) && KeepsOthers(p, i, h)
    requires a < |pieces| && m < |p.freeList| && m != i
    ensures pieces[a] in h && p.freeList[m] in h
    ensures Apart(pieces[a], h[pieces[a]], p.freeList[m], h[p.freeList[m]])
  {
    var o: nat := p.freeList[i];
    var q: nat := p.freeList[m];
    assert q in h && h[q] == p.headers[q];
    assert pieces[a] in h && o <= pieces[a] && pieces[a] + HEADER + h[pieces[a]] <= o + HEADER + p.headers[o];
    assert Apart(q, p.headers[q], o, p.headers[o]);
    InsideApart(q, h[q], o, p.headers[o], pieces[a], h[pieces[a]]);
  }

  /** Two listed blocks other than the `i`th keep lying apart. */
  lemma OldApart(p: Pool, i: nat, h: map<nat, nat>, m: nat, n: nat)
    requires WellFormed(p) && Disjoint(p) && KeepsOthers(p, i, h)
    requires i < |p.freeList| && m < |p.freeList| && n < |p.freeList| && m != i && n != i && m != n
    ensures p.freeList[m] in h && p.freeList[n] in h
    ensures Apart(p.freeList[m], h[p.freeList[m]], p.freeList[n], h[p.freeList[n]])
  {
    assert p.freeList[m] in h && h[p.freeList[m]] == p.headers[p.freeList[m]];
    assert p.freeList[n] in h && h[p.freeList[n]] == p.headers[p.freeList[n]];
  }

  /** Two entries of the list in which the `i`th block was replaced by pieces
      of itself lie apart. */
  lemma ReplacePairApart(p: Pool, i: nat, h: map<nat, nat>, pieces: seq<nat>, j: nat, k: nat)
    requires WellFormed(p) && Disjoint(p) && i < |p.freeList|
    requires PiecesInside(p, i, h, pieces) && Disjoint(Pool(p.poolSize, h, pieces))
    requires KeepsOthers(p, i, h)
    requires j < |p.freeList| - 1 + |pieces| && k < |p.freeList| - 1 + |pieces| && j != k
    ensures
      var list := Replace(p.freeList, i, pieces);
      list[j] in h && list[k] in h && Apart(list[j], h[list[j]], list[k], h[list[k]])
  {
    var list := Replace(p.freeList, i, pieces);
    var n := |pieces|;
    ReplaceEntry(p.freeList, i, pieces, j);
    ReplaceEntry(p.freeList, i, pieces, k);
    // where the j-th and k-th entries of the new list come from
    var pj := i <= j < i + n;
    var pk := i <= k < i + n;
    if pj && pk {
      assert list[j] == pieces[j - i] && list[k] == pieces[k - i];
    } else if pj {
      var ok: nat := if k < i then k else k - n + 1;
      PieceApart(p, i, h, pieces, j - i, ok);
    } else if pk {
      var oj: nat := if j < i then j else j - n + 1;
      PieceApart(p, i, h, pieces, k - i, oj);
    } else {
      var oj: nat := if j < i then j else j - n + 1;
      var ok: nat := if k < i then k else k - n + 1;
      OldApart(p, i, h, oj, ok);
    }
  }

  /** Every step of poolMalloc replaces the chosen block by pieces of itself
      (none, its tail, or itself shrunk and its tail): when the pieces are
      disjoint and the other blocks keep their headers, the free list stays
      disjoint. */
  lemma ReplaceKeepsDisjoint(p: Pool, i: nat, h: map<nat, nat>, pieces: seq<nat>)
    requires WellFormed(p) && Disjoint(p) && i < |p.freeList|
    requires PiecesInside(p, i, h, pieces) && Disjoint(Pool(p.poolSize, h, pieces))
    requires KeepsOthers(p, i, h)
    ensures Disjoint(Pool(p.poolSize, h, Replace(p.freeList, i, pieces)))
  {
    var list := Replace(p.freeList, i, pieces);
    forall j, k | 0 <= j < |list| && 0 <= k < |list| && j != k
      ensures list[j] in h && list[k] in h && Apart(list[j], h[list[j]], list[k], h[list[k]])
    {
      ReplacePairApart(p, i, h, pieces, j, k);
    }
  }

  /** The bytes the free list covers change only by the bytes of the
      replaced block and of the pieces put in its place. */
  lemma ReplaceCovered(p: Pool, i: nat, h: map<nat, nat>, pieces: seq<nat>)
    requires WellFormed(p) && Disjoint(p) && i < |p.freeList|
    requires KeepsOthers(p, i, h)
    ensures Covered(h, Replace(p.freeList, i, pieces)) + HEADER + p.headers[p.freeList[i]]
         == Covered(p.headers, p.freeList) + Covered(h, pieces)
  {
    var before := p.freeList[..i];
    var after := p.freeList[i + 1..];
    var o: nat := p.freeList[i];
    assert p.freeList == before + [o] + after;
    CoveredConcat(p.headers, before + [o], after);
    CoveredConcat(p.headers, before, [o]);
    CoveredConcat(h, before + pieces, after);
    CoveredConcat(h, before, pieces);
    CoveredFrame(p.headers, h, before);
    forall k | 0 <= k < |after| ensures after[k] in h && h[after[k]] == p.headers[after[k]] {
      assert after[k] == p.freeList[i + 1 + k];
    }
    CoveredFrame(p.headers, h, after);
  }

  /** Splitting the `i`th block leaves the headers of the other listed blocks alone. */
  lemma CarveFrame(p: Pool, i: nat, size: nat)
    requires WellFormed(p) && Disjoint(p) && i < |p.freeList|
    requires p.headers[p.freeList[i]] > size + HEADER
    ensures KeepsOthers(p, i, Carve(p.headers, p.freeList[i], size))
  {
    OthersApart(p, i);
  }

  /** The pieces of a split block lie inside it and apart from each other. */
  lemma CarvePieces(p: Pool, i: nat, size: nat, pieces: seq<nat>)
    requires WellFormed(p) && i < |p.freeList|
    requires p.headers[p.freeList[i]] > size + HEADER
    requires pieces == [p.freeList[i], p.freeList[i] + HEADER + size] || pieces == [p.freeList[i] + HEADER + size]
    ensures
      var o: nat := p.freeList[i];
      var h := Carve(p.headers, o, size);
      && PiecesInside(p, i, h, pieces)
      && Disjoint(Pool(p.poolSize, h, pieces))
  {
  }

  /** Replacing the `i`th block by itself shrunk and its tail keeps the free
      list disjoint and covering the same bytes. */
  lemma CarveKeepAccounting(p: Pool, i: nat, size: nat)
    requires WellFormed(p) && Disjoint(p) && i < |p.freeList|
    requires p.headers[p.freeList[i]] > size + HEADER
    ensures
      var o: nat := p.freeList[i];
      var r := Pool(p.poolSize, Carve(p.headers, o, size), Replace(p.freeList, i, [o, o + HEADER + size]));
      Disjoint(r) && o in r.freeList && Covered(r.headers, r.freeList) == Covered(p.headers, p.freeList)
  {
    var o: nat := p.freeList[i];
    var next: nat := o + HEADER + size;
    var h := Carve(p.headers, o, size);
    var pieces: seq<nat> := [o, next];
    CarveFrame(p, i, size);
    CarvePieces(p, i, size, pieces);
    ReplaceKeepsDisjoint(p, i, h, pieces);
    ReplaceCovered(p, i, h, pieces);
    assert pieces[1..] == [next];
    assert Covered(h, pieces) == HEADER + size + Covered(h, [next]);
    ReplaceEntry(p.freeList, i, pieces, i);
  }

  /** Replacing the `i`th block by its tail keeps the free list disjoint, and
      the list loses the first `HEADER + size` bytes of the block. */
  lemma CarveTailAccounting(p: Pool, i: nat, size: nat)
    requires WellFormed(p) && Disjoint(p) && i < |p.freeList|
    requires p.headers[p.freeList[i]] > size + HEADER
    ensures
      var o: nat := p.freeList[i];
      var r := Pool(p.poolSize, Carve(p.headers, o, size), Replace(p.freeList, i, [o + HEADER + size]));
      Disjoint(r) && Covered(r.headers, r.freeList) + HEADER + size == Covered(p.headers, p.freeList)
  {
    var o: nat := p.freeList[i];
    var next: nat := o + HEADER + size;
    var h := Carve(p.headers, o, size);
    var pieces: seq<nat> := [next];
    CarveFrame(p, i, size);
    CarvePieces(p, i, size, pieces);
    ReplaceKeepsDisjoint(p, i, h, pieces);
    ReplaceCovered(p, i, h, pieces);
    assert Covered(h, pieces) == HEADER + h[next];
  }

  /** The as-written split keeps the free list disjoint, keeps the allocated
      block on it, and the list covers exactly the bytes it covered before,
      the bytes just handed out included. */
  lemma PoolMallocSplitAccounting(p: Pool, size: nat)
    requires WellFormed(p) && Disjoint(p) && size < SIZE_T_LIMIT
    requires FirstFit(p, size).Some?
    requires p.headers[p.freeList[FirstFit(p, size).value]] > size + HEADER
    ensures
      var r := PoolMalloc(p, size).pool;
      && Disjoint(r)
      && p.freeList[FirstFit(p, size).value] in r.freeList
      && Covered(r.headers, r.freeList) == Covered(p.headers, p.freeList)
  {
    var i := FirstFit(p, size).value;
    var o: nat := p.freeList[i];
    var pieces: seq<nat> := [o, o + HEADER + size];
    var r := PoolMalloc(p, size).pool;
    assert r.headers == Carve(p.headers, o, size);
    assert r.freeList == Replace(p.freeList, i, pieces);
    CarveKeepAccounting(p, i, size);
  }

  /** Without a split the free list stays disjoint and loses exactly the
      handed-out block. */
  lemma PoolMallocTakeAccounting(p: Pool, size: nat)
    requires WellFormed(p) && Disjoint(p) && size < SIZE_T_LIMIT
    requires FirstFit(p, size).Some?
    requires p.headers[p.freeList[FirstFit(p, size).value]] <= size + HEADER
    ensures
      var r := PoolMalloc(p, size).pool;
      var o := p.freeList[FirstFit(p, size).value];
      && Disjoint(r)
      && o !in r.freeList
      && Covered(r.headers, r.freeList) + HEADER + p.headers[o] == Covered(p.headers, p.freeList)
  {
    var r := PoolMalloc(p, size).pool;
    var i := FirstFit(p, size).value;
    OthersApart(p, i);
    assert r.freeList == Replace(p.freeList, i, []);
    ReplaceKeepsDisjoint(p, i, r.headers, []);
    ReplaceCovered(p, i, r.headers, []);
  }

  /** poolFree: the block whose header precedes `ptr` goes on the front of the
      free list. The pointer must come from poolMalloc, and its block must not
      be on the free list already: pushing a listed block makes the C list
      cyclic. */
  function PoolFree(p: Pool, ptr: nat): (r: Pool)
    requires WellFormed(p)
    requires ptr >= HEADER && ptr - HEADER in p.headers && ptr - HEADER !in p.freeList
    ensures WellFormed(r) && r.headers == p.headers && r.poolSize == p.poolSize
    ensures |r.freeList| == |p.freeList| + 1
    ensures r.freeList[0] == ptr - HEADER && r.freeList[1..] == p.freeList
    ensures Covered(r.headers, r.freeList) == Covered(p.headers, p.freeList) + HEADER + p.headers[ptr - HEADER]
  {
    var r := p.(freeList := [ptr - HEADER] + p.freeList);
    assert r.freeList[1..] == p.freeList;
    r
  }

  /** The double allocation of the test driver: 256, 512 and 128 bytes are
      requested from a new 1 MiB pool. The third request is served from the
      first block, which the split left on the free list, so it returns the
      same pointer as the first; the first block is then still listed, so the
      driver's poolFree of the first pointer does not meet poolFree's
      requirement (in C it links the block to itself). */
  lemma TestDriverDoubleAllocates()
    ensures
      var p0 := CreateMemoryPool(POOL_SIZE);
      var a1 := PoolMalloc(p0, 256);
      var a2 := PoolMalloc(a1.pool, 512);
      var a3 := PoolMalloc(a2.pool, 128);
      && a1.addr == Some(16) && a2.addr == Some(288) && a3.addr == Some(16)
      && 0 in a3.pool.freeList
  {
    var p0 := CreateMemoryPool(POOL_SIZE);
    FirstFitAt(p0, 256, 0);
    var a1 := PoolMalloc(p0, 256);
    assert a1.pool.freeList == [0, 272];
    var a2 := DriverSecondRequest(a1.pool);
    DriverThirdRequest(a2.pool);
  }

  /** The driver's second request, 512 bytes, splits the tail block at 272. */
  lemma DriverSecondRequest(p: Pool) returns (a: Allocation)
    requires WellFormed(p) && p.freeList == [0, 272]
    requires 0 in p.headers && 272 in p.headers
    requires p.headers[0] == 256 && p.headers[272] == POOL_SIZE - 272 - HEADER
    ensures a == PoolMalloc(p, 512)
    ensures a.addr == Some(288) && a.pool.freeList == [0, 272, 800] && a.pool.headers[0] == 256
  {
    FirstFitAt(p, 512, 1);
    a := PoolMalloc(p, 512);
    assert Replace(p.freeList, 1, [272, 800]) == [0] + [272, 800] + [];
  }

  /** The driver's third request, 128 bytes, fits the listed block at 0 again. */
  lemma DriverThirdRequest(p: Pool)
    requires WellFormed(p) && p.freeList == [0, 272, 800] && 0 in p.headers && p.headers[0] == 256
    ensures PoolMalloc(p, 128).addr == Some(16) && 0 in PoolMalloc(p, 128).pool.freeList
  {
    FirstFitAt(p, 128, 0);
    var a := PoolMalloc(p, 128);
    assert Replace(p.freeList, 0, [0, 144]) == [] + [0, 144] + [272, 800];
  }

  /** poolMalloc with the split path corrected: the tail block takes the
      allocated block's place on the free list, so the allocated block leaves
      the list on both paths. */
  function PoolMallocUnlinking(p: Pool, size: nat): (r: Allocation)
    requires WellFormed(p) && size < SIZE_T_LIMIT
    ensures WellFormed(r.pool) && r.pool.poolSize == p.poolSize
    ensures r.addr.None? <==> FirstFit(p, size).None?
    ensures r.addr.None? ==> r.pool == p
    ensures FirstFit(p, size).Some? ==>
      var i := FirstFit(p, size).value;
      var o: nat := p.freeList[i];
      var cur := p.headers[o];
      && r.addr == Some(o + HEADER)
      && (cur > size + HEADER ==>
            && r.pool.freeList == Replace(p.freeList, i, [o + HEADER + size])
            && r.pool.headers == Carve(p.headers, o, size))
      && (cur <= size + HEADER ==>
            && r.pool.freeList == Replace(p.freeList, i, [])
            && r.pool.headers == p.headers)
  {
    match FirstFit(p, size)
    case None => Allocation(p, None)
    case Some(i) =>
      var o: nat := p.freeList[i];
      var cur := p.headers[o];
      NoWrap(p, o, size);
      if cur > SizeAdd(size, HEADER) then
        var next: nat := o + HEADER + size;
        var headers := Carve(p.headers, o, size);
        Allocation(p.(headers := headers, freeList := Replace(p.freeList, i, [next])),
                   Some(o + HEADER))
      else
        Allocation(p.(freeList := Replace(p.freeList, i, [])), Some(o + HEADER))
  }

  /** The intended guarantee, proved of the corrected allocator: on a free
      list of disjoint blocks, the returned block is off the free list, lies
      apart from every block still free, the free list stays disjoint, and the
      free list loses exactly the bytes handed out. */
  lemma UnlinkingAllocatesApart(p: Pool, size: nat)
    requires WellFormed(p) && Disjoint(p) && size < SIZE_T_LIMIT
    requires FirstFit(p, size).Some?
    ensures
      var r := PoolMallocUnlinking(p, size);
      var o := r.addr.value - HEADER;
      && HandedOut(r.pool, o)
      && Covered(r.pool.headers, r.pool.freeList) + HEADER + r.pool.headers[o] == Covered(p.headers, p.freeList)
  {
    var r := PoolMallocUnlinking(p, size).pool;
    var i := FirstFit(p, size).value;
    var o: nat := p.freeList[i];
    if p.headers[o] > size + HEADER {
      assert r == Pool(p.poolSize, Carve(p.headers, o, size), Replace(p.freeList, i, [o + HEADER + size]));
      UnlinkSplit(p, i, size);
    } else {
      assert r == p.(freeList := Replace(p.freeList, i, []));
      UnlinkWhole(p, i);
    }
  }

  /** The block at `o` is handed out: it has a header, it is off the free
      list, and it lies apart from every block on the free list, which is
      itself disjoint. */
  predicate HandedOut(r: Pool, o: nat) {
    && o in r.headers
    && o !in r.freeList
    && Disjoint(r)
    && AllApartFrom(r, o)
  }

  /** The corrected split path: the tail replaces the block on the free list. */
  lemma UnlinkSplit(p: Pool, i: nat, size: nat)
    requires WellFormed(p) && Disjoint(p) && i < |p.freeList|
    requires p.headers[p.freeList[i]] > size + HEADER
    ensures
      var o: nat := p.freeList[i];
      var r := Pool(p.poolSize, Carve(p.headers, o, size), Replace(p.freeList, i, [o + HEADER + size]));
      && HandedOut(r, o)
      && Covered(r.headers, r.freeList) + HEADER + size == Covered(p.headers, p.freeList)
  {
    var o: nat := p.freeList[i];
    var pieces: seq<nat> := [o + HEADER + size];
    var r := Pool(p.poolSize, Carve(p.headers, o, size), Replace(p.freeList, i, pieces));
    CarveTailAccounting(p, i, size);
    CarveFrame(p, i, size);
    assert PiecesAfter(p, i, r.headers, pieces);
    ReplacedApart(p, i, r, pieces);
  }

  /** The path without a split: the whole block leaves the free list. */
  lemma UnlinkWhole(p: Pool, i: nat)
    requires WellFormed(p) && Disjoint(p) && i < |p.freeList|
    ensures
      var o: nat := p.freeList[i];
      var r := p.(freeList := Replace(p.freeList, i, []));
      && HandedOut(r, o)
      && Covered(r.headers, r.freeList) + HEADER + p.headers[o] == Covered(p.headers, p.freeList)
  {
    var r := p.(freeList := Replace(p.freeList, i, []));
    OthersApart(p, i);
    ReplaceKeepsDisjoint(p, i, r.headers, []);
    ReplaceCovered(p, i, r.headers, []);
    ReplacedApart(p, i, r, []);
  }

  /** After the `i`th block is replaced by pieces lying after its first
      `HEADER + h[o]` bytes, every listed block lies apart from those bytes. */
  lemma ReplacedApart(p: Pool, i: nat, r: Pool, pieces: seq<nat>)
    requires WellFormed(p) && Disjoint(p) && i < |p.freeList|
    requires r.freeList == Replace(p.freeList, i, pieces)
    requires p.freeList[i] in r.headers && r.headers[p.freeList[i]] <= p.headers[p.freeList[i]]
    requires KeepsOthers(p, i, r.headers) && PiecesAfter(p, i, r.headers, pieces)
    ensures p.freeList[i] !in r.freeList && AllApartFrom(r, p.freeList[i])
  {
    var o: nat := p.freeList[i];
    OthersApart(p, i);
    forall k | 0 <= k < |r.freeList|
      ensures r.freeList[k] != o && r.freeList[k] in r.headers
      ensures Apart(r.freeList[k], r.headers[r.freeList[k]], o, r.headers[o])
    {
      ReplaceEntry(p.freeList, i, pieces, k);
      if i <= k < i + |pieces| {
        assert r.freeList[k] == pieces[k - i];
      } else {
        var ok := if k < i then k else k - |pieces| + 1;
        assert r.freeList[k] == p.freeList[ok];
        InsideApart(r.freeList[k], r.headers[r.freeList[k]], o, p.headers[o], o, r.headers[o]);
      }
    }
    assert forall k :: 0 <= k < |r.freeList| ==> r.freeList[k] != o;
  }

  /** Pushing a block that lies apart from every free block onto the front of
      a disjoint free list keeps it disjoint. */
  lemma PushApart(r: Pool, o: nat)
    requires o in r.headers && Disjoint(r) && AllApartFrom(r, o)
    ensures Disjoint(r.(freeList := [o] + r.freeList))
  {
    var q := r.(freeList := [o] + r.freeList);
    forall j, k | 0 <= j < |q.freeList| && 0 <= k < |q.freeList| && j != k
      ensures q.freeList[j] in q.headers && q.freeList[k] in q.headers
      ensures Apart(q.freeList[j], q.headers[q.freeList[j]], q.freeList[k], q.headers[q.freeList[k]])
    {
      if j == 0 {
        assert q.freeList[k] == r.freeList[k - 1];
      } else if k == 0 {
        assert q.freeList[j] == r.freeList[j - 1];
      } else {
        assert q.freeList[j] == r.freeList[j - 1] && q.freeList[k] == r.freeList[k - 1];
      }
    }
  }

  /** poolFree undoes the corrected poolMalloc: freeing the block just
      handed out leaves a disjoint free list covering the bytes it covered
      before the request. */
  lemma FreeUndoesUnlinkingMalloc(p: Pool, size: nat)
    requires WellFormed(p) && Disjoint(p) && size < SIZE_T_LIMIT
    requires FirstFit(p, size).Some?
    ensures
      var a := PoolMallocUnlinking(p, size);
      && a.addr.Some? && a.addr.value >= HEADER
      && a.addr.value - HEADER in a.pool.headers && a.addr.value - HEADER !in a.pool.freeList
      && var q := PoolFree(a.pool, a.addr.value);
      && Disjoint(q)
      && Covered(q.headers, q.freeList) == Covered(p.headers, p.freeList)
  {
    var a := PoolMallocUnlinking(p, size);
    UnlinkingAllocatesApart(p, size);
    var o := a.addr.value - HEADER;
    FreeHandedOut(a.pool, a.addr.value);
  }

  /** Freeing a handed-out block keeps the free list disjoint. */
  lemma FreeHandedOut(r: Pool, ptr: nat)
    requires WellFormed(r) && ptr >= HEADER && HandedOut(r, ptr - HEADER)
    ensures Disjoint(PoolFree(r, ptr))
  {
    var q := PoolFree(r, ptr);
    assert q == r.(freeList := [ptr - HEADER] + r.freeList);
    PushApart(r, ptr - HEADER);
  }

  /** The test driver against the corrected allocator: three distinct blocks,
      and after the first is freed the fourth request reuses it. */
  lemma TestDriverWithUnlinking()
    ensures
      var p0 := CreateMemoryPool(POOL_SIZE);
      var a1 := PoolMallocUnlinking(p0, 256);
      var a2 := PoolMallocUnlinking(a1.pool, 512);
      var a3 := PoolMallocUnlinking(a2.pool, 128);
      && a1.addr == Some(16) && a2.addr == Some(288) && a3.addr == Some(816)
      && 0 !in a3.pool.freeList
      && var p4 := PoolFree(a3.pool, 16);
      && PoolMallocUnlinking(p4, 256).addr == Some(16)
  {
    var p0 := CreateMemoryPool(POOL_SIZE);
    FirstFitAt(p0, 256, 0);
    var a1 := PoolMallocUnlinking(p0, 256);
    assert a1.pool.freeList == [272];
    assert a1.pool.headers[0] == 256;
    FirstFitAt(a1.pool, 512, 0);
    var a2 := PoolMallocUnlinking(a1.pool, 512);
    assert a2.pool.freeList == [800];
    assert a2.pool.headers[0] == 256;
    FirstFitAt(a2.pool, 128, 0);
    var a3 := PoolMallocUnlinking(a2.pool, 128);
    assert a3.pool.freeList == [944];
    assert a3.pool.headers[0] == 256;
    var p4 := PoolFree(a3.pool, 16);
    assert p4.freeList == [0, 944];
    FirstFitAt(p4, 256, 0);
  }
}
