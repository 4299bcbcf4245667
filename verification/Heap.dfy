/** The kernel heap: first fit over a doubly linked list of blocks laid out in
    a fixed arena, with splitting and coalescing (src/kernel/mm/heap.c). */
module Heap {

  const ARENA: nat := 1048576
  const HEADER: nat := 40
  const MIN_SIZE: nat := 16
  const MAX_STEPS: nat := 65536
  const SIZE_LIMIT: nat := 0x1_0000_0000_0000_0000

  /** Pointers are offsets into the arena; NULL stands for the null pointer. */
  const NULL: int := -1

  datatype Header = Header(magic: bool, size: nat, free: bool, next: int, prev: int)

  /** The headers in memory by offset, including those a merge has swallowed. */
  type Headers = map<int, Header>

  function At(h: Headers, p: int): Header
  {
    if p in h then h[p] else Header(false, 0, false, NULL, NULL)
  }

  // ----- the heap as a sequence of blocks -----

  datatype Block = Block(at: int, size: nat, free: bool)

  function End(b: Block): int
  {
    b.at + HEADER + b.size
  }

  predicate Good(bs: seq<Block>, k: nat)
    requires k < |bs|
  {
    bs[k].size >= MIN_SIZE && bs[k].size % 8 == 0 && End(bs[k]) == if k + 1 == |bs| then ARENA else bs[k + 1].at
  }

  /** The blocks tile the arena exactly. */
  ghost predicate Tiles(bs: seq<Block>)
  {
    |bs| > 0 && bs[0].at == 0 && forall k: nat :: k < |bs| ==> Good(bs, k)
  }

  /** No two neighbouring blocks are both free. */
  ghost predicate Coalesced(bs: seq<Block>)
  {
    forall k: nat, j: nat :: k < |bs| && j == k + 1 && j < |bs| ==> !(bs[k].free && bs[j].free)
  }

  function HeaderOf(bs: seq<Block>, k: nat): Header
    requires k < |bs|
  {
    Header(true, bs[k].size, bs[k].free,
           if k + 1 == |bs| then NULL else bs[k + 1].at,
           if k == 0 then NULL else bs[k - 1].at)
  }

  /** The linked headers in memory are those of the block sequence. */
  ghost predicate Rep(h: Headers, bs: seq<Block>)
  {
    |bs| > 0 && forall k: nat {:trigger HeaderOf(bs, k)} :: k < |bs| ==> At(h, bs[k].at) == HeaderOf(bs, k)
  }

  lemma {:induction false} Position(bs: seq<Block>, k: nat)
    requires Tiles(bs) && k < |bs|
    ensures bs[k].at % 8 == 0 && 56 * k <= bs[k].at && End(bs[k]) <= ARENA
    decreases k
  {
    assert Good(bs, k);
    if k > 0 {
      assert Good(bs, k - 1);
      Position(bs, k - 1);
    }
    EndsInside(bs, k);
  }

  lemma {:induction false} EndsInside(bs: seq<Block>, k: nat)
    requires Tiles(bs) && k < |bs|
    ensures End(bs[k]) <= ARENA
    decreases |bs| - k
  {
    assert Good(bs, k);
    if k + 1 < |bs| {
      EndsInside(bs, k + 1);
    }
  }

  /** A block takes at least 56 bytes, so a walk stays far below its step limit. */
  lemma BlockCount(bs: seq<Block>)
    requires Tiles(bs)
    ensures |bs| <= 18724 < MAX_STEPS
  {
    Position(bs, |bs| - 1);
    assert Good(bs, |bs| - 1);
  }

  lemma {:induction false} Ordered(bs: seq<Block>, j: nat, k: nat)
    requires Tiles(bs) && j < k < |bs|
    ensures End(bs[j]) <= bs[k].at
    decreases k - j
  {
    assert Good(bs, j);
    if j + 1 < k {
      Ordered(bs, j + 1, k);
    }
  }

  ghost predicate Apart(bs: seq<Block>)
  {
    forall j: nat, k: nat :: j < |bs| && k < |bs| && bs[j].at == bs[k].at ==> j == k
  }

  lemma DistinctOffsets(bs: seq<Block>)
    requires Tiles(bs)
    ensures Apart(bs)
  {
    forall j: nat, k: nat | j < k < |bs|
      ensures bs[j].at != bs[k].at
    {
      Ordered(bs, j, k);
    }
  }

  /** heap_block_ptr_valid */
  predicate PtrValid(p: int)
  {
    0 <= p && p + HEADER <= ARENA
  }

  // ----- the three changes of the list -----

  function Merged(bs: seq<Block>, k: nat): (r: seq<Block>)
    requires k + 1 < |bs|
  {
    bs[..k] + [bs[k].(size := bs[k].size + HEADER + bs[k + 1].size)] + bs[k + 2..]
  }

  function Marked(bs: seq<Block>, k: nat, free: bool): (r: seq<Block>)
    requires k < |bs|
  {
    bs[k := bs[k].(free := free)]
  }

  function Divided(bs: seq<Block>, k: nat, size: nat): (r: seq<Block>)
    requires k < |bs| && bs[k].size >= size + HEADER
  {
    bs[..k] + [bs[k].(size := size), Block(bs[k].at + HEADER + size, bs[k].size - size - HEADER, true)] + bs[k + 1..]
  }

  lemma MergedTiles(bs: seq<Block>, k: nat)
    requires Tiles(bs) && k + 1 < |bs|
    ensures Tiles(Merged(bs, k))
  {
    var r := Merged(bs, k);
    assert Good(bs, k) && Good(bs, k + 1);
    forall j: nat | j < |r|
      ensures Good(r, j)
    {
      assert Good(bs, if j <= k then j else j + 1);
    }
  }

  lemma MarkedTiles(bs: seq<Block>, k: nat, free: bool)
    requires Tiles(bs) && k < |bs|
    ensures Tiles(Marked(bs, k, free))
  {
    forall j: nat | j < |bs|
      ensures Good(Marked(bs, k, free), j)
    {
      assert Good(bs, j);
    }
  }

  lemma DividedTiles(bs: seq<Block>, k: nat, size: nat)
    requires Tiles(bs) && k < |bs| && bs[k].size > size + HEADER + MIN_SIZE && size >= MIN_SIZE && size % 8 == 0
    ensures Tiles(Divided(bs, k, size))
  {
    var r := Divided(bs, k, size);
    assert Good(bs, k);
    forall j: nat | j < |r|
      ensures Good(r, j)
    {
      assert Good(bs, if j <= k then j else j - 1);
    }
  }

  // ----- the same changes on the headers -----

  /** heap_merge_next */
  function MergeNext(h: Headers, b: int): Headers
  {
    if !PtrValid(b) then h else
    var n := At(h, b).next;
    if !PtrValid(n) then h else
    if !At(h, n).magic || !At(h, n).free then h else
    if b + HEADER + At(h, b).size != n then h else
    var nn := At(h, n).next;
    var h1 := h[b := At(h, b).(size := At(h, b).size + HEADER + At(h, n).size, next := nn)];
    if PtrValid(nn) then h1[nn := At(h1, nn).(prev := b)] else h1
  }

  /** The two headers a merge changes. */
  lemma MergeWrites(h: Headers, bs: seq<Block>, k: nat, p: int)
    requires Tiles(bs) && Rep(h, bs) && k + 1 < |bs| && bs[k + 1].free
    ensures At(MergeNext(h, bs[k].at), p) ==
              if p == bs[k].at then
                At(h, p).(size := bs[k].size + HEADER + bs[k + 1].size, next := HeaderOf(bs, k + 1).next)
              else if k + 2 < |bs| && p == bs[k + 2].at then At(h, p).(prev := bs[k].at)
              else At(h, p)
  {
    assert At(h, bs[k].at) == HeaderOf(bs, k) && At(h, bs[k + 1].at) == HeaderOf(bs, k + 1);
    assert Good(bs, k);
    Position(bs, k);
    Position(bs, k + 1);
    if k + 2 < |bs| {
      Position(bs, k + 2);
      Ordered(bs, k, k + 2);
    }
  }

  lemma MergeRep(h: Headers, bs: seq<Block>, k: nat)
    requires Tiles(bs) && Rep(h, bs) && k + 1 < |bs| && bs[k + 1].free
    ensures Rep(MergeNext(h, bs[k].at), Merged(bs, k))
  {
    var h', r := MergeNext(h, bs[k].at), Merged(bs, k);
    forall j: nat | j < |r|
      ensures At(h', r[j].at) == HeaderOf(r, j)
    {
      var i := if j <= k then j else j + 1;
      MergeWrites(h, bs, k, r[j].at);
      DistinctOffsets(bs);
      assert At(h, bs[i].at) == HeaderOf(bs, i) && r[j].at == bs[i].at;
    }
  }

  lemma MergeNothing(h: Headers, bs: seq<Block>, k: nat)
    requires Tiles(bs) && Rep(h, bs) && k < |bs| && (k + 1 < |bs| ==> !bs[k + 1].free)
    ensures MergeNext(h, bs[k].at) == h
  {
    assert At(h, bs[k].at) == HeaderOf(bs, k);
    if k + 1 < |bs| {
      assert At(h, bs[k + 1].at) == HeaderOf(bs, k + 1);
    }
  }

  lemma MarkRep(h: Headers, bs: seq<Block>, k: nat, free: bool)
    requires Apart(bs) && Rep(h, bs) && k < |bs|
    ensures Rep(h[bs[k].at := At(h, bs[k].at).(free := free)], Marked(bs, k, free))
  {
    var r := Marked(bs, k, free);
    forall j: nat | j < |r|
      ensures At(h[bs[k].at := At(h, bs[k].at).(free := free)], r[j].at) == HeaderOf(r, j)
    {
      assert At(h, bs[j].at) == HeaderOf(bs, j);
    }
  }

  /** The splitting branch of kmalloc: a header for the rest, linked in. */
  function SplitBlock(h: Headers, c: int, size: nat): Headers
    requires At(h, c).size >= size + HEADER
  {
    var n := c + HEADER + size;
    var h1 := h[n := Header(true, At(h, c).size - size - HEADER, true, At(h, c).next, c)];
    var h2 := if At(h, c).next != NULL then h1[At(h, c).next := At(h1, At(h, c).next).(prev := n)] else h1;
    h2[c := At(h2, c).(next := n, size := size)]
  }

  /** The three headers a split writes. */
  lemma SplitWrites(h: Headers, bs: seq<Block>, k: nat, size: nat, p: int)
    requires Tiles(bs) && Rep(h, bs) && k < |bs| && bs[k].size > size + HEADER + MIN_SIZE
    ensures At(h, bs[k].at).size >= size + HEADER
    ensures var n := bs[k].at + HEADER + size;
            At(SplitBlock(h, bs[k].at, size), p) ==
              if p == n then Header(true, bs[k].size - size - HEADER, true, HeaderOf(bs, k).next, bs[k].at)
              else if p == bs[k].at then At(h, p).(next := n, size := size)
              else if k + 1 < |bs| && p == bs[k + 1].at then At(h, p).(prev := n)
              else At(h, p)
  {
    assert At(h, bs[k].at) == HeaderOf(bs, k);
    assert Good(bs, k);
    Position(bs, k);
    if k + 1 < |bs| {
      Position(bs, k + 1);
    }
  }

  /** No block starts strictly inside another. */
  lemma NoneInside(bs: seq<Block>, k: nat, i: nat, d: nat)
    requires Tiles(bs) && k < |bs| && i < |bs| && 0 < d < HEADER + bs[k].size
    ensures bs[i].at != bs[k].at + d
  {
    if i < k { Ordered(bs, i, k); }
    if i > k { Ordered(bs, k, i); }
  }

  lemma SplitRep(h: Headers, bs: seq<Block>, k: nat, size: nat)
    requires Tiles(bs) && Rep(h, bs) && k < |bs| && bs[k].size > size + HEADER + MIN_SIZE
    ensures At(h, bs[k].at).size >= size + HEADER && Rep(SplitBlock(h, bs[k].at, size), Divided(bs, k, size))
  {
    SplitWrites(h, bs, k, size, 0);
    var h', r := SplitBlock(h, bs[k].at, size), Divided(bs, k, size);
    forall j: nat | j < |r|
      ensures At(h', r[j].at) == HeaderOf(r, j)
    {
      SplitWrites(h, bs, k, size, r[j].at);
      if j != k + 1 {
        var i := if j <= k then j else j - 1;
        DistinctOffsets(bs);
        NoneInside(bs, k, i, HEADER + size);
        assert At(h, bs[i].at) == HeaderOf(bs, i) && r[j].at == bs[i].at;
      }
    }
  }

  /** Cutting a block keeps the starts apart, even when nothing is left before the cut. */
  lemma DividedApart(bs: seq<Block>, k: nat, size: nat)
    requires Tiles(bs) && k < |bs| && bs[k].size > size + HEADER + MIN_SIZE
    ensures Apart(Divided(bs, k, size))
  {
    var r := Divided(bs, k, size);
    DistinctOffsets(bs);
    forall j: nat | j < |r| && j != k + 1
      ensures r[j].at != r[k + 1].at && r[j].at == bs[if j <= k then j else j - 1].at
    {
      NoneInside(bs, k, if j <= k then j else j - 1, HEADER + size);
    }
  }

  // ----- requests -----

  /** At least 16, rounded up to a multiple of 8 in 64-bit arithmetic. */
  function RoundRequest(size: nat): nat
    requires size < SIZE_LIMIT
  {
    var s := if size < MIN_SIZE then MIN_SIZE else size;
    (s + 7) % SIZE_LIMIT / 8 * 8
  }

  /** Rounding yields room for the request exactly when adding 7 does not wrap. */
  lemma RoundRequestFits(size: nat)
    requires size < SIZE_LIMIT
    ensures RoundRequest(size) >= size <==> size <= SIZE_LIMIT - 8
    ensures size <= SIZE_LIMIT - 8 ==>
              RoundRequest(size) % 8 == 0 && (if size < MIN_SIZE then RoundRequest(size) == MIN_SIZE else RoundRequest(size) < size + 8)
    ensures size > SIZE_LIMIT - 8 ==> RoundRequest(size) == 0
  {
  }

  predicate Fits(b: Block, size: nat)
  {
    b.free && b.size >= size
  }

  /** The first block that fits, from block k on; |bs| when there is none. */
  function FirstFit(bs: seq<Block>, k: nat, size: nat): (r: nat)
    requires k <= |bs|
    ensures k <= r <= |bs| && (r < |bs| ==> Fits(bs[r], size))
    ensures forall j :: k <= j < r ==> !Fits(bs[j], size)
    decreases |bs| - k
  {
    if k == |bs| || Fits(bs[k], size) then k else FirstFit(bs, k + 1, size)
  }

  /** Block k is taken; what exceeds the request by more than 56 bytes is cut off. */
  function Taken(bs: seq<Block>, k: nat, size: nat): (r: seq<Block>)
    requires k < |bs| && bs[k].size >= size
  {
    Marked(if bs[k].size > size + HEADER + MIN_SIZE then Divided(bs, k, size) else bs, k, false)
  }

  /** A request that wraps is taken for one of no bytes: the payload handed out is
      far smaller than what was asked for, and if the block was cut the tiling is lost. */
  lemma WrappedRequest(bs: seq<Block>, k: nat, request: nat)
    requires Tiles(bs) && k < |bs| && bs[k].free && SIZE_LIMIT - 8 < request < SIZE_LIMIT
    ensures var size := RoundRequest(request);
            && Fits(bs[k], size) && Taken(bs, k, size)[k].size < request
            && (Tiles(Taken(bs, k, size)) <==> bs[k].size <= HEADER + MIN_SIZE)
            && (bs[k].size > HEADER + MIN_SIZE ==> Taken(bs, k, size)[k].size == 0)
  {
    RoundRequestFits(request);
    var r := Taken(bs, k, 0);
    if bs[k].size <= HEADER + MIN_SIZE {
      MarkedTiles(bs, k, false);
    } else {
      assert !Good(r, k);
    }
  }

  /** The size of the payload kmalloc hands out, 0 where it hands out none. */
  function Handed(bs: seq<Block>, request: nat): nat
    requires request < SIZE_LIMIT
  {
    var k := FirstFit(bs, 0, RoundRequest(request));
    if request == 0 || k == |bs| then 0 else Taken(bs, k, RoundRequest(request))[k].size
  }

  /** It is as large as asked for, except when the rounding wraps; and then it is
      empty exactly when the block was cut. */
  lemma HandedSize(bs: seq<Block>, request: nat)
    requires Tiles(bs) && 0 < request < SIZE_LIMIT && FirstFit(bs, 0, RoundRequest(request)) < |bs|
    ensures var k := FirstFit(bs, 0, RoundRequest(request));
            && (Handed(bs, request) >= request <==> request <= SIZE_LIMIT - 8)
            && (Handed(bs, request) > 0 <==> request <= SIZE_LIMIT - 8 || bs[k].size <= HEADER + MIN_SIZE)
  {
    var k := FirstFit(bs, 0, RoundRequest(request));
    RoundRequestFits(request);
    assert Good(bs, k);
    if request > SIZE_LIMIT - 8 {
      WrappedRequest(bs, k, request);
    }
  }

  /** The list after the block was freed and joined with its right neighbour. */
  function FreedRight(bs: seq<Block>, k: nat): (r: seq<Block>)
    requires k < |bs|
  {
    var b1 := Marked(bs, k, true);
    if k + 1 < |bs| && bs[k + 1].free then Merged(b1, k) else b1
  }

  /** Block k is free again and joined with its free neighbours. */
  function Freed(bs: seq<Block>, k: nat): (r: seq<Block>)
    requires k < |bs|
  {
    if k > 0 && bs[k - 1].free then Merged(FreedRight(bs, k), k - 1) else FreedRight(bs, k)
  }

  lemma TakenValid(bs: seq<Block>, k: nat, size: nat)
    requires Tiles(bs) && Coalesced(bs) && k < |bs| && Fits(bs[k], size) && size >= MIN_SIZE && size % 8 == 0
    ensures Tiles(Taken(bs, k, size)) && Coalesced(Taken(bs, k, size))
  {
    if bs[k].size > size + HEADER + MIN_SIZE {
      DividedTiles(bs, k, size);
      MarkedTiles(Divided(bs, k, size), k, false);
    } else {
      MarkedTiles(bs, k, false);
    }
  }

  lemma FreedTiles(bs: seq<Block>, k: nat)
    requires Tiles(bs) && k < |bs|
    ensures Tiles(FreedRight(bs, k)) && Tiles(Freed(bs, k))
  {
    MarkedTiles(bs, k, true);
    if k + 1 < |bs| && bs[k + 1].free {
      MergedTiles(Marked(bs, k, true), k);
    }
    if k > 0 && bs[k - 1].free {
      MergedTiles(FreedRight(bs, k), k - 1);
    }
  }

  lemma FreedValid(bs: seq<Block>, k: nat)
    requires Tiles(bs) && Coalesced(bs) && k < |bs| && !bs[k].free
    ensures Tiles(Freed(bs, k)) && Coalesced(Freed(bs, k))
  {
    FreedTiles(bs, k);
    RightCoalesced(bs, k);
    LeftCoalesced(bs, FreedRight(bs, k), k);
  }

  /** After the freed block is joined with its right neighbour, only its left one may be free too. */
  lemma RightCoalesced(bs: seq<Block>, k: nat)
    requires Coalesced(bs) && k < |bs| && !bs[k].free
    ensures var r := FreedRight(bs, k);
            && k < |r| && r[..k] == bs[..k] && r[k].free
            && forall i: nat, j: nat :: j == i + 1 && j < |r| && j != k ==> !(r[i].free && r[j].free)
  {
    var r := FreedRight(bs, k);
    var shift := |bs| - |r|;
    assert forall i: nat :: i < |r| && i != k ==> r[i] == bs[if i < k then i else i + shift];
  }

  lemma LeftCoalesced(bs: seq<Block>, r: seq<Block>, k: nat)
    requires Coalesced(bs) && k < |bs| && k < |r| && r[..k] == bs[..k] && r[k].free
    requires forall i: nat, j: nat :: j == i + 1 && j < |r| && j != k ==> !(r[i].free && r[j].free)
    ensures Coalesced(if k > 0 && bs[k - 1].free then Merged(r, k - 1) else r)
  {
    assert forall i: nat :: i < k ==> r[i] == r[..k][i] == bs[i];
    if k > 0 && bs[k - 1].free {
      var m := Merged(r, k - 1);
      forall i: nat, j: nat | i < |m| && j == i + 1 && j < |m|
        ensures !(m[i].free && m[j].free)
      {
        if i < k - 1 {
          assert m[i] == r[i] && m[j].free == r[j].free;
          assert j == k - 1 ==> r[i] == bs[i] && !bs[i].free;
        } else {
          assert m[j] == r[j + 1] && (i > k - 1 ==> m[i] == r[i + 1]);
          assert !(r[i + 1].free && r[j + 1].free);
        }
      }
    }
  }

  // ----- live allocations -----

  /** The payloads handed out: where each starts and how many bytes it has. */
  function Live(bs: seq<Block>): set<(int, nat)>
  {
    set k | 0 <= k < |bs| && !bs[k].free :: (bs[k].at + HEADER, bs[k].size)
  }

  /** Live payloads are 8-aligned, inside the arena and pairwise disjoint. */
  lemma LiveDisjoint(bs: seq<Block>, p: (int, nat), q: (int, nat))
    requires Tiles(bs) && p in Live(bs) && q in Live(bs)
    ensures p.0 % 8 == 0 && HEADER <= p.0 && p.0 + p.1 <= ARENA
    ensures p != q ==> p.0 + p.1 <= q.0 - HEADER || q.0 + q.1 <= p.0 - HEADER
  {
    var j :| 0 <= j < |bs| && !bs[j].free && p == (bs[j].at + HEADER, bs[j].size);
    var k :| 0 <= k < |bs| && !bs[k].free && q == (bs[k].at + HEADER, bs[k].size);
    Position(bs, j);
    if j < k { Ordered(bs, j, k); }
    if k < j { Ordered(bs, k, j); }
  }

  /** Where block j of a list stands after block k was taken. */
  function Shifted(bs: seq<Block>, r: seq<Block>, k: nat, j: nat): int
  {
    if j <= k then j else j + |r| - |bs|
  }

  lemma LiveStays(bs: seq<Block>, k: nat, size: nat, x: (int, nat))
    requires k < |bs| && Fits(bs[k], size) && x in Live(bs)
    ensures x in Live(Taken(bs, k, size))
  {
    var r := Taken(bs, k, size);
    var j :| 0 <= j < |bs| && !bs[j].free && x == (bs[j].at + HEADER, bs[j].size);
    assert r[Shifted(bs, r, k, j)] == bs[j];
  }

  lemma LiveOnly(bs: seq<Block>, k: nat, size: nat, x: (int, nat))
    requires k < |bs| && Fits(bs[k], size) && x in Live(Taken(bs, k, size))
    ensures x in Live(bs) || x == (bs[k].at + HEADER, Taken(bs, k, size)[k].size)
  {
    var r := Taken(bs, k, size);
    var j :| 0 <= j < |r| && !r[j].free && x == (r[j].at + HEADER, r[j].size);
    if j != k {
      assert r[j] == bs[if j < k then j else j - (|r| - |bs|)];
    }
  }

  /** kmalloc adds one payload, large enough and not live before, and keeps the rest. */
  lemma LiveTaken(bs: seq<Block>, k: nat, size: nat)
    requires Tiles(bs) && k < |bs| && Fits(bs[k], size)
    ensures var r := Taken(bs, k, size);
            && r[k].at == bs[k].at && size <= r[k].size <= size + HEADER + MIN_SIZE
            && Live(r) == Live(bs) + {(bs[k].at + HEADER, r[k].size)}
            && forall x :: x in Live(bs) ==> x.0 != bs[k].at + HEADER
  {
    var r := Taken(bs, k, size);
    forall x | x in Live(bs)
      ensures x in Live(r) && x.0 != bs[k].at + HEADER
    {
      LiveStays(bs, k, size, x);
      DistinctOffsets(bs);
    }
    forall x | x in Live(r)
      ensures x in Live(bs) || x == (bs[k].at + HEADER, r[k].size)
    {
      LiveOnly(bs, k, size, x);
    }
    assert !r[k].free;
  }

  /** kfree removes exactly the one payload. */
  lemma LiveFreed(bs: seq<Block>, k: nat)
    requires Tiles(bs) && k < |bs| && !bs[k].free
    ensures Live(Freed(bs, k)) == Live(bs) - {(bs[k].at + HEADER, bs[k].size)}
  {
    MarkedTiles(bs, k, true);
    var b1 := Marked(bs, k, true);
    LiveMarked(bs, k);
    var b2 := if k + 1 < |bs| && bs[k + 1].free then Merged(b1, k) else b1;
    if k + 1 < |bs| && bs[k + 1].free {
      LiveMerged(b1, k);
    }
    if k > 0 && bs[k - 1].free {
      LiveMerged(b2, k - 1);
    }
  }

  lemma LiveMarked(bs: seq<Block>, k: nat)
    requires Tiles(bs) && k < |bs|
    ensures Live(Marked(bs, k, true)) == Live(bs) - {(bs[k].at + HEADER, bs[k].size)}
  {
    var r := Marked(bs, k, true);
    DistinctOffsets(bs);
    forall x | x in Live(bs) && x != (bs[k].at + HEADER, bs[k].size)
      ensures x in Live(r)
    {
      var j :| 0 <= j < |bs| && !bs[j].free && x == (bs[j].at + HEADER, bs[j].size);
      assert r[j] == bs[j];
    }
  }

  lemma LiveMerged(bs: seq<Block>, k: nat)
    requires k + 1 < |bs| && bs[k].free && bs[k + 1].free
    ensures Live(Merged(bs, k)) == Live(bs)
  {
    var r := Merged(bs, k);
    forall x | x in Live(bs)
      ensures x in Live(r)
    {
      var j :| 0 <= j < |bs| && !bs[j].free && x == (bs[j].at + HEADER, bs[j].size);
      assert r[if j < k then j else j - 1] == bs[j];
    }
    forall x | x in Live(r)
      ensures x in Live(bs)
    {
      var j :| 0 <= j < |r| && !r[j].free && x == (r[j].at + HEADER, r[j].size);
      assert bs[if j < k then j else j + 1] == r[j];
    }
  }

  // ----- the heap -----

  type Byte = b: int | 0 <= b < 256

  /** Every taken header in memory is that of a live block; what merges left behind is free. */
  ghost predicate NoStrays(h: Headers, bs: seq<Block>)
  {
    forall p {:trigger At(h, p)} :: At(h, p).magic && !At(h, p).free ==>
      exists k :: 0 <= k < |bs| && bs[k].at == p && !bs[k].free
  }

  predicate IsBlock(bs: seq<Block>, p: int)
  {
    exists k :: 0 <= k < |bs| && bs[k].at == p
  }

  /** Only headers of the given blocks differ. */
  ghost predicate WritesAt(h: Headers, h': Headers, bs: seq<Block>)
  {
    forall p {:trigger At(h', p)} :: At(h', p) != At(h, p) ==> IsBlock(bs, p)
  }

  /** A block's header shares no byte with a live payload: what kmalloc and kfree
      write never lands in memory that has been handed out. */
  lemma HeadersMissPayloads(bs: seq<Block>, p: int, x: (int, nat))
    requires Tiles(bs) && IsBlock(bs, p) && x in Live(bs)
    ensures p + HEADER <= x.0 || x.0 + x.1 <= p
  {
    var k :| 0 <= k < |bs| && bs[k].at == p;
    var j :| 0 <= j < |bs| && !bs[j].free && x == (bs[j].at + HEADER, bs[j].size);
    if j < k { Ordered(bs, j, k); }
    if k < j { Ordered(bs, k, j); }
  }

  lemma SplitWritesAt(h: Headers, bs: seq<Block>, k: nat, size: nat)
    requires Tiles(bs) && Rep(h, bs) && k < |bs| && bs[k].size > size + HEADER + MIN_SIZE
    ensures At(h, bs[k].at).size >= size + HEADER
    ensures WritesAt(h, SplitBlock(h, bs[k].at, size), Divided(bs, k, size))
  {
    SplitWrites(h, bs, k, size, 0);
    var r := Divided(bs, k, size);
    forall p | At(SplitBlock(h, bs[k].at, size), p) != At(h, p)
      ensures IsBlock(r, p)
    {
      SplitWrites(h, bs, k, size, p);
      assert r[k].at == bs[k].at && r[k + 1].at == bs[k].at + HEADER + size;
      if k + 1 < |bs| { assert r[k + 2].at == bs[k + 1].at; }
    }
  }

  lemma MergeWritesAt(h: Headers, bs: seq<Block>, k: nat)
    requires Tiles(bs) && Rep(h, bs) && k + 1 < |bs| && bs[k + 1].free
    ensures WritesAt(h, MergeNext(h, bs[k].at), bs)
  {
    forall p | At(MergeNext(h, bs[k].at), p) != At(h, p)
      ensures IsBlock(bs, p)
    {
      MergeWrites(h, bs, k, p);
    }
  }

  lemma MarkedBlocks(bs: seq<Block>, k: nat, free: bool)
    requires k < |bs|
    ensures IsBlock(bs, bs[k].at) && forall p :: IsBlock(Marked(bs, k, free), p) <==> IsBlock(bs, p)
  {
    var r := Marked(bs, k, free);
    assert forall j :: 0 <= j < |bs| ==> r[j].at == bs[j].at;
    forall p
      ensures IsBlock(r, p) <==> IsBlock(bs, p)
    {
      if IsBlock(r, p) {
        var j :| 0 <= j < |r| && r[j].at == p;
        assert bs[j].at == p;
      }
      if IsBlock(bs, p) {
        var j :| 0 <= j < |bs| && bs[j].at == p;
        assert r[j].at == p;
      }
    }
  }

  lemma MergedBlocks(bs: seq<Block>, k: nat)
    requires k + 1 < |bs|
    ensures forall p :: IsBlock(Merged(bs, k), p) ==> IsBlock(bs, p)
  {
    forall p | IsBlock(Merged(bs, k), p)
      ensures IsBlock(bs, p)
    {
      var j :| 0 <= j < |Merged(bs, k)| && Merged(bs, k)[j].at == p;
      assert bs[if j <= k then j else j + 1].at == p;
    }
  }

  class KernelHeap {
    var hdr: Headers
    const data: array<Byte>
    ghost var blocks: seq<Block>

    /** The headers in memory are the blocks', whatever the blocks are. */
    ghost predicate Stored()
      reads this
    {
      data.Length == ARENA && Rep(hdr, blocks) && NoStrays(hdr, blocks)
    }

    ghost predicate Valid()
      reads this
    {
      Stored() && Tiles(blocks) && Coalesced(blocks)
    }

    /** heap_init: one free block. */
    constructor ()
      ensures Valid() && blocks == [Block(0, ARENA - HEADER, true)] && Live(blocks) == {} && fresh(data)
    {
      hdr := map[0 := Header(true, ARENA - HEADER, true, NULL, NULL)];
      data := new Byte[ARENA](_ => 0);
      blocks := [Block(0, ARENA - HEADER, true)];
      new;
      assert HeaderOf(blocks, 0) == At(hdr, 0) && Good(blocks, 0);
    }

    /** heap_merge_next on block `b`; in a coalesced list it does nothing. */
    method Merge(b: int)
      modifies this`hdr
      ensures hdr == MergeNext(old(hdr), b)
    {
      if !PtrValid(b) { return; }
      var n := At(hdr, b).next;
      if !PtrValid(n) { return; }
      if !At(hdr, n).magic || !At(hdr, n).free { return; }
      if b + HEADER + At(hdr, b).size != n { return; }
      var nn := At(hdr, n).next;
      hdr := hdr[b := At(hdr, b).(size := At(hdr, b).size + HEADER + At(hdr, n).size, next := nn)];
      if PtrValid(nn) {
        hdr := hdr[nn := At(hdr, nn).(prev := b)];
      }
    }

    /** NULL only for an empty request or when no free block fits; otherwise the
        first block that fits. The step limit, a bad pointer and a bad magic
        number are never met. The heap stays in order except after a request so
        large that its rounding wraps, when the first free block is cut. */
    method Kmalloc(request: nat) returns (p: int)
      requires Valid() && request < SIZE_LIMIT
      modifies this`hdr, this`blocks
      ensures Stored()
      ensures var bs := old(blocks);
              var k := FirstFit(bs, 0, RoundRequest(request));
              Valid() <==> request <= SIZE_LIMIT - 8 || k == |bs| || bs[k].size <= HEADER + MIN_SIZE
      ensures var size, bs := RoundRequest(request), old(blocks);
              var k := FirstFit(bs, 0, size);
              if request == 0 || k == |bs| then p == NULL && blocks == bs && hdr == old(hdr)
              else p == bs[k].at + HEADER && blocks == Taken(bs, k, size)
      ensures WritesAt(old(hdr), hdr, blocks)
    {
      if request == 0 { return NULL; }
      RoundRequestFits(request);
      var size := RoundRequest(request);
      BlockCount(blocks);
      var current := 0;
      ghost var k := 0;
      var steps := 0;
      assert HeaderOf(blocks, 0) == At(hdr, 0);
      while current != NULL
        invariant hdr == old(hdr) && blocks == old(blocks)
        invariant 0 <= k <= |blocks| && steps == k && current == (if k == |blocks| then NULL else blocks[k].at)
        invariant FirstFit(blocks, 0, size) == FirstFit(blocks, k, size)
        decreases |blocks| - k
      {
        steps := steps + 1;
        if steps > MAX_STEPS { assert false; return NULL; }
        Position(blocks, k);
        assert At(hdr, current) == HeaderOf(blocks, k);
        if !PtrValid(current) || !At(hdr, current).magic { assert false; return NULL; }
        if At(hdr, current).free {
          MergeNothing(hdr, blocks, k);
          Merge(current);
        }
        if At(hdr, current).free && At(hdr, current).size >= size {
          if request > SIZE_LIMIT - 8 { WrappedRequest(blocks, k, request); }
          Take(current, size, k);
          return current + HEADER;
        }
        if k + 1 < |blocks| { Position(blocks, k + 1); }
        if At(hdr, current).next != NULL && !PtrValid(At(hdr, current).next) { assert false; return NULL; }
        current := At(hdr, current).next;
        k := k + 1;
      }
      if k < |blocks| { Position(blocks, k); }
      return NULL;
    }

    /** Frees a live payload; a pointer that is not one changes nothing. */
    method Kfree(ptr: int)
      requires Valid()
      modifies this`hdr, this`blocks
      ensures Valid()
      ensures forall k :: 0 <= k < |old(blocks)| && old(blocks)[k].at + HEADER == ptr && !old(blocks)[k].free ==>
                blocks == Freed(old(blocks), k)
      ensures (forall k :: 0 <= k < |old(blocks)| && old(blocks)[k].at + HEADER == ptr ==> old(blocks)[k].free) ==>
                hdr == old(hdr) && blocks == old(blocks)
      ensures WritesAt(old(hdr), hdr, old(blocks))
    {
      var block := ptr - HEADER;
      HeaderTells(hdr, blocks, block);
      if ptr == NULL { return; }
      if !PtrValid(block) { return; }
      if !At(hdr, block).magic { return; }
      if At(hdr, block).free { return; }
      ghost var k :| 0 <= k < |blocks| && blocks[k].at == block && !blocks[k].free;
      DistinctOffsets(blocks);
      Release(block, k);
    }

    /** Marks block k free, then merges with its successor and its predecessor. */
    method Release(block: int, ghost k: nat)
      requires Valid() && k < |blocks| && blocks[k].at == block && !blocks[k].free
      modifies this`hdr, this`blocks
      ensures Valid() && blocks == Freed(old(blocks), k) && WritesAt(old(hdr), hdr, old(blocks))
    {
      FreedValid(blocks, k);
      MarkedBlocks(blocks, k, true);
      MarkedTiles(blocks, k, true);
      DistinctOffsets(blocks);
      MarkRep(hdr, blocks, k, true);
      NoStraysMarked(hdr, blocks, k, true);
      hdr := hdr[block := At(hdr, block).(free := true)];
      blocks := Marked(blocks, k, true);
      MergeFree(block, k);
      assert At(hdr, block) == HeaderOf(blocks, k);
      var prev := At(hdr, block).prev;
      if k > 0 {
        Position(blocks, k - 1);
        assert At(hdr, prev) == HeaderOf(blocks, k - 1);
      }
      if PtrValid(prev) && At(hdr, prev).magic && At(hdr, prev).free {
        MergeFree(prev, k - 1);
      }
    }

    /** heap_merge_next on a free block: joins it with a free successor. */
    method MergeFree(b: int, ghost k: nat)
      requires Rep(hdr, blocks) && Tiles(blocks) && NoStrays(hdr, blocks)
      requires k < |blocks| && blocks[k].free && blocks[k].at == b
      modifies this`hdr, this`blocks
      ensures Rep(hdr, blocks) && Tiles(blocks) && NoStrays(hdr, blocks)
      ensures blocks == if k + 1 < |old(blocks)| && old(blocks)[k + 1].free then Merged(old(blocks), k) else old(blocks)
      ensures WritesAt(old(hdr), hdr, old(blocks)) && forall p :: IsBlock(blocks, p) ==> IsBlock(old(blocks), p)
    {
      if k + 1 < |blocks| && blocks[k + 1].free {
        MergeRep(hdr, blocks, k);
        MergedTiles(blocks, k);
        NoStraysMerged(hdr, blocks, k);
        MergeWritesAt(hdr, blocks, k);
        MergedBlocks(blocks, k);
        blocks := Merged(blocks, k);
      } else {
        MergeNothing(hdr, blocks, k);
      }
      Merge(b);
    }

    /** Zeroed memory for num items, unless their total size overflows. A total
        within 7 bytes of the overflow is rounded to zero by kmalloc, and the
        zeroing would run past the payload and the arena; `inside` says whether it
        stays in the payload, and where it does not, what it destroys is not shown. */
    method Kcalloc(num: nat, size: nat) returns (p: int, inside: bool)
      requires Valid() && num < SIZE_LIMIT && size < SIZE_LIMIT
      modifies this`hdr, this`blocks, data
      ensures Stored()
      ensures !inside <==> SIZE_LIMIT - 8 < num * size < SIZE_LIMIT && FirstFit(old(blocks), 0, 0) < |old(blocks)|
      ensures num == 0 || size == 0 || num * size >= SIZE_LIMIT ==> p == NULL
      ensures p == NULL ==> Valid() && blocks == old(blocks)
      ensures inside ==> Valid()
      ensures inside && p != NULL ==> Granted(old(blocks), blocks, p, num * size) && Zeroed(data[..], p, num * size)
      ensures !inside ==> exists n: nat :: n < num * size && Granting(old(blocks), blocks, p, n)
      ensures Untouched(old(blocks), old(data[..]), data[..])
    {
      if num == 0 || size == 0 { return NULL, true; }
      var total := num * size % SIZE_LIMIT;
      ProductOverflow(num, size);
      if total / num != size { return NULL, true; }
      assert total == num * size;
      p, inside := ZeroedPayload(total);
    }

    /** kmalloc and the zeroing. */
    method ZeroedPayload(total: nat) returns (p: int, inside: bool)
      requires Valid() && 0 < total < SIZE_LIMIT
      modifies this`hdr, this`blocks, data
      ensures Stored()
      ensures !inside <==> SIZE_LIMIT - 8 < total && FirstFit(old(blocks), 0, 0) < |old(blocks)|
      ensures p == NULL ==> Valid() && blocks == old(blocks)
      ensures inside ==> Valid()
      ensures inside && p != NULL ==> Granted(old(blocks), blocks, p, total) && Zeroed(data[..], p, total)
      ensures !inside ==> exists n: nat :: n < total && Granting(old(blocks), blocks, p, n)
      ensures Untouched(old(blocks), old(data[..]), data[..])
    {
      ghost var n;
      RoundRequestFits(total);
      p, n := Obtain(total);
      inside := true;
      if p != NULL {
        inside := At(hdr, p - HEADER).size >= total;
        if inside {
          assert Granted(old(blocks), blocks, p, total);
          GrantedInside(old(blocks), blocks, p, total);
          ZeroBytes(p, total);
          WritesStayInside(old(blocks), blocks, p, total, old(data[..]), data[..]);
        }
      }
    }

    method ZeroBytes(p: int, count: nat)
      requires data.Length == ARENA && 0 <= p && p + count <= ARENA
      modifies data
      ensures Zeroed(data[..], p, count) && OnlyWithin(old(data[..]), data[..], p, count)
    {
      for i := 0 to count
        invariant Zeroed(data[..], p, i) && OnlyWithin(old(data[..]), data[..], p, i)
      {
        data[p + i] := 0;
      }
    }

    method CopyBytes(p: int, from: int, count: nat)
      requires data.Length == ARENA && 0 <= p && p + count <= ARENA && 0 <= from && from + count <= ARENA
      requires p + count <= from || from + count <= p
      modifies data
      ensures Copied(old(data[..]), data[..], p, from, count) && OnlyWithin(old(data[..]), data[..], p, count)
    {
      for i := 0 to count
        invariant Copied(old(data[..]), data[..], p, from, i) && OnlyWithin(old(data[..]), data[..], p, i)
      {
        data[p + i] := data[from + i];
      }
    }

    /** kmalloc, seen as a change of the set of live payloads; `n` is the size of
        the new one, which is enough unless the rounding wrapped. */
    method Obtain(request: nat) returns (p: int, ghost n: nat)
      requires Valid() && request < SIZE_LIMIT
      modifies this`hdr, this`blocks
      ensures Stored()
      ensures p == NULL <==> request == 0 || FirstFit(old(blocks), 0, RoundRequest(request)) == |old(blocks)|
      ensures p == NULL ==> Valid() && blocks == old(blocks)
      ensures p != NULL ==>
                && Granting(old(blocks), blocks, p, n) && At(hdr, p - HEADER).size == n
                && n == Handed(old(blocks), request) && (n >= request <==> request <= SIZE_LIMIT - 8) && (Valid() <==> n > 0)
    {
      RoundRequestFits(request);
      ghost var size, bs := RoundRequest(request), blocks;
      ghost var k := FirstFit(bs, 0, size);
      n := Handed(bs, request);
      if request > 0 && k < |bs| {
        Handing(bs, request);
        HandedSize(bs, request);
      }
      p := Kmalloc(request);
      if p != NULL {
        LiveSize(hdr, blocks, p, n);
      }
    }

    /** Grows a payload by moving it: the old bytes come along, every other live
        payload stays as it is, and on failure nothing changes. `was` is the size
        of the payload at `ptr`. When kmalloc's rounding wraps the new payload is
        small; `inside` says whether the old bytes fit it, and where they do not,
        what the copy destroys is not shown. */
    method Krealloc(ptr: int, size: nat, ghost was: nat) returns (p: int, inside: bool)
      requires Valid() && size < SIZE_LIMIT
      requires ptr == NULL || (ptr, was) in Live(blocks)
      modifies this`hdr, this`blocks, data
      ensures Stored()
      ensures !inside <==>
                ptr != NULL && size > SIZE_LIMIT - 8 &&
                var k := FirstFit(old(blocks), 0, 0);
                k < |old(blocks)| && Handed(old(blocks), size) < was
      ensures size <= SIZE_LIMIT - 8 || (ptr != NULL && inside) ==> Valid()
      ensures ptr != NULL && size == 0 ==> p == NULL && Live(blocks) == old(Live(blocks)) - {(ptr, was)}
      ensures ptr != NULL && 0 < size <= was ==> p == ptr && blocks == old(blocks) && data[..] == old(data[..])
      ensures size > 0 && p == NULL ==> Valid() && blocks == old(blocks) && data[..] == old(data[..])
      ensures ptr == NULL && p != NULL ==> exists n: nat :: (n >= size <==> size <= SIZE_LIMIT - 8) && Granting(old(blocks), blocks, p, n)
      ensures inside && ptr != NULL && size > was && p != NULL ==>
                && Moved(old(blocks), blocks, ptr, was, p, if size <= SIZE_LIMIT - 8 then size else was)
                && Copied(old(data[..]), data[..], p, ptr, was)
      ensures Untouched(old(blocks), old(data[..]), data[..])
    {
      ghost var n;
      inside := true;
      if ptr == NULL {
        p, n := Obtain(size);
        return;
      }
      LiveHas(hdr, blocks, ptr, was);
      if size == 0 {
        Discard(ptr, was);
        return NULL, true;
      }
      if !At(hdr, ptr - HEADER).magic { assert false; return NULL, true; }
      if At(hdr, ptr - HEADER).size >= size { return ptr, true; }
      p, inside := Relocate(ptr, size, was);
    }

    /** The moving branch: a new payload, the old bytes, the old payload freed. */
    method Relocate(ptr: int, size: nat, ghost was: nat) returns (p: int, inside: bool)
      requires Valid() && was < size < SIZE_LIMIT && (ptr, was) in Live(blocks)
      modifies this`hdr, this`blocks, data
      ensures Stored()
      ensures !inside <==>
                size > SIZE_LIMIT - 8 &&
                var k := FirstFit(old(blocks), 0, 0);
                k < |old(blocks)| && Handed(old(blocks), size) < was
      ensures inside ==> Valid()
      ensures p == NULL ==> Valid() && blocks == old(blocks) && data[..] == old(data[..])
      ensures inside && p != NULL ==>
                && Moved(old(blocks), blocks, ptr, was, p, if size <= SIZE_LIMIT - 8 then size else was)
                && Copied(old(data[..]), data[..], p, ptr, was)
      ensures Untouched(old(blocks), old(data[..]), data[..])
    {
      ghost var n;
      RoundRequestFits(size);
      LiveHas(hdr, blocks, ptr, was);
      ghost var bs := blocks;
      p, n := Obtain(size);
      inside := true;
      if p == NULL { return; }
      LiveSize(hdr, blocks, ptr, was);
      var count := At(hdr, ptr - HEADER).size;
      inside := At(hdr, p - HEADER).size >= count;
      if !inside { return; }
      LiveDisjoint(blocks, (p, n), (ptr, was));
      LiveDisjoint(blocks, (ptr, was), (p, n));
      CopyBytes(p, ptr, if count < size then count else size);
      assert Granted(bs, blocks, p, was);
      WritesStayInside(bs, blocks, p, was, old(data[..]), data[..]);
      Discard(ptr, was);
      assert Moving(bs, blocks, ptr, was, p, n);
    }

    /** kfree, seen as a change of the set of live payloads. */
    method Discard(ptr: int, ghost n: nat)
      requires Valid() && (ptr, n) in Live(blocks)
      modifies this`hdr, this`blocks
      ensures Valid() && Live(blocks) == old(Live(blocks)) - {(ptr, n)}
    {
      ghost var bs := blocks;
      ghost var k: nat :| k < |bs| && !bs[k].free && (ptr, n) == (bs[k].at + HEADER, bs[k].size);
      LiveFreed(bs, k);
      ghost var freed := Freed(bs, k);
      assert Live(freed) == Live(bs) - {(ptr, n)};
      Kfree(ptr);
      assert blocks == freed;
    }

    /** The taking branch of kmalloc, on the block found. */
    method Take(current: int, size: nat, ghost k: nat)
      requires Valid() && k < |blocks| && blocks[k].at == current && Fits(blocks[k], size)
      modifies this`hdr, this`blocks
      ensures Stored() && blocks == Taken(old(blocks), k, size) && WritesAt(old(hdr), hdr, blocks)
      ensures (size >= MIN_SIZE && size % 8 == 0) || Tiles(blocks) ==> Valid()
    {
      if size >= MIN_SIZE && size % 8 == 0 { TakenValid(blocks, k, size); }
      DistinctOffsets(blocks);
      assert At(hdr, current) == HeaderOf(blocks, k);
      ghost var bs := blocks;
      if At(hdr, current).size > size + HEADER + MIN_SIZE {
        SplitRep(hdr, blocks, k, size);
        DividedApart(blocks, k, size);
        NoStraysSplit(hdr, blocks, k, size);
        SplitWritesAt(hdr, blocks, k, size);
        hdr := SplitBlock(hdr, current, size);
        blocks := Divided(blocks, k, size);
      }
      MarkRep(hdr, blocks, k, false);
      assert At(hdr, current) == HeaderOf(blocks, k);
      NoStraysMarked(hdr, blocks, k, false);
      ghost var divided := hdr;
      hdr := hdr[current := At(hdr, current).(free := false)];
      MarkedBlocks(blocks, k, false);
      blocks := Marked(blocks, k, false);
      forall p | At(hdr, p) != At(old(hdr), p)
        ensures IsBlock(blocks, p)
      {
        assert p == current || At(hdr, p) == At(divided, p);
      }
    }
  }

  lemma NoStraysSplit(h: Headers, bs: seq<Block>, k: nat, size: nat)
    requires Tiles(bs) && Rep(h, bs) && NoStrays(h, bs) && k < |bs| && bs[k].size > size + HEADER + MIN_SIZE && bs[k].free
    ensures At(h, bs[k].at).size >= size + HEADER && NoStrays(SplitBlock(h, bs[k].at, size), Divided(bs, k, size))
  {
    SplitWrites(h, bs, k, size, 0);
    var h', r := SplitBlock(h, bs[k].at, size), Divided(bs, k, size);
    forall p | At(h', p).magic && !At(h', p).free
      ensures exists j :: 0 <= j < |r| && r[j].at == p && !r[j].free
    {
      SplitWrites(h, bs, k, size, p);
      assert At(h, p).magic && !At(h, p).free;
      var i :| 0 <= i < |bs| && bs[i].at == p && !bs[i].free;
      assert r[if i <= k then i else i + 1].at == p;
    }
  }

  lemma NoStraysMarked(h: Headers, bs: seq<Block>, k: nat, free: bool)
    requires NoStrays(h, bs) && k < |bs|
    ensures NoStrays(h[bs[k].at := At(h, bs[k].at).(free := free)], Marked(bs, k, free))
  {
    var h', r := h[bs[k].at := At(h, bs[k].at).(free := free)], Marked(bs, k, free);
    forall p | At(h', p).magic && !At(h', p).free
      ensures exists j :: 0 <= j < |r| && r[j].at == p && !r[j].free
    {
      if p == bs[k].at {
        assert r[k].at == p;
      } else {
        assert At(h, p) == At(h', p);
        var i :| 0 <= i < |bs| && bs[i].at == p && !bs[i].free;
        assert r[i] == bs[i];
      }
    }
  }

  lemma NoStraysMerged(h: Headers, bs: seq<Block>, k: nat)
    requires Tiles(bs) && Rep(h, bs) && NoStrays(h, bs) && k + 1 < |bs| && bs[k].free && bs[k + 1].free
    ensures NoStrays(MergeNext(h, bs[k].at), Merged(bs, k))
  {
    var h', r := MergeNext(h, bs[k].at), Merged(bs, k);
    forall p | At(h', p).magic && !At(h', p).free
      ensures exists j :: 0 <= j < |r| && r[j].at == p && !r[j].free
    {
      MergeWrites(h, bs, k, p);
      assert At(h, p).magic && !At(h, p).free;
      var i :| 0 <= i < |bs| && bs[i].at == p && !bs[i].free;
      assert r[if i <= k then i else i - 1] == bs[i];
    }
  }

  /** A live block's header says so. */
  lemma HeaderTells(h: Headers, bs: seq<Block>, p: int)
    requires Rep(h, bs) && Tiles(bs)
    ensures (exists k :: 0 <= k < |bs| && bs[k].at == p && !bs[k].free) ==> PtrValid(p) && At(h, p).magic && !At(h, p).free
  {
    forall k: nat | k < |bs| && bs[k].at == p && !bs[k].free
      ensures PtrValid(p) && At(h, p).magic && !At(h, p).free
    {
      Position(bs, k);
      assert At(h, p) == HeaderOf(bs, k);
    }
  }

  ghost predicate Granting(was: seq<Block>, now: seq<Block>, p: int, n: nat)
  {
    (p, n) in Live(now) && Live(now) == Live(was) + {(p, n)} && forall x :: x in Live(was) ==> x.0 != p
  }

  lemma TakenGrants(bs: seq<Block>, k: nat, size: nat)
    requires Tiles(bs) && k < |bs| && Fits(bs[k], size)
    ensures var r := Taken(bs, k, size);
            Granting(bs, r, bs[k].at + HEADER, r[k].size) && bs[k].at + HEADER != NULL
  {
    LiveTaken(bs, k, size);
    Position(bs, k);
  }

  lemma Handing(bs: seq<Block>, request: nat)
    requires Tiles(bs) && 0 < request < SIZE_LIMIT && FirstFit(bs, 0, RoundRequest(request)) < |bs|
    ensures var size := RoundRequest(request);
            var k := FirstFit(bs, 0, size);
            Granting(bs, Taken(bs, k, size), bs[k].at + HEADER, Handed(bs, request)) && bs[k].at + HEADER != NULL
  {
    TakenGrants(bs, FirstFit(bs, 0, RoundRequest(request)), RoundRequest(request));
  }

  /** A new live payload of at least `size` bytes at p, which was not live. */
  ghost predicate Granted(was: seq<Block>, now: seq<Block>, p: int, size: nat)
  {
    exists n: nat :: n >= size && Granting(was, now, p, n)
  }

  ghost predicate Moving(was: seq<Block>, now: seq<Block>, ptr: int, oldSize: nat, p: int, n: nat)
  {
    (p, n) in Live(now) && p != ptr && Live(now) == Live(was) - {(ptr, oldSize)} + {(p, n)}
  }

  ghost predicate Moved(was: seq<Block>, now: seq<Block>, ptr: int, oldSize: nat, p: int, size: nat)
  {
    exists n: nat :: n >= size && Moving(was, now, ptr, oldSize, p, n)
  }

  predicate Zeroed(bytes: seq<Byte>, p: int, count: nat)
  {
    forall x :: 0 <= x < |bytes| && p <= x < p + count ==> bytes[x] == 0
  }

  predicate Copied(before: seq<Byte>, after: seq<Byte>, p: int, from: int, count: nat)
    requires |before| == |after|
  {
    forall x :: 0 <= x < |after| && p <= x < p + count && 0 <= x - p + from < |before| ==> after[x] == before[x - p + from]
  }

  predicate OnlyWithin(before: seq<Byte>, after: seq<Byte>, p: int, count: nat)
  {
    |before| == |after| && forall x :: 0 <= x < |after| && !(p <= x < p + count) ==> after[x] == before[x]
  }

  /** No byte of a payload that was live has changed. */
  ghost predicate Untouched(was: seq<Block>, before: seq<Byte>, after: seq<Byte>)
  {
    |before| == |after| && forall x, i: int :: x in Live(was) && x.0 <= i < x.0 + x.1 && 0 <= i < |before| ==> after[i] == before[i]
  }

  lemma GrantedInside(was: seq<Block>, now: seq<Block>, p: int, size: nat)
    requires Tiles(now) && Granted(was, now, p, size)
    ensures HEADER <= p && p + size <= ARENA
  {
    var n: nat :| n >= size && Granting(was, now, p, n);
    LiveDisjoint(now, (p, n), (p, n));
  }

  lemma WritesStayInside(was: seq<Block>, now: seq<Block>, p: int, size: nat, before: seq<Byte>, after: seq<Byte>)
    requires Tiles(now) && Granted(was, now, p, size) && OnlyWithin(before, after, p, size)
    ensures Untouched(was, before, after)
  {
    var n: nat :| n >= size && Granting(was, now, p, n);
    forall x, i: int | x in Live(was) && x.0 <= i < x.0 + x.1 && 0 <= i < |before|
      ensures after[i] == before[i]
    {
      LiveDisjoint(now, x, (p, n));
    }
  }

  /** A live payload's header gives its size. */
  lemma LiveSize(h: Headers, bs: seq<Block>, ptr: int, n: nat)
    requires Rep(h, bs) && (ptr, n) in Live(bs)
    ensures At(h, ptr - HEADER).magic && At(h, ptr - HEADER).size == n
  {
    var k :| 0 <= k < |bs| && !bs[k].free && (ptr, n) == (bs[k].at + HEADER, bs[k].size);
    assert At(h, bs[k].at) == HeaderOf(bs, k);
  }

  lemma LiveHas(h: Headers, bs: seq<Block>, ptr: int, n: nat)
    requires Rep(h, bs) && Tiles(bs) && (ptr, n) in Live(bs)
    ensures At(h, ptr - HEADER).magic && At(h, ptr - HEADER).size == n >= MIN_SIZE && HEADER <= ptr && ptr + n <= ARENA
  {
    var k :| 0 <= k < |bs| && !bs[k].free && (ptr, n) == (bs[k].at + HEADER, bs[k].size);
    Position(bs, k);
    assert Good(bs, k);
    LiveSize(h, bs, ptr, n);
  }

  /** The division test of kcalloc detects exactly the products that overflow. */
  lemma ProductOverflow(num: nat, size: nat)
    requires 0 < num && 0 < size < SIZE_LIMIT
    ensures num * size % SIZE_LIMIT / num == size <==> num * size < SIZE_LIMIT
  {
    var product := num * size;
    var total := product % SIZE_LIMIT;
    if product < SIZE_LIMIT {
      Quotient(num, size);
    }
  }

  lemma Quotient(num: nat, size: nat)
    requires 0 < num
    ensures num * size / num == size
  {
    var q := num * size / num;
    assert num * q <= num * size < num * q + num;
    if size > q {
      AtLeast(num, q, size);
    } else if q > size {
      AtLeast(num, size, q);
    }
  }

  lemma {:induction false} AtLeast(num: nat, a: nat, b: nat)
    requires a < b
    ensures num * b >= num * a + num
    decreases b
  {
    var c := b - 1;
    assert num * b == num * c + num;
    if a < c { AtLeast(num, a, c); }
  }
}
