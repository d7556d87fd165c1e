/** One slab of the kernel heap: equal blocks in 15 pages, the unused ones on a doubly linked list. */
module SlabHeap {
  import opened Common

  const SLAB_META: nat := 32          // bytes of slab metadata at the base
  const BLOCK_META: nat := 32         // bytes of metadata before each block
  const SLAB_BYTES: nat := 61440      // 15 pages

  datatype BlockMeta = BlockMeta(next: Option<nat>, prev: Option<nat>, used: bool)

  // ---- layout ----

  /** How many blocks of `size` bytes fit. */
  function BlockCount(size: nat): nat { (SLAB_BYTES - SLAB_META) / (BLOCK_META + size) }

  /** Where block `i` starts, with its metadata. */
  function BlockAt(base: nat, size: nat, i: nat): nat { base + SLAB_META + i * (BLOCK_META + size) }

  lemma BlocksOrdered(base: nat, size: nat, i: nat, j: nat)
    requires i < j
    ensures BlockAt(base, size, i) + BLOCK_META + size <= BlockAt(base, size, j)
  {
    var w := BLOCK_META + size;
    assert (i + 1) * w <= j * w;
    assert (i + 1) * w == i * w + w;
  }

  /** Every block lies, with its metadata, inside the slab's pages and behind the slab metadata. */
  lemma BlocksInside(base: nat, size: nat, i: nat)
    requires i < BlockCount(size)
    ensures BlockAt(base, size, i) == base + 32 + i * (32 + size)
    ensures BlockAt(base, size, i) + 32 + size <= base + 15 * 4096
  {
    var w := BLOCK_META + size;
    var n := BlockCount(size);
    assert n * w <= SLAB_BYTES - SLAB_META;
    assert (i + 1) * w <= n * w;
    assert (i + 1) * w == i * w + w;
  }

  /** And there is no room behind them for one more. */
  lemma BlocksFill(base: nat, size: nat)
    ensures base + 15 * 4096 < BlockAt(base, size, BlockCount(size)) + 32 + size
  {
    var w, n := BLOCK_META + size, BlockCount(size);
    assert SLAB_BYTES - SLAB_META < (n + 1) * w;
    assert (n + 1) * w == n * w + w;
  }

  /** The block addresses. */
  ghost predicate IsBlock(base: nat, size: nat, a: nat) {
    exists i: nat :: i < BlockCount(size) && a == BlockAt(base, size, i)
  }

  /** User memory of a block, as a range of addresses from its pointer. */
  predicate InBlock(a: nat, size: nat, x: int) { a + BLOCK_META <= x < a + BLOCK_META + size }

  predicate InMeta(a: nat, x: int) { a <= x < a + BLOCK_META }

  /** User memory of one block meets neither another block, nor any metadata, nor the outside. */
  lemma BlocksApart(base: nat, size: nat, a: nat, b: nat, x: int)
    requires IsBlock(base, size, a) && IsBlock(base, size, b) && InBlock(a, size, x)
    ensures base + SLAB_META <= x < base + SLAB_BYTES && !InMeta(b, x) && (a != b ==> !InBlock(b, size, x))
  {
    var i: nat :| i < BlockCount(size) && a == BlockAt(base, size, i);
    var j: nat :| j < BlockCount(size) && b == BlockAt(base, size, j);
    BlocksInside(base, size, i);
    if i < j {
      BlocksOrdered(base, size, i, j);
    } else if j < i {
      BlocksOrdered(base, size, j, i);
    }
  }

  // ---- the list ----

  type Metas = map<nat, BlockMeta>

  function At(list: seq<nat>, k: int): Option<nat> { if 0 <= k < |list| then Some(list[k]) else None }

  /** Entry `k` of the list is unused and linked to its neighbours both ways. */
  predicate LinkAt(metas: Metas, list: seq<nat>, k: nat)
    requires k < |list|
  {
    list[k] in metas && metas[list[k]] == BlockMeta(At(list, k + 1), At(list, k - 1), false)
  }

  /** `list` is the list from `head`: linked forward and back, without repeats. */
  predicate Linked(metas: Metas, head: Option<nat>, list: seq<nat>) {
    head == At(list, 0) && NoDuplicates(list) && forall k | 0 <= k < |list| :: LinkAt(metas, list, k)
  }

  /** Following `next` from `head` visits exactly `list`, so the list ends. */
  function Walk(metas: Metas, at: Option<nat>, steps: nat): seq<nat>
    decreases steps
  {
    if at.None? || at.value !in metas || steps == 0 then []
    else [at.value] + Walk(metas, metas[at.value].next, steps - 1)
  }

  lemma {:induction false} WalkIsList(metas: Metas, head: Option<nat>, list: seq<nat>, k: nat, steps: nat)
    requires Linked(metas, head, list) && k <= |list| && |list| - k <= steps
    ensures Walk(metas, if k < |list| then Some(list[k]) else None, steps) == list[k..]
    decreases |list| - k
  {
    if k < |list| {
      assert LinkAt(metas, list, k);
      WalkIsList(metas, head, list, k + 1, steps - 1);
      assert list[k..] == [list[k]] + list[k + 1..];
    }
  }

  /** Taking the first block off the list. */
  function Popped(metas: Metas, head: nat): Metas
    requires head in metas
  {
    var next := metas[head].next;
    var m := if next.Some? && next.value in metas then metas[next.value := metas[next.value].(prev := None)] else metas;
    m[head := m[head].(used := true)]
  }

  lemma PopIs(metas: Metas, head: nat, list: seq<nat>)
    requires Linked(metas, Some(head), list) && head in metas
    ensures list != [] && list[0] == head && Linked(Popped(metas, head), metas[head].next, list[1..])
    ensures Popped(metas, head).Keys == metas.Keys && Popped(metas, head)[head].used
    ensures forall a | a in metas && a != head :: Popped(metas, head)[a].used == metas[a].used
  {
    var m := Popped(metas, head);
    var rest := list[1..];
    assert LinkAt(metas, list, 0);
    forall k | 0 <= k < |rest| ensures LinkAt(m, rest, k) {
      assert LinkAt(metas, list, k + 1);
      assert rest[k] == list[k + 1] && rest[k] != head;
      assert At(rest, k + 1) == At(list, k + 2) && (k > 0 ==> At(rest, k - 1) == At(list, k) && rest[k] != list[1]);
    }
    assert m.Keys == metas.Keys;
  }

  /** Putting a block in front. */
  function Pushed(metas: Metas, head: Option<nat>, a: nat): Metas
    requires a in metas
  {
    var m := metas[a := BlockMeta(head, None, false)];
    if head.Some? && head.value in m then m[head.value := m[head.value].(prev := Some(a))] else m
  }

  lemma PushIs(metas: Metas, head: Option<nat>, list: seq<nat>, a: nat)
    requires Linked(metas, head, list) && a in metas && metas[a].used
    ensures Linked(Pushed(metas, head, a), Some(a), [a] + list)
    ensures Pushed(metas, head, a).Keys == metas.Keys && !Pushed(metas, head, a)[a].used
    ensures forall b | b in metas && b != a :: Pushed(metas, head, a)[b].used == metas[b].used
  {
    var m := Pushed(metas, head, a);
    var l := [a] + list;
    forall j | 0 <= j < |list| ensures list[j] != a {
      assert LinkAt(metas, list, j);
    }
    forall k | 0 <= k < |l| ensures LinkAt(m, l, k) {
      assert At(l, k + 1) == At(list, k);
      if k > 0 {
        assert LinkAt(metas, list, k - 1);
        assert l[k] == list[k - 1] && (k > 1 ==> At(l, k - 1) == At(list, k - 2) && l[k] != list[0]);
      }
    }
    assert m.Keys == metas.Keys;
  }

  // ---- building the list ----

  function Blocks(base: nat, size: nat, n: nat): (r: seq<nat>)
    ensures |r| == n && forall i | 0 <= i < n :: r[i] == BlockAt(base, size, i)
  {
    seq(n, i requires 0 <= i < n => BlockAt(base, size, i))
  }

  lemma BlocksDiffer(base: nat, size: nat, n: nat)
    ensures NoDuplicates(Blocks(base, size, n))
  {
    hide BlockAt;
    forall i, j | 0 <= i < j < n ensures Blocks(base, size, n)[i] != Blocks(base, size, n)[j] {
      BlocksOrdered(base, size, i, j);
    }
  }

  /** A new last block, linked behind the previous one. */
  function Appended(metas: Metas, prev: Option<nat>, a: nat): Metas {
    var m := metas[a := BlockMeta(None, None, false)];
    if prev.Some? && prev.value in m then
      m[prev.value := m[prev.value].(next := Some(a))][a := BlockMeta(None, prev, false)]
    else m
  }

  lemma AppendIs(metas: Metas, head: Option<nat>, list: seq<nat>, a: nat)
    requires Linked(metas, head, list) && a !in list
    ensures Linked(Appended(metas, At(list, |list| - 1), a), At(list + [a], 0), list + [a])
    ensures Appended(metas, At(list, |list| - 1), a).Keys == metas.Keys + {a}
  {
    var m := Appended(metas, At(list, |list| - 1), a);
    var l := list + [a];
    forall k | 0 <= k < |list| ensures list[k] in metas && list[k] != a {
      assert LinkAt(metas, list, k);
    }
    forall k | 0 <= k < |l| ensures LinkAt(m, l, k) {
      assert At(l, k - 1) == At(list, k - 1);
      if k < |list| {
        assert LinkAt(metas, list, k);
        assert l[k] == list[k] && (k + 1 < |list| ==> At(l, k + 1) == At(list, k + 1) && list[k] != list[|list| - 1]);
      }
    }
    assert m.Keys == metas.Keys + {a};
  }

  /** The blocks laid out so far: all of them unused and on the list. */
  ghost predicate LaidOut(m: Metas, first: Option<nat>, l: seq<nat>) {
    Linked(m, first, l) && |m| == |l| && (forall a :: a in m <==> a in l) && forall a | a in m :: !m[a].used
  }

  lemma LaidOutMore(m: Metas, first: Option<nat>, l: seq<nat>, a: nat)
    requires LaidOut(m, first, l) && a !in l
    ensures LaidOut(Appended(m, At(l, |l| - 1), a), At(l + [a], 0), l + [a])
  {
    hide Linked, Appended, At;
    AppendIs(m, first, l, a);
    AppendUnused(m, At(l, |l| - 1), a);
  }

  lemma NextBlock(base: nat, size: nat, i: nat)
    ensures Blocks(base, size, i + 1) == Blocks(base, size, i) + [BlockAt(base, size, i)]
    ensures BlockAt(base, size, i) !in Blocks(base, size, i)
  {
    hide BlockAt;
    BlocksDiffer(base, size, i + 1);
    assert Blocks(base, size, i + 1) == Blocks(base, size, i) + [BlockAt(base, size, i)];
    NotAmong(Blocks(base, size, i), BlockAt(base, size, i));
  }

  /** Lays out `n` blocks and links each behind the one before. */
  method LinkBlocks(base: nat, size: nat, n: nat) returns (m: Metas, first: Option<nat>)
    ensures LaidOut(m, first, Blocks(base, size, n))
  {
    hide BlockAt, LaidOut, Blocks;
    m, first := map[], None;
    var prev := None;
    var i := 0;
    ghost var l: seq<nat> := [];
    EmptyList(base, size);
    while i < n
      invariant i <= n && |l| == i && l == Blocks(base, size, i) && LaidOut(m, first, l)
      invariant first == At(l, 0) && prev == At(l, i - 1)
    {
      var a := BlockAt(base, size, i);
      NextBlock(base, size, i);
      LaidOutMore(m, first, l, a);
      ghost var before := m;
      m := m[a := BlockMeta(None, None, false)];
      if prev.Some? && prev.value in m {
        m := m[prev.value := m[prev.value].(next := Some(a))];
        m := m[a := BlockMeta(None, prev, false)];
      }
      assert m == Appended(before, prev, a);
      if prev.None? {
        first := Some(a);
      }
      l := l + [a];
      prev := Some(a);
      i := i + 1;
    }
  }

  /** All blocks have metadata, the list holds exactly the unused ones, and the counts agree. */
  ghost predicate Sound(base: nat, size: nat, used: nat, total: nat, head: Option<nat>, metas: Metas, list: seq<nat>) {
    && Linked(metas, head, list)
    && (forall a :: a in metas <==> IsBlock(base, size, a))
    && (forall a | a in metas :: a in list <==> !metas[a].used)
    && used + |list| == BlockCount(size)
    && |metas| == BlockCount(size) && total <= BlockCount(size)
  }

  /** The pointers to used blocks. */
  function LiveOf(metas: Metas): set<nat> { set a | a in metas && metas[a].used :: a + BLOCK_META }

  lemma PopKeeps(base: nat, size: nat, used: nat, total: nat, head: Option<nat>, metas: Metas, list: seq<nat>)
    requires Sound(base, size, used, total, head, metas, list) && used < total
    ensures head.Some? && head.value in metas && list != [] && list[0] == head.value
    ensures var b := head.value;
            && Sound(base, size, used + 1, total, metas[b].next, Popped(metas, b), list[1..])
            && LiveOf(Popped(metas, b)) == LiveOf(metas) + {b + BLOCK_META} && b + BLOCK_META !in LiveOf(metas)
  {
    hide Linked, BlockCount, IsBlock, Popped;
    HeadIs(metas, head, list);
    PopIs(metas, head.value, list);
    TakenFrom(list, head.value);
  }

  lemma PushKeeps(base: nat, size: nat, used: nat, total: nat, head: Option<nat>, metas: Metas, list: seq<nat>, a: nat)
    requires Sound(base, size, used, total, head, metas, list) && a in metas && metas[a].used
    ensures used > 0 && Sound(base, size, used - 1, total, Some(a), Pushed(metas, head, a), [a] + list)
    ensures LiveOf(Pushed(metas, head, a)) == LiveOf(metas) - {a + BLOCK_META}
  {
    hide Linked, BlockCount, IsBlock, Pushed;
    ListShort(metas, head, list, a);
    PushIs(metas, head, list, a);
  }

  class Slab {
    const base: nat
    const size: nat
    var used: nat
    var total: nat
    var head: Option<nat>
    var metas: Metas                // the metadata in front of each block, by its address
    ghost var list: seq<nat>        // the unused blocks, in list order

    ghost predicate Valid()
      reads this
    {
      Sound(base, size, used, total, head, metas, list)
    }

    /** The pointers handed out and not yet freed. */
    ghost function Live(): set<nat>
      reads this
    {
      LiveOf(metas)
    }

    /** Cuts the slab into blocks and links them all. */
    constructor (base: nat, size: nat, total: nat)
      requires base > 0
      ensures Valid() && this.base == base && this.size == size && used == 0 && Live() == {}
      ensures this.total == Min(total, BlockCount(size)) && list == Blocks(base, size, BlockCount(size))
    {
      hide BlockAt, BlockCount, Linked, Blocks, IsBlock;
      this.base, this.size, this.used := base, size, 0;
      var actual := BlockCount(size);
      this.total := if actual < total then actual else total;
      var m, first := LinkBlocks(base, size, actual);
      head, metas, list := first, m, Blocks(base, size, actual);
      BlocksAre(base, size);
    }

    /** Live memory lies in the slab's pages and meets neither other live memory nor metadata. */
    lemma LiveApart(p: nat, q: nat, x: int)
      requires Valid() && p in Live() && q in Live() && p <= x < p + size
      ensures base + 32 <= x < base + 15 * 4096 && (p != q ==> !(q <= x < q + size))
      ensures forall a | a in metas :: !InMeta(a, x)
    {
      hide BlockCount, BlockAt, Linked;
      var a, b := p - BLOCK_META, q - BLOCK_META;
      BlocksApart(base, size, a, b, x);
      forall c | c in metas ensures !InMeta(c, x) {
        BlocksApart(base, size, a, c, x);
      }
    }

    /** Following `next` from the head, for however many steps, visits exactly the unused blocks,
        each once, and ends there. */
    lemma FreeListIsUnused(steps: nat)
      requires Valid() && steps >= BlockCount(size)
      ensures Walk(metas, head, steps) == list && NoDuplicates(list)
      ensures forall a :: a in list <==> a in metas && !metas[a].used
    {
      HeadIs(metas, head, list);
      WalkIsList(metas, head, list, 0, steps);
      assert list[0..] == list;
      forall a | a in list ensures a in metas {
        var k :| 0 <= k < |list| && list[k] == a;
        assert LinkAt(metas, list, k);
      }
    }

    /** Hands out the first unused block. It fails exactly when the slab is full. */
    method Alloc() returns (r: Option<nat>)
      requires Valid()
      modifies this
      ensures Valid() && total == old(total)
      ensures r.None? <==> old(used) >= total
      ensures r.None? ==> Live() == old(Live()) && list == old(list) && used == old(used)
      ensures r.Some? ==> r.value !in old(Live()) && Live() == old(Live()) + {r.value}
      ensures r.Some? ==> old(list) == [r.value - BLOCK_META] + list && used == old(used) + 1
    {
      hide Sound, LiveOf;
      if used < total {
        PopKeeps(base, size, used, total, head, metas, list);
      }
      if used >= total || head.None? {
        return None;
      }
      var block := head.value;
      var next := metas[block].next;
      ghost var before := metas;
      head := next;
      if next.Some? && next.value in metas {
        metas := metas[next.value := metas[next.value].(prev := None)];
      }
      used := used + 1;
      metas := metas[block := metas[block].(used := true)];
      assert metas == Popped(before, block);
      list := list[1..];
      r := Some(block + BLOCK_META);
    }

    /** Takes a live block back, to the front of the list. A null pointer is ignored. */
    method Dealloc(ptr: nat)
      requires Valid() && (ptr == 0 || ptr in Live())
      modifies this
      ensures Valid() && total == old(total)
      ensures ptr == 0 ==> Live() == old(Live()) && list == old(list) && used == old(used)
      ensures ptr != 0 ==>
                Live() == old(Live()) - {ptr} && list == [ptr - BLOCK_META] + old(list) && used == old(used) - 1
    {
      ghost var live := ptr - BLOCK_META;
      assert ptr != 0 ==> live in metas && metas[live].used;
      hide Sound, LiveOf;
      if ptr != 0 {
        PushKeeps(base, size, used, total, head, metas, list, live);
      }
      if used == 0 || ptr == 0 {
        return;
      }
      var block := ptr - BLOCK_META;
      ghost var before, first := metas, head;
      metas := metas[block := BlockMeta(head, None, false)];
      if head.Some? && head.value in metas {
        metas := metas[head.value := metas[head.value].(prev := Some(block))];
      }
      assert metas == Pushed(before, first, block);
      used := used - 1;
      head := Some(block);
      list := [block] + list;
    }
  }

  lemma EmptyList(base: nat, size: nat)
    ensures LaidOut(map[], None, []) && Blocks(base, size, 0) == []
  {
  }

  lemma HeadIs(metas: Metas, head: Option<nat>, list: seq<nat>)
    requires Linked(metas, head, list)
    ensures NoDuplicates(list) && (head.None? <==> list == [])
    ensures head.Some? ==> head.value in metas && list[0] == head.value
  {
    if list != [] {
      assert LinkAt(metas, list, 0);
    }
  }

  lemma TakenFrom(list: seq<nat>, a: nat)
    requires list != [] && list[0] == a && NoDuplicates(list)
    ensures list == [a] + list[1..] && a !in list[1..]
  {
  }

  lemma {:induction false} DifferentCount(list: seq<nat>)
    requires NoDuplicates(list)
    ensures |Elements(list)| == |list|
  {
    if list != [] {
      DifferentCount(list[1..]);
      assert Elements(list) == Elements(list[1..]) + {list[0]};
    }
  }

  /** A used block is missing from the list, which is therefore shorter than the slab. */
  lemma ListShort(metas: Metas, head: Option<nat>, list: seq<nat>, a: nat)
    requires Linked(metas, head, list) && a in metas && metas[a].used
    ensures |list| < |metas|
  {
    DifferentCount(list);
    forall k | 0 <= k < |list| ensures list[k] in metas && list[k] != a {
      assert LinkAt(metas, list, k);
    }
    assert a in metas.Keys && a !in Elements(list);
    SubsetSize(Elements(list), metas.Keys);
  }

  lemma NotAmong(l: seq<nat>, a: nat)
    requires NoDuplicates(l + [a])
    ensures a !in l
  {
    forall i | 0 <= i < |l| ensures l[i] != a {
      assert (l + [a])[i] == l[i] && (l + [a])[|l|] == a;
    }
  }

  lemma AppendUnused(m: Metas, prev: Option<nat>, a: nat)
    requires forall b | b in m :: !m[b].used
    ensures forall b | b in Appended(m, prev, a) :: !Appended(m, prev, a)[b].used
  {
  }

  lemma BlocksAre(base: nat, size: nat)
    ensures forall a: nat :: a in Blocks(base, size, BlockCount(size)) <==> IsBlock(base, size, a)
  {
    hide BlockAt, BlockCount;
    var bs := Blocks(base, size, BlockCount(size));
    forall a: nat | IsBlock(base, size, a) ensures a in bs {
      var i: nat :| i < BlockCount(size) && a == BlockAt(base, size, i);
      assert bs[i] == a;
    }
    forall a: nat | a in bs ensures IsBlock(base, size, a) {
      var i :| 0 <= i < |bs| && bs[i] == a;
    }
  }
}
