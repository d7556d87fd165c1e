/** The physical page allocator: one bitmap per memory region, a set bit for a free 4 KiB page. */
module PageBitmap {
  import opened WordBits

  /** One region of `size` bytes from `base`, and its bitmap. */
  datatype Node = Node(base: nat, size: nat, words: seq<nat>)

  function Pages(n: Node): nat { n.size / 4096 }

  /** The bit of page `k`, counted from the region's base. */
  predicate PageBit(n: Node, k: nat) { k / 64 < |n.words| && Bit(n.words[k / 64], k % 64) }

  /** As many words as the pages need, and no bit beyond the last page. */
  ghost predicate ValidNode(n: Node) {
    && n.base % 4096 == 0 && n.size % 4096 == 0
    && |n.words| == (Pages(n) + 63) / 64
    && (forall w | w in n.words :: w <= ALL_ONES)
    && (forall k: nat | PageBit(n, k) :: k < Pages(n))
  }

  predicate InRegion(n: Node, a: nat) { n.base <= a < n.base + n.size }

  predicate Disjoint(nodes: seq<Node>) {
    forall i, j | 0 <= i < j < |nodes| ::
      nodes[i].base + nodes[i].size <= nodes[j].base || nodes[j].base + nodes[j].size <= nodes[i].base
  }

  ghost predicate ValidNodes(nodes: seq<Node>) { (forall n | n in nodes :: ValidNode(n)) && Disjoint(nodes) }

  /** A page address is free in `n` when its bit is set. */
  predicate IsFree(n: Node, a: nat) { InRegion(n, a) && a % 4096 == 0 && PageBit(n, (a - n.base) / 4096) }

  function FreeIn(n: Node): set<nat> { set a | n.base <= a < n.base + n.size && IsFree(n, a) }

  /** The free frames of all regions. */
  function FreeFrames(nodes: seq<Node>): set<nat> { set n, a | n in nodes && a in FreeIn(n) :: a }

  // ---- one region ----

  function WithWord(n: Node, i: nat, w: nat): Node
    requires i < |n.words|
  {
    n.(words := n.words[i := w])
  }

  function ClearPage(n: Node, k: nat): Node
    requires k / 64 < |n.words|
  {
    WithWord(n, k / 64, ClearBit(n.words[k / 64], k % 64))
  }

  function SetPage(n: Node, k: nat): Node
    requires k / 64 < |n.words|
  {
    WithWord(n, k / 64, SetBit(n.words[k / 64], k % 64))
  }

  lemma ClearPageIs(n: Node, k: nat, j: nat)
    requires k / 64 < |n.words|
    ensures PageBit(ClearPage(n, k), j) <==> j != k && PageBit(n, j)
  {
    if j / 64 == k / 64 {
      ClearedBit(n.words[k / 64], k % 64, j % 64);
    }
  }

  lemma SetPageIs(n: Node, k: nat, j: nat)
    requires k / 64 < |n.words| && n.words[k / 64] <= ALL_ONES
    ensures PageBit(SetPage(n, k), j) <==> j == k || PageBit(n, j)
  {
    if j / 64 == k / 64 {
      SetIn64(n.words[k / 64], k % 64, j % 64);
    }
  }

  lemma WordsBelow(n: Node, i: nat, w: nat)
    requires i < |n.words| && w <= ALL_ONES && forall v | v in n.words :: v <= ALL_ONES
    ensures forall v | v in WithWord(n, i, w).words :: v <= ALL_ONES
  {
    forall v | v in WithWord(n, i, w).words ensures v <= ALL_ONES {
      assert v == w || v in n.words;
    }
  }

  /** Taking page `k` removes exactly its address. */
  lemma ClearPageTakes(n: Node, k: nat)
    requires ValidNode(n) && k < Pages(n) && k / 64 < |n.words|
    ensures ValidNode(ClearPage(n, k)) && FreeIn(ClearPage(n, k)) == FreeIn(n) - {n.base + 4096 * k}
  {
    hide Bit, ClearBit, PageBit;
    var n' := ClearPage(n, k);
    forall j: nat ensures PageBit(n', j) <==> j != k && PageBit(n, j) {
      ClearPageIs(n, k, j);
    }
    assert n.words[k / 64] in n.words;
    ClearedBit(n.words[k / 64], k % 64, 0);
    WordsBelow(n, k / 64, ClearBit(n.words[k / 64], k % 64));
    forall a | n.base <= a < n.base + n.size ensures a in FreeIn(n') <==> a in FreeIn(n) && a != n.base + 4096 * k {
      if a % 4096 == 0 {
        SamePage(n, a, k);
      }
    }
  }

  lemma SamePage(n: Node, a: nat, k: nat)
    requires n.base <= a && n.base % 4096 == 0 && a % 4096 == 0
    ensures (a - n.base) / 4096 == k <==> a == n.base + 4096 * k
  {
  }

  /** Freeing page `k` adds exactly its address. */
  lemma SetPageGives(n: Node, k: nat)
    requires ValidNode(n) && k < Pages(n) && k / 64 < |n.words|
    ensures ValidNode(SetPage(n, k)) && FreeIn(SetPage(n, k)) == FreeIn(n) + {n.base + 4096 * k}
  {
    hide Bit, SetBit, PageBit;
    var n' := SetPage(n, k);
    assert n.words[k / 64] in n.words;
    forall j: nat ensures PageBit(n', j) <==> j == k || PageBit(n, j) {
      SetPageIs(n, k, j);
    }
    SetIn64(n.words[k / 64], k % 64, 0);
    WordsBelow(n, k / 64, SetBit(n.words[k / 64], k % 64));
    forall a | n.base <= a < n.base + n.size ensures a in FreeIn(n') <==> a in FreeIn(n) || a == n.base + 4096 * k {
      if a % 4096 == 0 {
        SamePage(n, a, k);
      }
    }
  }

  // ---- 2 MiB pages ----

  /** The 512 frames of the 2 MiB page at `a`. */
  function HugeFrames(a: nat): set<nat> { set f | a <= f < a + 0x20_0000 && PageFrom(a, f) }

  predicate PageFrom(a: nat, f: nat) { a <= f && (f - a) % 4096 == 0 }

  /** Words `w` to `w + 8`, the bits of one 2 MiB page, cleared. */
  function ClearWords(n: Node, w: nat, count: nat): Node
    requires w + count <= |n.words|
  {
    n.(words := n.words[..w] + seq(count, _ => 0) + n.words[w + count..])
  }

  lemma ClearWordsIs(n: Node, w: nat, j: nat)
    requires w + 8 <= |n.words|
    ensures PageBit(ClearWords(n, w, 8), j) <==> PageBit(n, j) && !(64 * w <= j < 64 * w + 512)
  {
    var n' := ClearWords(n, w, 8);
    if j / 64 < |n.words| {
      assert n'.words[j / 64] == if w <= j / 64 < w + 8 then 0 else n.words[j / 64];
      ZeroBits(j % 64);
    }
  }

  lemma ClearWordsTakes(n: Node, w: nat)
    requires ValidNode(n) && w + 8 <= |n.words|
    ensures ValidNode(ClearWords(n, w, 8))
            && FreeIn(ClearWords(n, w, 8)) == FreeIn(n) - HugeFrames(n.base + 4096 * 64 * w)
  {
    hide Bit, PageBit;
    var n' := ClearWords(n, w, 8);
    forall j: nat ensures PageBit(n', j) <==> PageBit(n, j) && !(64 * w <= j < 64 * w + 512) {
      ClearWordsIs(n, w, j);
    }
    forall v | v in n'.words ensures v <= ALL_ONES {
      assert v == 0 || v in n.words;
    }
    forall a | n.base <= a < n.base + n.size
      ensures a in FreeIn(n') <==> a in FreeIn(n) && a !in HugeFrames(n.base + 4096 * 64 * w)
    {
      if a % 4096 == 0 {
        HugeRange(n.base, a, w);
      }
    }
  }

  lemma HugeRange(base: nat, a: nat, w: nat)
    requires base <= a && base % 4096 == 0 && a % 4096 == 0
    ensures a in HugeFrames(base + 4096 * 64 * w) <==> 64 * w <= (a - base) / 4096 < 64 * w + 512
  {
  }

  /** Eight words are all ones exactly when the 512 frames they stand for are free. */
  lemma WordsFull(n: Node, w: nat)
    requires ValidNode(n) && w + 8 <= |n.words|
    ensures (forall i | w <= i < w + 8 :: n.words[i] == ALL_ONES) <==> HugeFrames(n.base + 4096 * 64 * w) <= FreeIn(n)
  {
    var at := n.base + 4096 * 64 * w;
    if forall i | w <= i < w + 8 :: n.words[i] == ALL_ONES {
      forall f | f in HugeFrames(at) ensures f in FreeIn(n) {
        FrameOfFullWord(n, w, f);
      }
    }
    if HugeFrames(at) <= FreeIn(n) {
      forall i | w <= i < w + 8 ensures n.words[i] == ALL_ONES {
        FullWordOfFrames(n, w, i);
      }
    }
  }

  lemma FrameOfFullWord(n: Node, w: nat, f: nat)
    requires ValidNode(n) && w + 8 <= |n.words| && f in HugeFrames(n.base + 4096 * 64 * w)
    requires forall i | w <= i < w + 8 :: n.words[i] == ALL_ONES
    ensures f in FreeIn(n)
  {
    var k := (f - n.base) / 4096;
    assert f == n.base + 4096 * k;
    HugeRange(n.base, f, w);
    assert n.words[k / 64] == ALL_ONES;
    AllOnesBits(k % 64);
    assert PageBit(n, k);
  }

  lemma FullWordOfFrames(n: Node, w: nat, i: nat)
    requires ValidNode(n) && w <= i < w + 8 <= |n.words| && HugeFrames(n.base + 4096 * 64 * w) <= FreeIn(n)
    ensures n.words[i] == ALL_ONES
  {
    hide Bit, FreeIn, HugeFrames;
    var v := n.words[i];
    assert v in n.words;
    forall b | 0 <= b < 64 ensures Bit(v, b) {
      FreeFrameBit(n, w, i, b);
    }
    AllBitsOfWord(v);
  }

  lemma FreeFrameBit(n: Node, w: nat, i: nat, b: nat)
    requires ValidNode(n) && w <= i < w + 8 <= |n.words| && b < 64 && HugeFrames(n.base + 4096 * 64 * w) <= FreeIn(n)
    ensures Bit(n.words[i], b)
  {
    hide Bit;
    var k := 64 * i + b;
    var f := n.base + 4096 * k;
    HugeRange(n.base, f, w);
    assert f in FreeIn(n) && (f - n.base) / 4096 == k;
    assert k / 64 == i && k % 64 == b;
  }

  // ---- all regions ----

  /** The region at `i` takes a new bitmap. */
  lemma ReplacedTakes(nodes: seq<Node>, i: nat, n: Node, taken: set<nat>)
    requires ValidNodes(nodes) && i < |nodes| && ValidNode(n) && n.base == nodes[i].base && n.size == nodes[i].size
    requires FreeIn(n) == FreeIn(nodes[i]) - taken && forall a | a in taken :: InRegion(n, a)
    ensures ValidNodes(nodes[i := n]) && FreeFrames(nodes[i := n]) == FreeFrames(nodes) - taken
  {
    hide ValidNode, IsFree;
    ReplacedValid(nodes, i, n);
    var next := nodes[i := n];
    forall a ensures a in FreeFrames(next) <==> a in FreeFrames(nodes) && a !in taken {
      if m :| m in next && a in FreeIn(m) {
        var j :| 0 <= j < |next| && next[j] == m;
        assert nodes[j] in nodes && a in FreeIn(nodes[j]);
        InRegionOf(m, a);
      }
      if m :| m in nodes && a in FreeIn(m) && a !in taken {
        var j :| 0 <= j < |nodes| && nodes[j] == m;
        assert next[j] in next && a in FreeIn(next[j]);
      }
    }
  }

  lemma ReplacedGives(nodes: seq<Node>, i: nat, n: Node, given: nat)
    requires ValidNodes(nodes) && i < |nodes| && ValidNode(n) && n.base == nodes[i].base && n.size == nodes[i].size
    requires FreeIn(n) == FreeIn(nodes[i]) + {given}
    ensures ValidNodes(nodes[i := n]) && FreeFrames(nodes[i := n]) == FreeFrames(nodes) + {given}
  {
    hide ValidNode, IsFree, FreeIn;
    ReplacedValid(nodes, i, n);
    var next := nodes[i := n];
    assert next[i] == n;
    forall a ensures a in FreeFrames(next) <==> a in FreeFrames(nodes) || a == given {
      if m :| m in next && a in FreeIn(m) {
        var j :| 0 <= j < |next| && next[j] == m;
        assert nodes[j] in nodes;
      }
      if m :| m in nodes && a in FreeIn(m) {
        var j :| 0 <= j < |nodes| && nodes[j] == m;
        assert next[j] in next;
      }
    }
  }

  lemma InRegionOf(n: Node, a: nat)
    requires a in FreeIn(n)
    ensures InRegion(n, a)
  {
  }

  lemma ReplacedValid(nodes: seq<Node>, i: nat, n: Node)
    requires ValidNodes(nodes) && i < |nodes| && ValidNode(n) && n.base == nodes[i].base && n.size == nodes[i].size
    ensures ValidNodes(nodes[i := n])
  {
    hide ValidNode;
    var next := nodes[i := n];
    forall m | m in next ensures ValidNode(m) {
      assert m == n || m in nodes;
    }
  }
}
