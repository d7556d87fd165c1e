/** What private copies and new pages cost the loader in frames. */
module FrameAccounts {
  import opened Common
  import opened LoaderMemory

  function PageRange(first: nat, last: int): (r: set<nat>)
    ensures forall p: nat :: p in r <==> first <= p <= last
    decreases last - first
  {
    if last < first then {} else PageRange(first, last - 1) + {last}
  }

  /** The pages that `len` bytes at `addr` lie in. */
  function Span(addr: nat, len: nat): set<nat> { PageRange(addr / 4096, (addr + len - 1) / 4096) }

  /** The pages that have no private copy yet. */
  ghost function Uncopied(pt: Table): set<nat> { set p | p in pt && !pt[p].flags.copied }

  /** The pages in `pages` were made private, at one frame for each that was not so before. */
  ghost predicate Copied(pt: Table, frames: int, pt': Table, frames': int, pages: set<nat>) {
    pt'.Keys == pt.Keys && Uncopied(pt') == Uncopied(pt) - pages && frames' == frames - |Uncopied(pt) * pages|
  }

  lemma CopiedNone(pt: Table, frames: int)
    ensures Copied(pt, frames, pt, frames, {})
  {
    assert Uncopied(pt) * {} == {};
  }

  lemma CopiedOne(pt: Table, frames: int, page: nat, f: nat)
    requires page in pt && !pt[page].flags.copied
    ensures Copied(pt, frames, pt[page := Entry(f, pt[page].flags.(copied := true))], frames - 1, {page})
  {
    assert Uncopied(pt) * {page} == {page};
  }

  lemma CopiedBefore(pt: Table, frames: int, page: nat)
    requires page in pt && pt[page].flags.copied
    ensures Copied(pt, frames, pt, frames, {page})
  {
    assert Uncopied(pt) * {page} == {};
  }

  /** Copies of the pages in `a` and then of those in `b`. */
  lemma CopiedMore(pt: Table, frames: int, mid: Table, left: int, pt': Table, frames': int, a: set<nat>, b: set<nat>)
    requires Copied(pt, frames, mid, left, a) && Copied(mid, left, pt', frames', b)
    ensures Copied(pt, frames, pt', frames', a + b)
  {
    hide Uncopied;
    CopyCost(Uncopied(pt), a, b);
  }

  lemma CopyCost(u: set<nat>, a: set<nat>, b: set<nat>)
    ensures |u * (a + b)| == |u * a| + |(u - a) * b|
  {
    assert u * (a + b) == u * a + (u - a) * b;
  }

  /** Frames that do not suffice for `a` and one page more do not suffice for a larger set. */
  lemma TooFew(u: set<nat>, a: set<nat>, b: set<nat>, all: set<nat>, frames: int, left: int)
    requires left == frames - |u * a| && |(u - a) * b| > left && a + b <= all
    ensures |u * all| > frames
  {
    CopyCost(u, a, b);
    SubsetSize(u * (a + b), u * all);
  }

  /** New pages that are not private copies. */
  ghost predicate Grown(pt: Table, pt': Table, pages: set<nat>) {
    pages !! pt.Keys && pt'.Keys == pt.Keys + pages && Uncopied(pt') == Uncopied(pt) + pages
  }

  lemma GrownNone(pt: Table)
    ensures Grown(pt, pt, {})
  {
  }

  lemma GrownMore(pt: Table, mid: Table, pt': Table, a: set<nat>, b: set<nat>)
    requires Grown(pt, mid, a) && Grown(mid, pt', b)
    ensures Grown(pt, pt', a + b)
  {
  }

  lemma GrownOne(pt: Table, page: nat, e: Entry)
    requires page !in pt && !e.flags.copied
    ensures Grown(pt, pt[page := e], {page})
  {
  }

  lemma EmptyRange(first: nat)
    ensures PageRange(first, first - 1) == {}
  {
  }

  lemma RangeMore(first: nat, last: int)
    requires first <= last + 1
    ensures PageRange(first, last + 1) == PageRange(first, last) + {last + 1} && last + 1 !in PageRange(first, last)
  {
  }
}
