/** Page table, physical frames, and the virtual image the kernel will see through them: what
    each primitive operation of the loader does to that image. */
module LoaderMemory {
  import opened Common

  /** PRESENT is set on every entry; `copied` is the bit the loader keeps for itself. */
  datatype Flags = Flags(writable: bool, noExecute: bool, copied: bool)

  datatype Entry = Entry(frame: nat, flags: Flags)

  type Table = map<nat, Entry>

  type Memory = map<nat, seq<Byte>>

  /** The virtual image: the byte at each mapped address. */
  type View = imap<nat, Byte>

  ghost predicate Backed(pt: Table, mem: Memory) {
    forall p | p in pt :: pt[p].frame in mem && |mem[pt[p].frame]| == 4096
  }

  ghost function ViewOf(pt: Table, mem: Memory): View
    requires Backed(pt, mem)
  {
    imap a: nat | a / 4096 in pt :: mem[pt[a / 4096].frame][a % 4096]
  }

  /** `v` with `bytes` written at `addr`. */
  ghost function Overlay(v: View, addr: nat, bytes: seq<Byte>): View {
    imap a: nat | a in v || addr <= a < addr + |bytes| ::
      if addr <= a < addr + |bytes| then bytes[a - addr] else v[a]
  }

  ghost predicate AllMapped(pt: Table, addr: nat, len: nat) {
    forall p | addr / 4096 <= p <= (addr + len - 1) / 4096 :: p in pt
  }

  /** No other page uses the frame of page `p`. */
  ghost predicate Exclusive(pt: Table, p: nat)
    requires p in pt
  {
    forall q | q in pt && q != p :: pt[q].frame != pt[p].frame
  }

  predicate Unmapped(pt: Table, f: nat) { forall p | p in pt :: pt[p].frame != f }

  // ---------------------------------------------------------------------------------------
  // The primitive operations
  // ---------------------------------------------------------------------------------------

  /** Moving a page to an unused frame with the same contents is not visible. */
  lemma CopyPageView(pt: Table, mem: Memory, p: nat, f: nat, flags: Flags)
    requires Backed(pt, mem) && p in pt && Unmapped(pt, f)
    ensures var pt' := pt[p := Entry(f, flags)]; var mem' := mem[f := mem[pt[p].frame]];
            Backed(pt', mem') && ViewOf(pt', mem') == ViewOf(pt, mem) && Exclusive(pt', p)
  {
  }

  /** Writing to the frame of a page that has it alone is one overlay and nothing else. */
  lemma WriteFrameView(pt: Table, mem: Memory, p: nat, off: nat, bytes: seq<Byte>)
    requires Backed(pt, mem) && p in pt && Exclusive(pt, p) && off + |bytes| <= 4096
    ensures var f := pt[p].frame; var mem' := mem[f := Splice(mem[f], off, bytes)];
            Backed(pt, mem') && ViewOf(pt, mem') == Overlay(ViewOf(pt, mem), 4096 * p + off, bytes)
  {
    var f := pt[p].frame;
    var mem' := mem[f := Splice(mem[f], off, bytes)];
    forall a: nat
      ensures a in ViewOf(pt, mem') <==> a in Overlay(ViewOf(pt, mem), 4096 * p + off, bytes)
      ensures a in ViewOf(pt, mem') ==> ViewOf(pt, mem')[a] == Overlay(ViewOf(pt, mem), 4096 * p + off, bytes)[a]
    {
      if 4096 * p + off <= a < 4096 * p + off + |bytes| {
        assert a / 4096 == p && a % 4096 == a - 4096 * p;
      }
    }
  }

  /** A frame no page uses can change without being seen. */
  lemma ScratchView(pt: Table, mem: Memory, f: nat, bytes: seq<Byte>)
    requires Backed(pt, mem) && Unmapped(pt, f) && |bytes| == 4096
    ensures Backed(pt, mem[f := bytes]) && ViewOf(pt, mem[f := bytes]) == ViewOf(pt, mem)
  {
  }

  /** Flags are not part of the image. */
  lemma FlagsView(pt: Table, mem: Memory, p: nat, flags: Flags)
    requires Backed(pt, mem) && p in pt
    ensures var pt' := pt[p := Entry(pt[p].frame, flags)]; Backed(pt', mem) && ViewOf(pt', mem) == ViewOf(pt, mem)
  {
  }

  /** A mapped page shows the bytes of its frame. */
  lemma ReadFrameView(pt: Table, mem: Memory, p: nat)
    requires Backed(pt, mem) && p in pt
    ensures forall a: nat | 4096 * p <= a < 4096 * p + 4096 ::
              a in ViewOf(pt, mem) && ViewOf(pt, mem)[a] == mem[pt[p].frame][a - 4096 * p]
  {
    forall a: nat | 4096 * p <= a < 4096 * p + 4096
      ensures a in ViewOf(pt, mem) && ViewOf(pt, mem)[a] == mem[pt[p].frame][a - 4096 * p]
    {
      assert a / 4096 == p && a % 4096 == a - 4096 * p;
    }
  }

  /** `v` shows `bytes` at `addr`. */
  ghost predicate Reads(v: View, addr: nat, bytes: seq<Byte>) {
    forall a: nat | addr <= a < addr + |bytes| :: a in v && v[a] == bytes[a - addr]
  }

  lemma ReadsNothing(v: View, addr: nat)
    ensures Reads(v, addr, [])
  {
  }

  lemma ReadsJoin(v: View, addr: nat, front: seq<Byte>, back: seq<Byte>)
    requires Reads(v, addr, front) && Reads(v, addr + |front|, back)
    ensures Reads(v, addr, front + back)
  {
  }

  // ---------------------------------------------------------------------------------------
  // Overlays compose
  // ---------------------------------------------------------------------------------------

  /** Writing the front of a buffer and then the rest behind it writes the buffer. */
  lemma OverlayJoin(v: View, addr: nat, front: seq<Byte>, back: seq<Byte>)
    ensures Overlay(Overlay(v, addr, front), addr + |front|, back) == Overlay(v, addr, front + back)
  {
  }

  lemma OverlayEmpty(v: View, addr: nat)
    ensures Overlay(v, addr, []) == v
  {
  }
}
