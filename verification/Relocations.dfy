/** Relative relocations as transformations of the virtual image. */
module Relocations {
  import opened Common
  import opened LoaderMemory
  import LittleEndian

  const R_AMD64_RELATIVE: nat := 8

  datatype Rela = Rela(offset: nat, info: nat, addend: nat)

  function ParseRela(b: seq<Byte>): Rela
    requires |b| == 24
  {
    Rela(LittleEndian.Decode(b[..8]), LittleEndian.Decode(b[8..16]), LittleEndian.Decode(b[16..24]))
  }

  /** The `n` bytes that `v` shows at `addr`. */
  ghost function BytesAt(v: View, addr: int, n: nat): (b: seq<Byte>)
    ensures |b| == n
  {
    seq(n, i => if addr + i >= 0 && addr + i in v then v[addr + i] else 0)
  }

  lemma ReadsAre(v: View, addr: nat, bytes: seq<Byte>)
    requires Reads(v, addr, bytes)
    ensures BytesAt(v, addr, |bytes|) == bytes
  {
  }

  ghost function RelaAt(v: View, addr: int): Rela { ParseRela(BytesAt(v, addr, 24)) }

  /** Destination and value both fit in 64 bits. */
  predicate Representable(offset: int, r: Rela) {
    0 <= offset + r.offset < 0x1_0000_0000_0000_0000 && 0 <= offset + r.addend < 0x1_0000_0000_0000_0000
  }

  /** One relative relocation: an overlay of 8 bytes. */
  ghost function Patched(v: View, offset: int, r: Rela): View {
    if Representable(offset, r) then Overlay(v, offset + r.offset, LittleEndian.Encode(offset + r.addend, 8)) else v
  }

  /** The first `n` entries of the table at `table` applied in order, each read from the image
      that the ones before it left. */
  ghost function Relocated(v: View, offset: int, table: int, n: nat): View {
    if n == 0 then v
    else
      var u := Relocated(v, offset, table, n - 1);
      Patched(u, offset, RelaAt(u, table + 24 * (n - 1)))
  }

  /** A list of relocations known beforehand, applied in order. */
  ghost function PatchedAll(v: View, offset: int, relas: seq<Rela>): View {
    if relas == [] then v
    else Patched(PatchedAll(v, offset, relas[..|relas| - 1]), offset, relas[|relas| - 1])
  }

  ghost function RelaList(v: View, table: int, n: nat): (r: seq<Rela>)
    ensures |r| == n
    ensures forall k | 0 <= k < n :: r[k] == RelaAt(v, table + 24 * k)
  {
    if n == 0 then [] else RelaList(v, table, n - 1) + [RelaAt(v, table + 24 * (n - 1))]
  }

  /** The relocation writes no byte of [lo, hi). */
  predicate Misses(offset: int, r: Rela, lo: int, hi: int) {
    offset + r.offset + 8 <= lo || hi <= offset + r.offset
  }

  ghost predicate SameOn(u: View, v: View, lo: int, hi: int) {
    forall a: nat | lo <= a < hi :: (a in u <==> a in v) && (a in v ==> u[a] == v[a])
  }

  lemma SameOnTrans(u: View, v: View, w: View, lo: int, hi: int)
    ensures SameOn(u, u, lo, hi)
    ensures SameOn(u, v, lo, hi) && SameOn(v, w, lo, hi) ==> SameOn(u, w, lo, hi)
  {
  }

  lemma PatchedElsewhere(v: View, offset: int, r: Rela, lo: int, hi: int)
    requires Misses(offset, r, lo, hi)
    ensures SameOn(Patched(v, offset, r), v, lo, hi)
  {
  }

  lemma SameRela(u: View, v: View, addr: int, lo: int, hi: int)
    requires SameOn(u, v, lo, hi) && lo <= addr && addr + 24 <= hi
    ensures RelaAt(u, addr) == RelaAt(v, addr)
  {
    assert BytesAt(u, addr, 24) == BytesAt(v, addr, 24);
  }

  /** A table that its own relocations do not touch: applying it entry by entry is applying,
      in order, the list it held at the start, one 8-byte overlay each. */
  lemma {:induction false} RelocatedIsList(v: View, offset: int, table: int, n: nat, size: nat)
    requires n <= size
    requires forall k | 0 <= k < n :: Misses(offset, RelaList(v, table, n)[k], table, table + 24 * size)
    ensures Relocated(v, offset, table, n) == PatchedAll(v, offset, RelaList(v, table, n))
    ensures SameOn(Relocated(v, offset, table, n), v, table, table + 24 * size)
  {
    hide Patched, RelaAt, Misses, SameOn;
    if n == 0 {
      SameOnTrans(v, v, v, table, table + 24 * size);
    } else {
      var all := RelaList(v, table, n);
      assert all[..n - 1] == RelaList(v, table, n - 1);
      RelocatedIsList(v, offset, table, n - 1, size);
      var u := Relocated(v, offset, table, n - 1);
      SameRela(u, v, table + 24 * (n - 1), table, table + 24 * size);
      PatchedElsewhere(u, offset, all[n - 1], table, table + 24 * size);
      SameOnTrans(Patched(u, offset, all[n - 1]), u, v, table, table + 24 * size);
    }
  }

  // ---------------------------------------------------------------------------------------
  // In bytes
  // ---------------------------------------------------------------------------------------

  const WORD_LIMIT: nat := 0x1_0000_0000_0000_0000

  /** `v` shows an entry of the table at `addr`, laid out as the Elf64_Rela of the System V ABI: where
      to store, what kind of relocation, and what to add to the base. */
  ghost predicate HoldsEntry(v: View, addr: int, r: Rela) {
    && 0 <= addr && r.offset < WORD_LIMIT && r.info < WORD_LIMIT && r.addend < WORD_LIMIT
    && Reads(v, addr, LittleEndian.Encode(r.offset, 8))
    && Reads(v, addr + 8, LittleEndian.Encode(r.info, 8))
    && Reads(v, addr + 16, LittleEndian.Encode(r.addend, 8))
  }

  lemma EntryRead(v: View, addr: int, r: Rela)
    requires HoldsEntry(v, addr, r)
    ensures RelaAt(v, addr) == r
  {
    hide BytesAt;
    var a, b, c := LittleEndian.Encode(r.offset, 8), LittleEndian.Encode(r.info, 8), LittleEndian.Encode(r.addend, 8);
    assert Reads(v, addr, a + b + c) by {
      ReadsJoin(v, addr, a, b);
      ReadsJoin(v, addr, a + b, c);
    }
    ReadsAre(v, addr, a + b + c);
    assert (a + b + c)[..8] == a && (a + b + c)[8..16] == b && (a + b + c)[16..24] == c;
    LittleEndian.Limits();
    LittleEndian.DecodeEncode(r.offset, 8);
    LittleEndian.DecodeEncode(r.info, 8);
    LittleEndian.DecodeEncode(r.addend, 8);
  }

  /** `w` is `u` with the number `x` in the eight bytes at `at`, lowest byte first. */
  ghost predicate WordStored(u: View, w: View, at: int, x: nat) {
    && (forall a: nat | at <= a < at + 8 :: a in w && w[a] == LittleEndian.Digit(x, a - at))
    && (forall a: nat | !(at <= a < at + 8) :: SameAt(u, w, a))
  }

  ghost predicate SameAt(u: View, w: View, a: nat) { (a in w <==> a in u) && (a in u ==> w[a] == u[a]) }

  /** An entry of relative type whose turn has come stores base plus addend at base plus offset. */
  lemma EntryApplied(v: View, offset: int, table: int, idx: nat, r: Rela)
    requires HoldsEntry(Relocated(v, offset, table, idx), table + 24 * idx, r) && r.info == 8
    requires 0 <= offset + r.offset < WORD_LIMIT && 0 <= offset + r.addend < WORD_LIMIT
    ensures WordStored(Relocated(v, offset, table, idx), Relocated(v, offset, table, idx + 1),
                       offset + r.offset, offset + r.addend)
  {
    hide HoldsEntry, WordStored, RelaAt, LittleEndian.Encode, Overlay;
    var u := Relocated(v, offset, table, idx);
    EntryRead(u, table + 24 * idx, r);
    StoreIs(u, offset + r.offset, offset + r.addend);
  }

  lemma StoreIs(u: View, at: nat, x: nat)
    ensures WordStored(u, Overlay(u, at, LittleEndian.Encode(x, 8)), at, x)
  {
    hide LittleEndian.Encode, LittleEndian.Digit;
    forall i: nat | i < 8 ensures LittleEndian.Encode(x, 8)[i] == LittleEndian.Digit(x, i) {
      LittleEndian.EncodeAt(x, 8, i);
    }
  }

  /** A whole table of relative relocations, none of which writes to the table. */
  ghost predicate HoldsTable(v: View, offset: int, table: int, rs: seq<Rela>) {
    forall i | 0 <= i < |rs| ::
      && HoldsEntry(v, table + 24 * i, rs[i]) && rs[i].info == 8
      && (offset + rs[i].offset + 8 <= table || table + 24 * |rs| <= offset + rs[i].offset)
  }

  /** Relocation `i` writes address `a`. */
  ghost predicate Writes(offset: int, rs: seq<Rela>, i: int, a: nat) {
    0 <= i < |rs| && offset + rs[i].offset <= a < offset + rs[i].offset + 8
  }

  /** What relocation `i` stores at address `a`. */
  ghost function Stored(offset: int, rs: seq<Rela>, i: int, a: nat): Byte
    requires Writes(offset, rs, i, a)
  {
    LittleEndian.Digit(if offset + rs[i].addend < 0 then 0 else offset + rs[i].addend, a - offset - rs[i].offset)
  }

  /** No relocation from number `i` up to number `n` writes address `a`. */
  ghost predicate NoneWrites(offset: int, rs: seq<Rela>, i: int, n: int, a: nat) {
    forall j | i <= j < n :: !Writes(offset, rs, j, a)
  }

  /** After the first `n` relocations each address holds what the last one that writes it stores
      there, or what it held before. */
  ghost predicate AllStored(u: View, w: View, offset: int, rs: seq<Rela>, n: nat) {
    && (forall i, a: nat | 0 <= i < n && Writes(offset, rs, i, a) && NoneWrites(offset, rs, i + 1, n, a) ::
          a in w && w[a] == Stored(offset, rs, i, a))
    && (forall a: nat | NoneWrites(offset, rs, 0, n, a) :: SameAt(u, w, a))
  }

  lemma {:induction false} TableApplied(v: View, offset: int, table: int, rs: seq<Rela>, n: nat)
    requires HoldsTable(v, offset, table, rs) && n <= |rs|
    requires forall i | 0 <= i < n ::
               0 <= offset + rs[i].offset < WORD_LIMIT && 0 <= offset + rs[i].addend < WORD_LIMIT
    ensures AllStored(v, Relocated(v, offset, table, n), offset, rs, n)
  {
    hide Relocated, AllStored, WordStored, HoldsEntry;
    if n == 0 {
      NothingStored(v, offset, table, rs);
    } else {
      TableApplied(v, offset, table, rs, n - 1);
      EntryUnchanged(v, offset, table, rs, n - 1);
      EntryApplied(v, offset, table, n - 1, rs[n - 1]);
      OneMoreStored(v, Relocated(v, offset, table, n - 1), Relocated(v, offset, table, n), offset, rs, n);
    }
  }

  lemma NothingStored(v: View, offset: int, table: int, rs: seq<Rela>)
    ensures AllStored(v, Relocated(v, offset, table, 0), offset, rs, 0)
  {
  }

  lemma OneMoreStored(v: View, u: View, w: View, offset: int, rs: seq<Rela>, n: nat)
    requires 0 < n <= |rs| && AllStored(v, u, offset, rs, n - 1)
    requires 0 <= offset + rs[n - 1].addend && WordStored(u, w, offset + rs[n - 1].offset, offset + rs[n - 1].addend)
    ensures AllStored(v, w, offset, rs, n)
  {
    hide WordStored, Stored, Writes, NoneWrites;
    forall i, a: nat | 0 <= i < n && Writes(offset, rs, i, a) && NoneWrites(offset, rs, i + 1, n, a)
      ensures a in w && w[a] == Stored(offset, rs, i, a)
    {
      LastOrBefore(u, w, offset, rs, i, n, a);
    }
    forall a: nat | NoneWrites(offset, rs, 0, n, a) ensures SameAt(v, w, a) {
      NotWritten(u, w, offset, rs, 0, n, a);
      assert SameAt(v, u, a);
    }
  }

  /** What an address holds comes from the relocation just applied, or is as it was before it. */
  lemma LastOrBefore(u: View, w: View, offset: int, rs: seq<Rela>, i: int, n: nat, a: nat)
    requires 0 <= i < n <= |rs| && Writes(offset, rs, i, a) && NoneWrites(offset, rs, i + 1, n, a)
    requires 0 <= offset + rs[n - 1].addend && WordStored(u, w, offset + rs[n - 1].offset, offset + rs[n - 1].addend)
    ensures if i == n - 1 then a in w && w[a] == Stored(offset, rs, i, a)
            else NoneWrites(offset, rs, i + 1, n - 1, a) && SameAt(u, w, a)
  {
    if i == n - 1 {
      hide LittleEndian.Digit;
    } else {
      NotWritten(u, w, offset, rs, i + 1, n, a);
    }
  }

  lemma NotWritten(u: View, w: View, offset: int, rs: seq<Rela>, i: int, n: nat, a: nat)
    requires 0 <= i < n <= |rs| && NoneWrites(offset, rs, i, n, a)
    requires 0 <= offset + rs[n - 1].addend && WordStored(u, w, offset + rs[n - 1].offset, offset + rs[n - 1].addend)
    ensures NoneWrites(offset, rs, i, n - 1, a) && SameAt(u, w, a)
  {
    hide LittleEndian.Digit;
    assert !Writes(offset, rs, n - 1, a);
  }

  lemma EntryKept(u: View, v: View, addr: int, lo: int, hi: int, r: Rela)
    requires SameOn(u, v, lo, hi) && lo <= addr && addr + 24 <= hi && HoldsEntry(v, addr, r)
    ensures HoldsEntry(u, addr, r)
  {
    hide LittleEndian.Encode;
  }

  /** What the relocations miss is still there when its turn comes. */
  lemma EntryUnchanged(v: View, offset: int, table: int, rs: seq<Rela>, idx: nat)
    requires HoldsTable(v, offset, table, rs) && idx < |rs|
    ensures HoldsEntry(Relocated(v, offset, table, idx), table + 24 * idx, rs[idx])
    ensures RelaAt(Relocated(v, offset, table, idx), table + 24 * idx) == rs[idx]
  {
    hide Relocated, HoldsEntry, SameOn, RelaAt, PatchedAll;
    var n := |rs|;
    forall k | 0 <= k < idx ensures Misses(offset, RelaList(v, table, idx)[k], table, table + 24 * n) {
      EntryRead(v, table + 24 * k, rs[k]);
    }
    RelocatedIsList(v, offset, table, idx, n);
    var u := Relocated(v, offset, table, idx);
    EntryKept(u, v, table + 24 * idx, table, table + 24 * n, rs[idx]);
    EntryRead(u, table + 24 * idx, rs[idx]);
  }
}
