/** Reading a GPT header (section 5.3.2 of the UEFI Specification), and what its checksum catches. */
module GptHeader {
  import opened Common
  import opened Crc32
  import LittleEndian

  const SIGNATURE: seq<bv8> := [0x45, 0x46, 0x49, 0x20, 0x50, 0x41, 0x52, 0x54]   // "EFI PART"

  /** A little-endian number. */
  function Number(b: seq<bv8>): nat { LittleEndian.Decode(seq(|b|, i requires 0 <= i < |b| => b[i] as int)) }

  datatype Header = Header(
    signature: seq<bv8>, rev: nat, headerSize: nat, crc32: bv32, reserved: nat, currentLba: nat, backupLba: nat,
    firstUsableLba: nat, lastUsableLba: nat, diskGuid: seq<bv8>, partitionEntryLba: nat,
    numPartitionEntries: nat, sizeOfPartitionEntry: nat, partitionEntryArrayCrc32: nat)

  function HeaderSize(buf: seq<bv8>): nat
    requires |buf| >= 92
  {
    Number(buf[12..16])
  }

  /** The header with its checksum field cleared. */
  function Cleared(buf: seq<bv8>): (r: seq<bv8>)
    requires |buf| >= 20
    ensures |r| == |buf|
  {
    buf[..16] + [0, 0, 0, 0] + buf[20..]
  }

  /** What the reader should accept: the signature, a size within bounds and a matching checksum. */
  predicate Accepted(buf: seq<bv8>) {
    && |buf| >= 92 && buf[..8] == SIGNATURE
    && 92 <= HeaderSize(buf) <= |buf|
    && Crc(Cleared(buf[..HeaderSize(buf)])) == Word(buf[16..20])
  }

  function Fields(buf: seq<bv8>): Header
    requires |buf| >= 92
  {
    Header(buf[..8], Number(buf[8..12]), Number(buf[12..16]), Word(buf[16..20]), Number(buf[20..24]),
           Number(buf[24..32]), Number(buf[32..40]), Number(buf[40..48]), Number(buf[48..56]), buf[56..72],
           Number(buf[72..80]), Number(buf[80..84]), Number(buf[84..88]), Number(buf[88..92]))
  }

  /** The `n` bytes at `at` are those of the number `v`, lowest first. */
  ghost predicate Holds(b: seq<bv8>, at: nat, n: nat, v: nat)
    requires at + n <= |b|
  {
    v < LittleEndian.Pow256(n) && forall i | 0 <= i < n :: b[at + i] as int == LittleEndian.Digit(v, i)
  }

  /** The four bytes at `at` are those of the word `c`, lowest first. */
  predicate HoldsWord(b: seq<bv8>, at: nat, c: bv32)
    requires at + 4 <= |b|
  {
    && Widen(b[at]) == LowByte(c) && Widen(b[at + 1]) == LowByte(c >> 8)
    && Widen(b[at + 2]) == LowByte(c >> 16) && Widen(b[at + 3]) == LowByte(c >> 24)
  }

  /** The layout of the GPT header in section 5.3.2 of the UEFI Specification. */
  ghost predicate LaidOut(b: seq<bv8>, h: Header)
    requires |b| >= 92
  {
    && h.signature == b[0..8] && Holds(b, 8, 4, h.rev) && Holds(b, 12, 4, h.headerSize) && HoldsWord(b, 16, h.crc32)
    && Holds(b, 20, 4, h.reserved) && Holds(b, 24, 8, h.currentLba) && Holds(b, 32, 8, h.backupLba)
    && Holds(b, 40, 8, h.firstUsableLba) && Holds(b, 48, 8, h.lastUsableLba) && h.diskGuid == b[56..72]
    && Holds(b, 72, 8, h.partitionEntryLba) && Holds(b, 80, 4, h.numPartitionEntries)
    && Holds(b, 84, 4, h.sizeOfPartitionEntry) && Holds(b, 88, 4, h.partitionEntryArrayCrc32)
  }

  lemma NumberHeld(b: seq<bv8>, at: nat, n: nat, v: nat)
    requires at + n <= |b|
    ensures Number(b[at..at + n]) == v <==> Holds(b, at, n, v)
  {
    var field := b[at..at + n];
    var s: seq<Byte> := seq(n, i requires 0 <= i < n => field[i] as int);
    assert Number(field) == LittleEndian.Decode(s);
    hide Number, LittleEndian.Encode, LittleEndian.Decode, LittleEndian.Digit, LittleEndian.Pow256;
    forall i: nat | i < n ensures LittleEndian.Encode(v, n)[i] == LittleEndian.Digit(v, i) && s[i] == b[at + i] as int {
      LittleEndian.EncodeAt(v, n, i);
    }
    LittleEndian.EncodeDecode(s);
    if Holds(b, at, n, v) {
      assert s == LittleEndian.Encode(v, n);
      LittleEndian.DecodeEncode(v, n);
    }
  }

  lemma WordHeld(b: seq<bv8>, at: nat, c: bv32)
    requires at + 4 <= |b|
    ensures Word(b[at..at + 4]) == c <==> HoldsWord(b, at, c)
  {
    hide Word, LowByte, Widen;
    assert b[at..at + 4] == [b[at], b[at + 1], b[at + 2], b[at + 3]];
    WordOfFour(b[at], b[at + 1], b[at + 2], b[at + 3], c);
  }

  /** Fields are read exactly where the layout has them. */
  lemma FieldsLaidOut(buf: seq<bv8>, h: Header)
    requires |buf| >= 92
    ensures Fields(buf) == h <==> LaidOut(buf, h)
  {
    hide Number, Word, Holds, HoldsWord;
    NumberHeld(buf, 8, 4, h.rev);
    NumberHeld(buf, 12, 4, h.headerSize);
    WordHeld(buf, 16, h.crc32);
    NumberHeld(buf, 20, 4, h.reserved);
    NumberHeld(buf, 24, 8, h.currentLba);
    NumberHeld(buf, 32, 8, h.backupLba);
    NumberHeld(buf, 40, 8, h.firstUsableLba);
    NumberHeld(buf, 48, 8, h.lastUsableLba);
    NumberHeld(buf, 72, 8, h.partitionEntryLba);
    NumberHeld(buf, 80, 4, h.numPartitionEntries);
    NumberHeld(buf, 84, 4, h.sizeOfPartitionEntry);
    NumberHeld(buf, 88, 4, h.partitionEntryArrayCrc32);
    assert buf[..8] == buf[0..8];
  }

  /** Reads field after field, then checks the checksum over a copy with its field cleared. */
  method Deserialize(buf: seq<bv8>) returns (r: Option<Header>)
    ensures r == if Accepted(buf) then Some(Fields(buf)) else None
    ensures r.Some? ==> LaidOut(buf, r.value)
  {
    hide Number, Crc, Word, LaidOut;
    if |buf| < 92 {
      return None;
    }
    if buf[..8] != SIGNATURE {
      return None;
    }
    var offset := 0;
    var signature := buf[offset..offset + 8];
    offset := offset + 8;
    var rev := Number(buf[offset..offset + 4]);
    offset := offset + 4;
    var headerSize := Number(buf[offset..offset + 4]);
    offset := offset + 4;
    if headerSize < 92 || headerSize > |buf| {
      return None;
    }
    var storedCrc := Word(buf[offset..offset + 4]);
    offset := offset + 4;
    var reserved := Number(buf[offset..offset + 4]);
    offset := offset + 4;
    var currentLba := Number(buf[offset..offset + 8]);
    offset := offset + 8;
    var backupLba := Number(buf[offset..offset + 8]);
    offset := offset + 8;
    var firstUsableLba := Number(buf[offset..offset + 8]);
    offset := offset + 8;
    var lastUsableLba := Number(buf[offset..offset + 8]);
    offset := offset + 8;
    var diskGuid := buf[offset..offset + 16];
    offset := offset + 16;
    var partitionEntryLba := Number(buf[offset..offset + 8]);
    offset := offset + 8;
    var numPartitionEntries := Number(buf[offset..offset + 4]);
    offset := offset + 4;
    var sizeOfPartitionEntry := Number(buf[offset..offset + 4]);
    offset := offset + 4;
    var entriesCrc := Number(buf[offset..offset + 4]);

    var header := buf[..headerSize];
    header := header[16 := 0][17 := 0][18 := 0][19 := 0];
    assert header == Cleared(buf[..headerSize]);
    var computed := ComputeCrc(header);
    if computed != storedCrc {
      return None;
    }
    r := Some(Header(signature, rev, headerSize, storedCrc, reserved, currentLba, backupLba,
                     firstUsableLba, lastUsableLba, diskGuid, partitionEntryLba, numPartitionEntries,
                     sizeOfPartitionEntry, entriesCrc));
    FieldsLaidOut(buf, r.value);
  }

  /** `changed` is `buf` with `n` bytes from `i` on replaced. */
  predicate DiffersOnlyIn(buf: seq<bv8>, changed: seq<bv8>, i: nat, n: nat) {
    |buf| == |changed| && i + n <= |buf| && buf[..i] == changed[..i] && buf[i + n..] == changed[i + n..]
  }

  /** Four bytes in a row that avoid the size field and do not straddle the checksum field. */
  predicate Guarded(buf: seq<bv8>, i: nat, n: nat)
    requires |buf| >= 92
  {
    n <= 4 && (i + n <= 12 || (16 <= i && i + n <= 20) || (20 <= i && i + n <= HeaderSize(buf)))
  }

  lemma SameBytes(buf: seq<bv8>, changed: seq<bv8>, i: nat, n: nat)
    requires DiffersOnlyIn(buf, changed, i, n) && buf[i..i + n] == changed[i..i + n]
    ensures buf == changed
  {
    assert buf == buf[..i] + buf[i..i + n] + buf[i + n..];
    assert changed == changed[..i] + changed[i..i + n] + changed[i + n..];
  }

  /** Outside the checksum field a change shows in the bytes the checksum is taken over. */
  lemma ClearedChanged(buf: seq<bv8>, changed: seq<bv8>, i: nat, n: nat)
    requires |buf| >= 20 && DiffersOnlyIn(buf, changed, i, n) && (i + n <= 16 || 20 <= i)
    ensures var h := Cleared(buf);
            h == h[..i] + buf[i..i + n] + h[i + n..] && Cleared(changed) == h[..i] + changed[i..i + n] + h[i + n..]
  {
    var h, g := Cleared(buf), Cleared(changed);
    forall k | 0 <= k < |buf| && !(i <= k < i + n) ensures buf[k] == changed[k] {
      assert k < i ==> buf[k] == buf[..i][k];
      assert k >= i + n ==> buf[k] == buf[i + n..][k - i - n];
      assert k >= i + n ==> changed[k] == changed[i + n..][k - i - n];
    }
    assert forall k | 0 <= k < |h| :: h[k] == if 16 <= k < 20 then 0 else buf[k];
    assert forall k | 0 <= k < |g| :: g[k] == if 16 <= k < 20 then 0 else changed[k];
  }

  lemma InHeader(buf: seq<bv8>, changed: seq<bv8>, i: nat, n: nat, size: nat)
    requires DiffersOnlyIn(buf, changed, i, n) && i + n <= size <= |buf|
    ensures DiffersOnlyIn(buf[..size], changed[..size], i, n)
    ensures buf[..size][i..i + n] == buf[i..i + n] && changed[..size][i..i + n] == changed[i..i + n]
  {
    assert buf[..size][..i] == buf[..i] && changed[..size][..i] == changed[..i];
    assert buf[..size][i + n..] == buf[i + n..][..size - i - n];
    assert changed[..size][i + n..] == changed[i + n..][..size - i - n];
  }

  /** Two accepted headers that differ in at most four guarded bytes in a row are the same. */
  lemma BurstSame(buf: seq<bv8>, changed: seq<bv8>, i: nat, n: nat)
    requires Accepted(buf) && Accepted(changed) && Guarded(buf, i, n) && DiffersOnlyIn(buf, changed, i, n)
    ensures buf == changed
  {
    hide Number, Crc, Word, Cleared, SIGNATURE;
    UntouchedField(buf, changed, i, n, 12);
    var size := HeaderSize(buf);
    if 16 <= i && i + n <= 20 {
      InHeader(buf, changed, i, n, size);
      ClearedSame(buf[..size], changed[..size], i, n);
      WordInjective(buf[16..20], changed[16..20]);
      SliceOfField(buf, i, n);
      SliceOfField(changed, i, n);
    } else {
      UntouchedField(buf, changed, i, n, 16);
      InHeader(buf, changed, i, n, size);
      ClearedChanged(buf[..size], changed[..size], i, n);
      var h := Cleared(buf[..size]);
      BurstDetected(h[..i], buf[i..i + n], changed[i..i + n], h[i + n..]);
    }
    SameBytes(buf, changed, i, n);
  }

  lemma SliceOfField(b: seq<bv8>, i: nat, n: nat)
    requires 16 <= i && i + n <= 20 <= |b|
    ensures b[i..i + n] == b[16..20][i - 16..i - 16 + n]
  {
  }

  lemma ClearedSame(buf: seq<bv8>, changed: seq<bv8>, i: nat, n: nat)
    requires |buf| >= 20 && DiffersOnlyIn(buf, changed, i, n) && 16 <= i && i + n <= 20
    ensures Cleared(buf) == Cleared(changed)
  {
    assert buf[..16] == buf[..i][..16];
    assert changed[..16] == changed[..i][..16];
    assert buf[20..] == buf[i + n..][20 - i - n..];
    assert changed[20..] == changed[i + n..][20 - i - n..];
  }

  /** The four bytes at `f` lie outside the changed ones. */
  lemma UntouchedField(buf: seq<bv8>, changed: seq<bv8>, i: nat, n: nat, f: nat)
    requires DiffersOnlyIn(buf, changed, i, n) && f + 4 <= |buf| && (i + n <= f || f + 4 <= i)
    ensures buf[f..f + 4] == changed[f..f + 4]
  {
    if i + n <= f {
      assert buf[f..f + 4] == buf[i + n..][f - i - n..f + 4 - i - n];
      assert changed[f..f + 4] == changed[i + n..][f - i - n..f + 4 - i - n];
    } else {
      assert buf[f..f + 4] == buf[..i][f..f + 4];
      assert changed[f..f + 4] == changed[..i][f..f + 4];
    }
  }

  /** After a change to up to four guarded bytes in a row an accepted header is rejected. */
  lemma BurstRejected(buf: seq<bv8>, changed: seq<bv8>, i: nat, n: nat)
    requires Accepted(buf) && Guarded(buf, i, n) && DiffersOnlyIn(buf, changed, i, n) && changed != buf
    ensures !Accepted(changed)
  {
    hide Accepted, Guarded, DiffersOnlyIn;
    if Accepted(changed) {
      BurstSame(buf, changed, i, n);
    }
  }

  /** In particular no single byte of the header outside the size field can change unnoticed. */
  lemma ByteChangeRejected(buf: seq<bv8>, i: nat, x: bv8)
    requires Accepted(buf) && i < HeaderSize(buf) && !(12 <= i < 16) && buf[i] != x
    ensures !Accepted(buf[i := x])
  {
    BurstRejected(buf, buf[i := x], i, 1);
  }

  /** The bytes behind the header decide nothing. */
  lemma TailIgnored(buf: seq<bv8>, changed: seq<bv8>)
    requires Accepted(buf) && |changed| >= HeaderSize(buf) && changed[..HeaderSize(buf)] == buf[..HeaderSize(buf)]
    ensures Accepted(changed) && Fields(changed) == Fields(buf)
  {
    hide Number, Crc, Word;
    var size := HeaderSize(buf);
    forall a, b | 0 <= a <= b <= 92 ensures changed[a..b] == buf[a..b] {
      assert changed[a..b] == changed[..size][a..b] && buf[a..b] == buf[..size][a..b];
    }
    assert changed[..8] == changed[0..8];
    assert buf[..8] == buf[0..8];
  }
}
