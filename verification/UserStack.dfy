/** The initial stack of a user program: argument and environment strings, and the pointer table of
    section 3.4.1 of the System V AMD64 psABI, with a decoder that reads the table back. */
module UserStack {
  import opened Common
  import opened LittleEndian

  const STACK_SIZE: nat := 0x4000
  const STACK_GAP: nat := 0x2_0000
  const WORD_LIMIT: nat := 0x1_0000_0000_0000_0000

  // ---- what the stack should hold ----

  /** The strings, each with its terminator, in ascending addresses. */
  function Strs(ss: seq<seq<Byte>>): seq<Byte> {
    if ss == [] then [] else ss[0] + [0] + Strs(ss[1..])
  }

  /** Where string `k` starts when the strings end at address `end`. */
  function Addr(ss: seq<seq<Byte>>, k: nat, end: int): int
    requires k <= |ss|
  {
    end - |Strs(ss[k..])|
  }

  function Ptrs(ss: seq<seq<Byte>>, end: int): (r: seq<int>)
    ensures |r| == |ss|
  {
    seq(|ss|, k requires 0 <= k < |ss| => Addr(ss, k, end))
  }

  /** The pointer table from the stack pointer up. */
  function Table(argv: seq<seq<Byte>>, envp: seq<seq<Byte>>, top: int): (r: seq<int>)
    ensures |r| == |argv| + |envp| + 5
  {
    Words(|argv|, Ptrs(argv, top - |Strs(envp)|), Ptrs(envp, top))
  }

  function Words(argc: nat, args: seq<int>, envs: seq<int>): (r: seq<int>)
    ensures |r| == |args| + |envs| + 5
  {
    [argc] + args + [0] + envs + [0, 0, 0]
  }

  predicate AllWords(ws: seq<int>) { forall i | 0 <= i < |ws| :: 0 <= ws[i] < WORD_LIMIT }

  function WordBytes(ws: seq<int>): (r: seq<Byte>)
    requires AllWords(ws)
    ensures |r| == 8 * |ws|
  {
    if ws == [] then [] else Encode(ws[0], 8) + WordBytes(ws[1..])
  }

  /** The stack from the stack pointer to its top; `pad` is whatever alignment skipped. */
  function Image(argv: seq<seq<Byte>>, envp: seq<seq<Byte>>, top: int, pad: seq<Byte>): seq<Byte>
    requires AllWords(Table(argv, envp, top))
  {
    WordBytes(Table(argv, envp, top)) + (pad + (Strs(argv) + Strs(envp)))
  }

  // ---- a reader of the stack ----

  /** The word at offset `i`, as the program would load it. */
  function WordAt(mem: seq<Byte>, i: nat): nat
    requires i + 8 <= |mem|
  {
    Decode(mem[i..i + 8])
  }

  /** The words from offset `i` up to the first null word. */
  function PointersAt(mem: seq<Byte>, i: nat): seq<nat>
    decreases |mem| - i
  {
    if i + 8 > |mem| || WordAt(mem, i) == 0 then [] else [WordAt(mem, i)] + PointersAt(mem, i + 8)
  }

  /** The bytes from offset `i` up to the first null byte. */
  function StringAt(mem: seq<Byte>, i: int): seq<Byte>
    decreases |mem| - i
  {
    if !(0 <= i < |mem|) || mem[i] == 0 then [] else [mem[i]] + StringAt(mem, i + 1)
  }

  function StringsAt(mem: seq<Byte>, sp: nat, ptrs: seq<nat>): (r: seq<seq<Byte>>)
    ensures |r| == |ptrs|
  {
    seq(|ptrs|, k requires 0 <= k < |ptrs| => StringAt(mem, ptrs[k] - sp))
  }

  datatype Startup = Startup(argc: nat, argv: seq<seq<Byte>>, envp: seq<seq<Byte>>, aux: Option<(nat, nat)>)

  /** What a program started with stack pointer `sp` finds in `mem`, the memory from `sp` up. */
  function ReadStartup(mem: seq<Byte>, sp: nat): Startup
    requires |mem| >= 8
  {
    var args := PointersAt(mem, 8);
    var envAt := 8 + 8 * (|args| + 1);
    var envs := PointersAt(mem, envAt);
    var auxAt := envAt + 8 * (|envs| + 1);
    Startup(WordAt(mem, 0), StringsAt(mem, sp, args), StringsAt(mem, sp, envs),
            if auxAt + 16 <= |mem| then Some((WordAt(mem, auxAt), WordAt(mem, auxAt + 8))) else None)
  }

  /** A string as C sees it: up to its first null byte. */
  function Cut(s: seq<Byte>): seq<Byte> {
    if s == [] || s[0] == 0 then [] else [s[0]] + Cut(s[1..])
  }

  function CutAll(ss: seq<seq<Byte>>): (r: seq<seq<Byte>>)
    ensures |r| == |ss|
  {
    seq(|ss|, k requires 0 <= k < |ss| => Cut(ss[k]))
  }

  // ---- the reader recovers what was laid out ----

  lemma {:induction false} WordIsWord(ws: seq<int>, tail: seq<Byte>, k: nat)
    requires AllWords(ws) && k < |ws|
    ensures WordAt(WordBytes(ws) + tail, 8 * k) == ws[k]
  {
    var mem := WordBytes(ws) + tail;
    if k == 0 {
      assert mem[..8] == Encode(ws[0], 8);
      Limits();
      DecodeEncode(ws[0], 8);
    } else {
      WordIsWord(ws[1..], tail, k - 1);
      assert (WordBytes(ws[1..]) + tail)[8 * (k - 1)..8 * (k - 1) + 8] == mem[8 * k..8 * k + 8];
    }
  }

  /** From word `k` on the reader collects the words up to the null word at `n`. */
  lemma {:induction false} PointersAre(ws: seq<int>, tail: seq<Byte>, k: nat, n: nat)
    requires AllWords(ws) && k <= n < |ws| && ws[n] == 0 && forall i | k <= i < n :: ws[i] != 0
    ensures PointersAt(WordBytes(ws) + tail, 8 * k) == ws[k..n]
    decreases n - k
  {
    WordIsWord(ws, tail, k);
    if k < n {
      PointersAre(ws, tail, k + 1, n);
      assert ws[k..n] == [ws[k]] + ws[k + 1..n];
    }
  }

  lemma {:induction false} StringIsCut(s: seq<Byte>, mem: seq<Byte>, i: nat)
    requires i + |s| < |mem| && mem[i..i + |s|] == s && mem[i + |s|] == 0
    ensures StringAt(mem, i) == Cut(s)
  {
    if s != [] {
      assert mem[i] == s[0];
      if s[0] != 0 {
        assert mem[i + 1..i + 1 + |s[1..]|] == s[1..];
        StringIsCut(s[1..], mem, i + 1);
      }
    }
  }

  lemma {:induction false} CutIsSame(s: seq<Byte>)
    ensures Cut(s) == s <==> 0 !in s
  {
    if s != [] {
      CutIsSame(s[1..]);
      assert s == [s[0]] + s[1..];
    }
  }

  /** String `k` starts where its pointer says, whatever lies around the strings. */
  lemma {:induction false} StringPlaced(ss: seq<seq<Byte>>, k: nat)
    requires k < |ss|
    ensures |Strs(ss[k..])| <= |Strs(ss)|
    ensures var at := |Strs(ss)| - |Strs(ss[k..])|;
            at + |ss[k]| < |Strs(ss)| && Strs(ss)[at..at + |ss[k]|] == ss[k] && Strs(ss)[at + |ss[k]|] == 0
  {
    if k == 0 {
      assert ss[0..] == ss;
    } else {
      StringPlaced(ss[1..], k - 1);
      assert ss[1..][k - 1..] == ss[k..];
      var rest := Strs(ss[1..]);
      var at := |rest| - |Strs(ss[k..])|;
      assert Strs(ss)[|ss[0]| + 1 + at..|ss[0]| + 1 + at + |ss[k]|] == rest[at..at + |ss[k]|];
    }
  }

  lemma StringRead(strs: seq<Byte>, before: seq<Byte>, after: seq<Byte>, s: seq<Byte>, at: nat)
    requires at + |s| < |strs| && strs[at..at + |s|] == s && strs[at + |s|] == 0
    ensures StringAt(before + strs + after, |before| + at) == Cut(s)
  {
    hide StringAt, Cut;
    var mem := before + strs + after;
    assert mem[|before| + at..|before| + at + |s|] == strs[at..at + |s|];
    StringIsCut(s, mem, |before| + at);
  }

  /** The strings are read back from anywhere in memory. */
  lemma StringsRead(ss: seq<seq<Byte>>, before: seq<Byte>, after: seq<Byte>, sp: nat, end: nat, ptrs: seq<nat>)
    requires end == sp + |before| + |Strs(ss)| && ptrs == Ptrs(ss, end)
    ensures StringsAt(before + Strs(ss) + after, sp, ptrs) == CutAll(ss)
  {
    hide Strs, StringAt, Cut;
    forall k | 0 <= k < |ss| ensures StringAt(before + Strs(ss) + after, ptrs[k] - sp) == Cut(ss[k]) {
      StringPlaced(ss, k);
      StringRead(Strs(ss), before, after, ss[k], |Strs(ss)| - |Strs(ss[k..])|);
    }
  }

  lemma {:induction false} StrsCount(ss: seq<seq<Byte>>)
    ensures |ss| <= |Strs(ss)|
  {
    if ss != [] {
      StrsCount(ss[1..]);
    }
  }

  lemma PtrsInRange(ss: seq<seq<Byte>>, end: nat)
    requires |Strs(ss)| < end
    ensures forall p | p in Ptrs(ss, end) :: 0 < p <= end
    ensures forall k | 0 <= k < |ss| :: 0 < Ptrs(ss, end)[k] <= end
  {
    forall k | 0 <= k < |ss| ensures 0 < Ptrs(ss, end)[k] <= end {
      StringPlaced(ss, k);
    }
  }

  lemma TableWords(argv: seq<seq<Byte>>, envp: seq<seq<Byte>>, top: nat)
    requires |Strs(argv)| + |Strs(envp)| < top < WORD_LIMIT
    ensures AllWords(Table(argv, envp, top))
  {
    StrsCount(argv);
    PtrsInRange(argv, top - |Strs(envp)|);
    PtrsInRange(envp, top);
  }

  /** The pointer table reads back word by word. */
  lemma TableRead(argc: nat, args: seq<int>, envs: seq<int>, tail: seq<Byte>)
    requires AllWords(Words(argc, args, envs))
    requires (forall i | 0 <= i < |args| :: args[i] != 0) && forall i | 0 <= i < |envs| :: envs[i] != 0
    ensures var mem := WordBytes(Words(argc, args, envs)) + tail; var n, m := |args|, |envs|;
            && PointersAt(mem, 8) == args && PointersAt(mem, 8 * (n + 2)) == envs
            && WordAt(mem, 0) == argc && WordAt(mem, 8 * (n + m + 3)) == 0 && WordAt(mem, 8 * (n + m + 4)) == 0
  {
    hide WordBytes, PointersAt, WordAt, AllWords;
    var ws := Words(argc, args, envs);
    var n, m := |args|, |envs|;
    assert ws[1..n + 1] == args;
    PointersFrom(ws, tail, 1, args);
    assert ws[n + 2..n + m + 2] == envs;
    PointersFrom(ws, tail, n + 2, envs);
    WordIsWord(ws, tail, 0);
    WordIsWord(ws, tail, n + m + 3);
    WordIsWord(ws, tail, n + m + 4);
  }

  /** A program started on the image finds its arguments and environment, in order, each cut at its
      first null byte, and an empty auxiliary vector. */
  lemma ReadsBack(argv: seq<seq<Byte>>, envp: seq<seq<Byte>>, top: nat, sp: nat, pad: seq<Byte>)
    requires |Strs(argv)| + |Strs(envp)| < top < WORD_LIMIT && AllWords(Table(argv, envp, top))
    requires sp + |Image(argv, envp, top, pad)| == top
    ensures ReadStartup(Image(argv, envp, top, pad), sp) == Startup(|argv|, CutAll(argv), CutAll(envp), Some((0, 0)))
  {
    hide Strs, Ptrs, WordBytes, PointersAt, WordAt, AllWords, Words, StringsAt, CutAll;
    var table := WordBytes(Table(argv, envp, top));
    var mem := Image(argv, envp, top, pad);
    PtrsInRange(argv, top - |Strs(envp)|);
    PtrsInRange(envp, top);
    TableRead(|argv|, Ptrs(argv, top - |Strs(envp)|), Ptrs(envp, top), pad + (Strs(argv) + Strs(envp)));
    assert mem == (table + pad) + Strs(argv) + Strs(envp);
    StringsRead(argv, table + pad, Strs(envp), sp, top - |Strs(envp)|, PointersAt(mem, 8));
    assert mem == (table + pad + Strs(argv)) + Strs(envp) + [];
    StringsRead(envp, table + pad + Strs(argv), [], sp, top, PointersAt(mem, 8 * (|argv| + 2)));
  }

  lemma PointersFrom(ws: seq<int>, tail: seq<Byte>, k: nat, ptrs: seq<int>)
    requires AllWords(ws) && k + |ptrs| < |ws| && ws[k..k + |ptrs|] == ptrs && ws[k + |ptrs|] == 0
    requires forall i | 0 <= i < |ptrs| :: ptrs[i] != 0
    ensures PointersAt(WordBytes(ws) + tail, 8 * k) == ptrs
  {
    forall i | k <= i < k + |ptrs| ensures ws[i] != 0 {
      assert ws[i] == ptrs[i - k];
    }
    PointersAre(ws, tail, k, k + |ptrs|);
  }

  predicate NulFree(ss: seq<seq<Byte>>) { forall s | s in ss :: 0 !in s }

  lemma CutAllIsSame(ss: seq<seq<Byte>>)
    ensures CutAll(ss) == ss <==> NulFree(ss)
  {
    forall k | 0 <= k < |ss| ensures CutAll(ss)[k] == ss[k] <==> 0 !in ss[k] {
      CutIsSame(ss[k]);
    }
    if NulFree(ss) {
      forall k | 0 <= k < |ss| ensures CutAll(ss)[k] == ss[k] {
        assert ss[k] in ss;
      }
    } else {
      var s :| s in ss && 0 in s;
      var k :| 0 <= k < |ss| && ss[k] == s;
      assert CutAll(ss)[k] != ss[k];
    }
  }

  /** The program gets exactly the given strings if and only if none holds a null byte. */
  lemma ReadsBackExactly(argv: seq<seq<Byte>>, envp: seq<seq<Byte>>, top: nat, sp: nat, pad: seq<Byte>)
    requires |Strs(argv)| + |Strs(envp)| < top < WORD_LIMIT && AllWords(Table(argv, envp, top))
    requires sp + |Image(argv, envp, top, pad)| == top
    ensures ReadStartup(Image(argv, envp, top, pad), sp) == Startup(|argv|, argv, envp, Some((0, 0)))
       <==> NulFree(argv) && NulFree(envp)
  {
    ReadsBack(argv, envp, top, sp, pad);
    CutAllIsSame(argv);
    CutAllIsSame(envp);
  }

  /** An argument with a null byte inside arrives cut. */
  lemma NulCutsArgument(top: nat, sp: nat, pad: seq<Byte>)
    requires |Strs([[65, 0, 66]])| + |Strs([])| < top < WORD_LIMIT && AllWords(Table([[65, 0, 66]], [], top))
    requires sp + |Image([[65, 0, 66]], [], top, pad)| == top
    ensures ReadStartup(Image([[65, 0, 66]], [], top, pad), sp).argv == [[65]]
  {
    hide Strs, Image, Table, AllWords, ReadStartup;
    var arg := [65, 0, 66];
    ReadsBack([arg], [], top, sp, pad);
    assert arg[1..] == [0, 66] && Cut([0, 66]) == [];
    assert Cut(arg) == [65];
  }
}
