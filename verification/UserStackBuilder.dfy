/** The construction of the initial user stack, by pushes into the mapped stack pages. */
module UserStackBuilder {
  import opened Common
  import opened LittleEndian
  import opened UserStack

  /** Where the stack pointer ends up: below the strings, aligned so that the table ends aligned. */
  function FinalSp(argv: seq<seq<Byte>>, envp: seq<seq<Byte>>, top: int): int {
    Below(top - |Strs(envp)| - |Strs(argv)|, |argv| + |envp|) - 8 * (|argv| + |envp| + 5)
  }

  /** Alignment below address `a` for a table with `pointers` string pointers. */
  function Below(a: int, pointers: nat): int {
    var aligned := a - a % 16;
    if (aligned - 8 * (pointers + 3)) % 16 != 0 then aligned - 8 else aligned
  }

  /** The stack pointer is 16-byte aligned although the table is two words longer than reckoned. */
  lemma FinalSpAligned(argv: seq<seq<Byte>>, envp: seq<seq<Byte>>, top: int)
    ensures FinalSp(argv, envp, top) % 16 == 0
    ensures var a, pointers := top - |Strs(envp)| - |Strs(argv)|, |argv| + |envp|;
            FinalSp(argv, envp, top) == a - a % 16 - (if pointers % 2 == 0 then 8 else 0) - 8 * (pointers + 5)
  {
    hide Strs;
    BelowAligned(top - |Strs(envp)| - |Strs(argv)|, |argv| + |envp|);
  }

  lemma BelowAligned(a: int, pointers: nat)
    ensures (Below(a, pointers) - 8 * (pointers + 5)) % 16 == 0 && a - 24 < Below(a, pointers) <= a
    ensures Below(a, pointers) == a - a % 16 - if pointers % 2 == 0 then 8 else 0
  {
    var q, h, odd := a / 16, pointers / 2, pointers % 2;
    assert a - a % 16 == 16 * q && 8 * (pointers + 3) == 16 * (h + 1) + 8 * (odd + 1);
  }

  /** `bytes` just below offset `at`; nothing from `at` on changes. */
  method Put(stack: array<Byte>, at: nat, bytes: seq<Byte>) returns (ok: bool, next: nat)
    requires at <= stack.Length
    modifies stack
    ensures ok <==> |bytes| <= at
    ensures ok ==> next == at - |bytes| && On(stack[next..], bytes, old(stack[at..]))
    ensures !ok ==> next == at
  {
    if at < |bytes| {
      return false, at;
    }
    ok, next := true, at - |bytes|;
    forall i | 0 <= i < |bytes| {
      stack[next + i] := bytes[i];
    }
    assert stack[next..] == bytes + old(stack[at..]);
  }

  /** `mem` is `part` and then `rest`. */
  ghost predicate On(mem: seq<Byte>, part: seq<Byte>, rest: seq<Byte>) { mem == part + rest }

  lemma OnNothing(mem: seq<Byte>)
    ensures On(mem, [], mem)
  {
  }

  lemma OnMore(mem: seq<Byte>, more: seq<Byte>, mid: seq<Byte>, part: seq<Byte>, rest: seq<Byte>)
    requires On(mem, more, mid) && On(mid, part, rest)
    ensures On(mem, more + part, rest)
  {
    assert more + (part + rest) == more + part + rest;
  }

  /** Pushes the strings, last one first, and notes where each was put. */
  method PushStrings(stack: array<Byte>, base: nat, at: nat, ss: seq<seq<Byte>>)
    returns (ok: bool, next: nat, ptrs: seq<int>)
    requires at <= stack.Length
    modifies stack
    ensures ok <==> |Strs(ss)| <= at
    ensures ok ==> next == at - |Strs(ss)| && On(stack[next..], Strs(ss), old(stack[at..]))
    ensures ok ==> Reversed(ptrs, Ptrs(ss, base + at))
  {
    hide Strs, On;
    OnNothing(stack[at..]);
    ok, next, ptrs := true, at, [];
    StrsEmpty(ss);
    var k := |ss|;
    while k > 0
      invariant ok && 0 <= k <= |ss| && |ptrs| == |ss| - k && next <= stack.Length
      invariant |Strs(ss[k..])| <= at && next == at - |Strs(ss[k..])|
      invariant On(stack[next..], Strs(ss[k..]), old(stack[at..]))
      invariant forall j | 0 <= j < |ptrs| :: ptrs[j] == Addr(ss, |ss| - 1 - j, base + at)
    {
      k := k - 1;
      StrsStep(ss, k);
      StrsSuffix(ss, k);
      ghost var before := stack[next..];
      ok, next := Put(stack, next, ss[k] + [0]);
      if !ok {
        return;
      }
      OnMore(stack[next..], ss[k] + [0], before, Strs(ss[k + 1..]), old(stack[at..]));
      ptrs := ptrs + [base + next];
    }
    assert ss[0..] == ss;
  }

  predicate Reversed(a: seq<int>, b: seq<int>) {
    |a| == |b| && forall j | 0 <= j < |a| :: a[j] == b[|b| - 1 - j]
  }

  lemma StrsEmpty(ss: seq<seq<Byte>>)
    ensures Strs(ss[|ss|..]) == []
  {
  }

  lemma StrsStep(ss: seq<seq<Byte>>, k: nat)
    requires k < |ss|
    ensures Strs(ss[k..]) == ss[k] + [0] + Strs(ss[k + 1..])
  {
    assert ss[k..][1..] == ss[k + 1..];
  }

  lemma StrsSuffix(ss: seq<seq<Byte>>, k: nat)
    requires k < |ss|
    ensures |Strs(ss[k..])| <= |Strs(ss)|
  {
    StringPlaced(ss, k);
  }

  /** Pushes the words of `ptrs` in turn, which leaves `ordered`, their reverse, in memory. */
  method PushPointers(stack: array<Byte>, at: nat, ptrs: seq<int>, ghost ordered: seq<int>)
    returns (ok: bool, next: nat)
    requires at <= stack.Length && AllWords(ordered) && Reversed(ptrs, ordered)
    modifies stack
    ensures ok <==> 8 * |ptrs| <= at
    ensures ok ==> next == at - 8 * |ptrs| && On(stack[next..], WordBytes(ordered), old(stack[at..]))
  {
    hide WordBytes, On, AllWords, Reversed, Encode;
    ok, next := true, at;
    ReversedLength(ptrs, ordered);
    WordsEmpty(ordered);
    OnNothing(stack[at..]);
    var i := 0;
    while i < |ptrs|
      invariant ok && 0 <= i <= |ptrs| && 8 * i <= at && next == at - 8 * i && next <= stack.Length
      invariant AllWords(ordered[|ordered| - i..])
      invariant On(stack[next..], WordBytes(ordered[|ordered| - i..]), old(stack[at..]))
    {
      var k := |ptrs| - 1 - i;
      WordsStep(ordered, k);
      PointerAt(ptrs, ordered, i);
      ghost var before := stack[next..];
      ok, next := Put(stack, next, Encode(ptrs[i], 8));
      if !ok {
        return;
      }
      OnMore(stack[next..], Encode(ptrs[i], 8), before, WordBytes(ordered[k + 1..]), old(stack[at..]));
      i := i + 1;
    }
    assert ordered[0..] == ordered;
  }

  lemma ReversedLength(a: seq<int>, b: seq<int>)
    requires Reversed(a, b)
    ensures |a| == |b|
  {
  }

  lemma PointerAt(ptrs: seq<int>, ordered: seq<int>, i: nat)
    requires AllWords(ordered) && Reversed(ptrs, ordered) && i < |ptrs|
    ensures ptrs[i] == ordered[|ordered| - 1 - i] && 0 <= ptrs[i] < WORD_LIMIT
  {
  }

  lemma WordsEmpty(ws: seq<int>)
    requires AllWords(ws)
    ensures AllWords(ws[|ws|..]) && WordBytes(ws[|ws|..]) == []
  {
  }

  lemma WordsStep(ws: seq<int>, k: nat)
    requires AllWords(ws) && k < |ws|
    ensures AllWords(ws[k..]) && AllWords(ws[k + 1..]) && ws[k] >= 0
    ensures WordBytes(ws[k..]) == Encode(ws[k], 8) + WordBytes(ws[k + 1..])
  {
    assert ws[k..][1..] == ws[k + 1..];
  }

  lemma {:induction false} WordsJoin(a: seq<int>, b: seq<int>)
    requires AllWords(a) && AllWords(b)
    ensures AllWords(a + b) && WordBytes(a + b) == WordBytes(a) + WordBytes(b)
  {
    hide Encode;
    if a == [] {
      assert a + b == b;
    } else {
      WordsJoin(a[1..], b);
      assert (a + b)[1..] == a[1..] + b && (a + b)[0] == a[0];
      assert Encode(a[0], 8) + (WordBytes(a[1..]) + WordBytes(b)) == WordBytes(a) + WordBytes(b);
    }
  }

  /** The table: null entries, the environment pointers, the argument pointers and the count. */
  method PushTable(stack: array<Byte>, at: nat, argc: nat, argPtrs: seq<int>, envPtrs: seq<int>, ghost args: seq<int>,
                   ghost envs: seq<int>)
    returns (ok: bool, next: nat)
    requires at <= stack.Length && Reversed(argPtrs, args) && Reversed(envPtrs, envs)
             && AllWords(Words(argc, args, envs))
    modifies stack
    ensures ok <==> 8 * (|args| + |envs| + 5) <= at
    ensures ok ==> && next == at - 8 * (|args| + |envs| + 5)
                   && On(stack[next..], WordBytes(Words(argc, args, envs)), old(stack[at..]))
  {
    hide WordBytes, AllWords, On, Words;
    WordParts(argc, args, envs);
    ghost var rest, mid := stack[at..], stack[at..];
    ghost var part := WordBytes([0, 0, 0]);
    ok, next := PushPointers(stack, at, [0, 0, 0], [0, 0, 0]);
    if !ok {
      return;
    }
    mid := stack[next..];
    ok, next := PushPointers(stack, next, envPtrs, envs);
    if !ok {
      return;
    }
    OnMore(stack[next..], WordBytes(envs), mid, part, rest);
    mid, part := stack[next..], WordBytes(envs) + part;
    ok, next := PushPointers(stack, next, [0], [0]);
    if !ok {
      return;
    }
    OnMore(stack[next..], WordBytes([0]), mid, part, rest);
    mid, part := stack[next..], WordBytes([0]) + part;
    ok, next := PushPointers(stack, next, argPtrs, args);
    if !ok {
      return;
    }
    OnMore(stack[next..], WordBytes(args), mid, part, rest);
    mid, part := stack[next..], WordBytes(args) + part;
    ok, next := PushPointers(stack, next, [argc], [argc]);
    if ok {
      OnMore(stack[next..], WordBytes([argc]), mid, part, rest);
    }
  }

  lemma WordParts(argc: nat, args: seq<int>, envs: seq<int>)
    requires AllWords(Words(argc, args, envs))
    ensures AllWords([argc]) && AllWords(args) && AllWords([0]) && AllWords(envs) && AllWords([0, 0, 0])
    ensures WordBytes(Words(argc, args, envs))
         == WordBytes([argc]) + (WordBytes(args) + (WordBytes([0]) + (WordBytes(envs) + WordBytes([0, 0, 0]))))
  {
    hide WordBytes, AllWords;
    PartsAreWords(argc, args, envs);
    WordsJoin(envs, [0, 0, 0]);
    WordsJoin([0], envs + [0, 0, 0]);
    WordsJoin(args, [0] + (envs + [0, 0, 0]));
    WordsJoin([argc], args + ([0] + (envs + [0, 0, 0])));
    assert Words(argc, args, envs) == [argc] + (args + ([0] + (envs + [0, 0, 0])));
  }

  lemma PartsAreWords(argc: nat, args: seq<int>, envs: seq<int>)
    requires AllWords(Words(argc, args, envs))
    ensures AllWords([argc]) && AllWords(args) && AllWords([0]) && AllWords(envs) && AllWords([0, 0, 0])
  {
    var ws := Words(argc, args, envs);
    assert ws[0] == argc;
    forall i | 0 <= i < |args| ensures args[i] == ws[1 + i] {
    }
    forall i | 0 <= i < |envs| ensures envs[i] == ws[|args| + 2 + i] {
    }
  }

  lemma AlignedIs(sp: nat, r: int)
    requires r % 16 == 0 && sp - sp % 16 <= r <= sp
    ensures r == sp - sp % 16
  {
    var q, n := sp / 16, r / 16;
    assert r == 16 * n && sp == 16 * q + sp % 16;
  }

  /** Steps down to a multiple of 16, and half a step more when the table has an odd length. */
  method AlignSp(sp: nat, pointers: nat) returns (r: int)
    ensures r == Below(sp, pointers)
  {
    r := sp;
    while r % 16 != 0
      invariant sp - sp % 16 <= r <= sp
      decreases r - (sp - sp % 16)
    {
      r := r - 1;
    }
    AlignedIs(sp, r);
    var pointerEntries := pointers + 3;
    if (r - 8 * pointerEntries) % 16 != 0 {
      r := r - 8;
    }
  }

  /** `mem` is the finished stack from its pointer to `top`. */
  ghost predicate IsImage(argv: seq<seq<Byte>>, envp: seq<seq<Byte>>, top: nat, mem: seq<Byte>) {
    && |Strs(argv)| + |Strs(envp)| < top < WORD_LIMIT && AllWords(Table(argv, envp, top))
    && exists pad :: |pad| < 24 && mem == Image(argv, envp, top, pad)
  }

  /** Fills the stack pages from `base` up. It stops, with the kernel, as soon as a push would leave
      the pages; it succeeds if and only if the final stack pointer lies in them. */
  method BuildStack(stack: array<Byte>, base: nat, argv: seq<seq<Byte>>, envp: seq<seq<Byte>>)
    returns (ok: bool, sp: nat)
    requires stack.Length == STACK_SIZE && 0 < base && base % 16 == 0 && base + STACK_SIZE < WORD_LIMIT
    modifies stack
    ensures ok <==> base <= FinalSp(argv, envp, base + STACK_SIZE)
    ensures ok ==> sp == FinalSp(argv, envp, base + STACK_SIZE) && sp % 16 == 0
    ensures ok ==> IsImage(argv, envp, base + STACK_SIZE, stack[sp - base..])
  {
    hide Strs, Ptrs, WordBytes, AllWords, Below, Words, IsImage, On;
    FinalSpAligned(argv, envp, base + STACK_SIZE);
    BelowAligned(base + STACK_SIZE - |Strs(envp)| - |Strs(argv)|, |argv| + |envp|);
    ghost var top := base + STACK_SIZE;
    var at, envPtrs, argPtrs;
    sp := 0;
    assert stack[STACK_SIZE..] == [];
    ok, at, envPtrs := PushStrings(stack, base, STACK_SIZE, envp);
    if !ok {
      return;
    }
    ghost var end, envs := base + at, stack[at..];
    ok, at, argPtrs := PushStrings(stack, base, at, argv);
    if !ok {
      return;
    }
    ghost var bottom := at;
    var aligned := AlignSp(base + at, |argv| + |envp|);
    if aligned < base {
      return false, 0;
    }
    at := aligned - base;
    ghost var pad, padded := stack[at..bottom], stack[at..];
    TableWords(argv, envp, top);
    PaddedIs(stack[..], at, bottom, argv, envp, envs);
    ok, at := PushTable(stack, at, |argv|, argPtrs, envPtrs, Ptrs(argv, end), Ptrs(envp, top));
    if !ok {
      return;
    }
    sp := base + at;
    ImageMade(argv, envp, top, pad, stack[at..]);
  }

  /** The strings, and what was skipped below them for alignment. */
  lemma PaddedIs(stack: seq<Byte>, at: nat, bottom: nat, argv: seq<seq<Byte>>, envp: seq<seq<Byte>>, envs: seq<Byte>)
    requires at <= bottom <= |stack| && On(stack[bottom..], Strs(argv), envs) && On(envs, Strs(envp), [])
    ensures stack[at..] == stack[at..bottom] + (Strs(argv) + Strs(envp))
  {
    hide Strs;
    assert stack[at..] == stack[at..bottom] + stack[bottom..];
  }

  lemma ImageMade(argv: seq<seq<Byte>>, envp: seq<seq<Byte>>, top: nat, pad: seq<Byte>, mem: seq<Byte>)
    requires |Strs(argv)| + |Strs(envp)| < top < WORD_LIMIT && AllWords(Table(argv, envp, top)) && |pad| < 24
    requires On(mem, WordBytes(Table(argv, envp, top)), pad + (Strs(argv) + Strs(envp)))
    ensures IsImage(argv, envp, top, mem)
  {
    hide Strs, WordBytes, AllWords, Table;
    assert mem == Image(argv, envp, top, pad);
  }

  /** How a preparation ends: not loaded, the kernel stops, or user mode is entered. */
  datatype Outcome = NotLoaded | Stopped | Entered(rip: nat, rsp: nat)

  /** The top of the stack of a program loaded at `bias` whose segments end at `end`. */
  function StackTop(bias: nat, end: nat): (r: nat)
    ensures r % 4096 == 0 && bias + end + 0x2_0000 <= r < bias + end + 0x2_1000
  {
    PageUp(bias + end + STACK_GAP)
  }

  /** The stack pages start on a 16-byte boundary. */
  lemma StartAligned(top: nat)
    requires top % 4096 == 0
    ensures (top - STACK_SIZE) % 16 == 0
  {
    var q := top / 4096;
    assert top - STACK_SIZE == 16 * (256 * q - STACK_SIZE / 16);
  }

  /** New stack pages below `top`, filled. */
  method NewStack(top: nat, argv: seq<seq<Byte>>, envp: seq<seq<Byte>>) returns (ok: bool, sp: nat, stack: array<Byte>)
    requires top % 4096 == 0 && STACK_SIZE < top < WORD_LIMIT
    ensures fresh(stack) && stack.Length == STACK_SIZE
    ensures ok <==> top - STACK_SIZE <= FinalSp(argv, envp, top)
    ensures ok ==> sp == FinalSp(argv, envp, top) && sp % 16 == 0 && top - STACK_SIZE <= sp <= top
    ensures ok ==> IsImage(argv, envp, top, stack[sp - (top - STACK_SIZE)..])
  {
    hide IsImage, FinalSp;
    StartAligned(top);
    FinalSpBelow(argv, envp, top);
    stack := new Byte[STACK_SIZE];
    ok, sp := BuildStack(stack, top - STACK_SIZE, argv, envp);
  }

  class UserProcess {
    var loaded: bool
    var loadBias: nat
    var end: nat
    var entryPoint: nat
    var argv: seq<seq<Byte>>
    var envp: seq<seq<Byte>>
    var userStackTop: nat
    var rip: nat
    var rsp: nat
    var running: bool
    var stack: array<Byte>          // the mapped stack pages

    constructor (loadBias: nat, end: nat, entryPoint: nat, argv: seq<seq<Byte>>, envp: seq<seq<Byte>>)
      ensures loaded && this.loadBias == loadBias && this.end == end && this.entryPoint == entryPoint
      ensures this.argv == argv && this.envp == envp && userStackTop == 0 && !running
      ensures stack.Length == 0 && fresh(stack)
    {
      this.loaded, this.loadBias, this.end, this.entryPoint := true, loadBias, end, entryPoint;
      this.argv, this.envp, userStackTop, rip, rsp, running := argv, envp, 0, 0, 0, false;
      stack := new Byte[0];
    }

    /** Prepares the first entry to user mode. `mapped` says whether stack pages could be mapped. */
    method PrepareRun(mapped: bool) returns (r: Outcome)
      requires loadBias + end + STACK_GAP + 0xFFF < WORD_LIMIT
      modifies this
      ensures loaded == old(loaded) && loadBias == old(loadBias) && end == old(end) && argv == old(argv)
              && envp == old(envp)
      ensures r.NotLoaded? <==> !loaded
      ensures loaded && old(userStackTop) != 0 ==>
                r == Entered(old(rip), old(rsp)) && userStackTop == old(userStackTop) && stack == old(stack)
      ensures var top := StackTop(loadBias, end);
              loaded && old(userStackTop) == 0 ==>
                (r.Entered? <==> mapped && top - STACK_SIZE <= FinalSp(argv, envp, top))
      ensures r.Entered? ==> r == Entered(rip, rsp) && running
      ensures r.Entered? && old(userStackTop) == 0 ==>
                && userStackTop == StackTop(loadBias, end) && rip == entryPoint + loadBias
                && entryPoint == old(entryPoint)
                && rsp == FinalSp(argv, envp, userStackTop) && rsp % 16 == 0 && stack.Length == STACK_SIZE == 0x4000
                && userStackTop - STACK_SIZE <= rsp <= userStackTop
                && IsImage(argv, envp, userStackTop, stack[rsp - (userStackTop - STACK_SIZE)..])
    {
      hide IsImage, FinalSp, StackTop, PageUp, Strs, Ptrs, WordBytes;
      if !loaded {
        return NotLoaded;
      }
      if userStackTop == 0 {
        var top := StackTop(loadBias, end);
        if !mapped {
          return Stopped;
        }
        var ok, sp;
        ok, sp, stack := NewStack(top, argv, envp);
        if !ok {
          return Stopped;
        }
        rsp := sp;
        rip := entryPoint + loadBias;
        userStackTop := top;
      }
      running := true;
      r := Entered(rip, rsp);
    }
  }

  lemma FinalSpBelow(argv: seq<seq<Byte>>, envp: seq<seq<Byte>>, top: int)
    ensures FinalSp(argv, envp, top) <= top
  {
    BelowAligned(top - |Strs(envp)| - |Strs(argv)|, |argv| + |envp|);
  }

  /** The whole path: whatever image a preparation leaves, the program reads back its arguments and
      environment, exactly if and only if no string holds a null byte. */
  lemma PreparedReadsBack(argv: seq<seq<Byte>>, envp: seq<seq<Byte>>, top: nat, sp: nat, mem: seq<Byte>)
    requires IsImage(argv, envp, top, mem) && sp + |mem| == top
    ensures ReadStartup(mem, sp) == Startup(|argv|, CutAll(argv), CutAll(envp), Some((0, 0)))
    ensures ReadStartup(mem, sp) == Startup(|argv|, argv, envp, Some((0, 0))) <==> NulFree(argv) && NulFree(envp)
  {
    hide Strs, WordBytes, AllWords, CutAll, NulFree;
    var pad :| |pad| < 24 && mem == Image(argv, envp, top, pad);
    ReadsBack(argv, envp, top, sp, pad);
    ReadsBackExactly(argv, envp, top, sp, pad);
  }
}
