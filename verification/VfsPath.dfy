/** Path normalization in the virtual file system, and the choice of the mounted file system. */
module VfsPath {
  import opened Common

  // ---- splitting and joining ----

  /** The pieces between slashes, empty ones included. */
  function Split(s: string): (r: seq<string>)
    ensures |r| > 0
  {
    if s == [] then [""]
    else if s[0] == '/' then [""] + Split(s[1..])
    else var r := Split(s[1..]); [[s[0]] + r[0]] + r[1..]
  }

  function Join(cs: seq<string>): string {
    if cs == [] then "" else if |cs| == 1 then cs[0] else cs[0] + "/" + Join(cs[1..])
  }

  lemma {:induction false} SplitJoined(a: string, b: string)
    ensures Split(a + "/" + b) == Split(a) + Split(b)
  {
    if a == [] {
      assert a + "/" + b == "/" + b && ("/" + b)[1..] == b;
    } else {
      assert (a + "/" + b)[1..] == a[1..] + "/" + b;
      SplitJoined(a[1..], b);
    }
  }

  lemma {:induction false} SplitPlain(s: string)
    requires '/' !in s
    ensures Split(s) == [s]
  {
    if s != [] {
      assert s[0] in s && '/' !in s[1..];
      SplitPlain(s[1..]);
      assert s == [s[0]] + s[1..];
    }
  }

  lemma {:induction false} SplitHasNoSlash(s: string)
    ensures forall p | p in Split(s) :: '/' !in p
  {
    if s != [] {
      SplitHasNoSlash(s[1..]);
      var r := Split(s[1..]);
      assert r[0] in r;
      forall p | p in Split(s) ensures '/' !in p {
        assert p == [] || p == [s[0]] + r[0] || p in r;
      }
    }
  }

  lemma {:induction false} SplitOfJoin(cs: seq<string>)
    requires cs != [] && forall c | c in cs :: '/' !in c
    ensures Split(Join(cs)) == cs
  {
    SplitPlain(cs[0]);
    if |cs| > 1 {
      SplitOfJoin(cs[1..]);
      SplitJoined(cs[0], Join(cs[1..]));
      assert cs == [cs[0]] + cs[1..];
    }
  }

  // ---- components ----

  /** What one piece does to the components found so far. */
  function Step(cs: seq<string>, part: string): seq<string> {
    if part == "" || part == "." then cs
    else if part == ".." then (if cs == [] then [] else cs[..|cs| - 1])
    else cs + [part]
  }

  function Steps(cs: seq<string>, parts: seq<string>): seq<string>
    decreases parts
  {
    if parts == [] then cs else Steps(Step(cs, parts[0]), parts[1..])
  }

  function Components(path: string): seq<string> { Steps([], Split(path)) }

  function Normalize(path: string): string { "/" + Join(Components(path)) }

  predicate ProperName(c: string) { c != "" && c != "." && c != ".." && '/' !in c }

  predicate Proper(cs: seq<string>) { forall c | c in cs :: ProperName(c) }

  lemma {:induction false} StepsProper(cs: seq<string>, parts: seq<string>)
    requires Proper(cs) && forall p | p in parts :: '/' !in p
    ensures Proper(Steps(cs, parts))
    decreases parts
  {
    if parts != [] {
      assert parts[0] in parts;
      StepsProper(Step(cs, parts[0]), parts[1..]);
    }
  }

  lemma ComponentsProper(path: string)
    ensures Proper(Components(path))
  {
    SplitHasNoSlash(path);
    StepsProper([], Split(path));
  }

  lemma {:induction false} StepsJoin(cs: seq<string>, a: seq<string>, b: seq<string>)
    ensures Steps(cs, a + b) == Steps(Steps(cs, a), b)
    decreases a
  {
    if a == [] {
      assert a + b == b;
    } else {
      assert (a + b)[1..] == a[1..] + b;
      StepsJoin(Step(cs, a[0]), a[1..], b);
    }
  }

  lemma {:induction false} StepsOfProper(cs: seq<string>, more: seq<string>)
    requires Proper(more)
    ensures Steps(cs, more) == cs + more
    decreases more
  {
    if more != [] {
      assert more[0] in more;
      StepsOfProper(cs + [more[0]], more[1..]);
      assert cs + [more[0]] + more[1..] == cs + more;
    } else {
      assert cs + more == cs;
    }
  }

  /** The pieces of a normal path are an empty one and then its components. */
  lemma SplitNormal(cs: seq<string>)
    requires Proper(cs)
    ensures Split("/" + Join(cs)) == [""] + (if cs == [] then [""] else cs)
  {
    assert ("/" + Join(cs))[1..] == Join(cs);
    if cs != [] {
      SplitOfJoin(cs);
    }
  }

  lemma ComponentsOfNormal(cs: seq<string>)
    requires Proper(cs)
    ensures Components("/" + Join(cs)) == cs
  {
    SplitNormal(cs);
    if cs == [] {
      assert [""] + [""] == ["", ""];
      assert Steps([], ["", ""]) == Steps([], [""]) == [];
    } else {
      StepsJoin([], [""], cs);
      StepsOfProper([], cs);
      assert [] + cs == cs;
    }
  }

  /** Normalizing again changes nothing. */
  lemma Idempotent(path: string)
    ensures Normalize(Normalize(path)) == Normalize(path) && Components(Normalize(path)) == Components(path)
  {
    ComponentsProper(path);
    ComponentsOfNormal(Components(path));
  }

  /** A prefix can be normalized on its own first. */
  lemma NormalizeInSteps(a: string, b: string)
    ensures Normalize(a + "/" + b) == Normalize(Normalize(a) + "/" + b)
  {
    SplitJoined(a, b);
    SplitJoined(Normalize(a), b);
    StepsJoin([], Split(a), Split(b));
    StepsJoin([], Split(Normalize(a)), Split(b));
    Idempotent(a);
  }

  /** What one more piece does to a normal path, which with the empty path says what every path
      becomes: a name goes below, two dots go up and stay at the root, one dot and nothing are ignored. */
  lemma OnePieceMore(a: string, part: string)
    requires '/' !in part
    ensures part == "" || part == "." ==> Normalize(a + "/" + part) == Normalize(a)
    ensures part == ".." && Normalize(a) == "/" ==> Normalize(a + "/" + part) == "/"
    ensures ProperName(part) ==>
              Normalize(a + "/" + part) == if Normalize(a) == "/" then "/" + part else Normalize(a) + "/" + part
  {
    PieceStep(a, part);
    RootIsEmpty(Components(a));
    ComponentsProper(a);
    if ProperName(part) && Components(a) != [] {
      JoinMore(Components(a), part);
    }
  }

  /** A name and two dots after it undo each other. */
  lemma UpFromBelow(a: string, name: string)
    requires ProperName(name)
    ensures Normalize(a + "/" + name + "/..") == Normalize(a)
  {
    PieceStep(a, name);
    PieceStep(a + "/" + name, "..");
    assert a + "/" + name + "/.." == a + "/" + name + "/" + "..";
    assert (Components(a) + [name])[..|Components(a)|] == Components(a);
  }

  /** The empty path is the root, and a leading slash makes no difference. */
  lemma FromRoot(path: string)
    ensures Normalize("") == "/" && Normalize("/" + path) == Normalize(path)
  {
    SplitJoined("", path);
    assert "" + "/" + path == "/" + path;
    StepsJoin([], [""], Split(path));
  }

  lemma PieceStep(a: string, part: string)
    requires '/' !in part
    ensures Components(a + "/" + part) == Step(Components(a), part)
  {
    SplitJoined(a, part);
    SplitPlain(part);
    StepsJoin([], Split(a), [part]);
  }

  lemma RootIsEmpty(cs: seq<string>)
    ensures Proper(cs) ==> ("/" + Join(cs) == "/" <==> cs == [])
  {
    if Proper(cs) && cs != [] {
      assert cs[0] in cs && |Join(cs)| > 0;
    }
  }

  lemma {:induction false} JoinMore(cs: seq<string>, part: string)
    requires cs != []
    ensures Join(cs + [part]) == Join(cs) + "/" + part
  {
    if |cs| > 1 {
      JoinMore(cs[1..], part);
      assert (cs + [part])[1..] == cs[1..] + [part];
    }
  }

  /** The loop over the pieces of the path. */
  method NormalizePath(path: string) returns (r: string)
    ensures r == Normalize(path)
  {
    var parts := Split(path);
    var components: seq<string> := [];
    var i := 0;
    while i < |parts|
      invariant i <= |parts| && Steps(components, parts[i..]) == Components(path)
    {
      var part := parts[i];
      assert parts[i..][1..] == parts[i + 1..];
      if part == ".." {
        if components != [] {
          components := components[..|components| - 1];
        }
      } else if part != "" && part != "." {
        components := components + [part];
      }
      i := i + 1;
    }
    r := "/" + Join(components);
  }

  // ---- mounts ----

  predicate IsPrefix(m: string, p: string) { m <= p }

  /** `m` is the longest mounted string that `p` starts with. */
  ghost predicate IsBest(mounts: set<string>, p: string, m: string) {
    m in mounts && IsPrefix(m, p) && forall k | k in mounts && IsPrefix(k, p) :: |k| <= |m|
  }

  /** There is only one such mount, in whatever order the mounts are tried. */
  lemma BestUnique(mounts: set<string>, p: string, m: string, k: string)
    requires IsBest(mounts, p, m) && IsBest(mounts, p, k)
    ensures m == k
  {
    assert m == p[..|m|] && k == p[..|k|];
  }

  // ---- names ----

  /** One piece, if it is not empty. */
  function Piece(x: string): seq<string> { if x == "" then [] else [x] }

  function NonEmpty(ps: seq<string>): seq<string> { if ps == [] then [] else Piece(ps[0]) + NonEmpty(ps[1..]) }

  /** The names in a path or mount, without the empty ones. */
  function Names(s: string): seq<string> { NonEmpty(Split(s)) }

  lemma {:induction false} NonEmptyAppend(a: seq<string>, b: seq<string>)
    ensures NonEmpty(a + b) == NonEmpty(a) + NonEmpty(b)
  {
    hide Piece;
    if a == [] {
      assert a + b == b;
    } else {
      NonEmptyAppend(a[1..], b);
      assert (a + b)[1..] == a[1..] + b;
      assert NonEmpty(a + b) == Piece(a[0]) + NonEmpty(a[1..] + b);
    }
  }

  lemma {:induction false} NonEmptyOfProper(cs: seq<string>)
    requires Proper(cs)
    ensures NonEmpty(cs) == cs
  {
    if cs != [] {
      assert cs[0] in cs;
      NonEmptyOfProper(cs[1..]);
      assert cs == [cs[0]] + cs[1..];
    }
  }

  /** The names of a normal path are its components. */
  lemma NamesOfNormal(cs: seq<string>)
    requires Proper(cs)
    ensures Names("/" + Join(cs)) == cs
  {
    SplitNormal(cs);
    NonEmptyAppend([""], if cs == [] then [""] else cs);
    NonEmptyOfProper(cs);
  }

  /** Two lists of pieces, of which the last of one and the first of the other become one piece. */
  function Meet(s: seq<string>, r: seq<string>): (u: seq<string>)
    requires s != [] && r != []
    ensures u != []
  {
    s[..|s| - 1] + [s[|s| - 1] + r[0]] + r[1..]
  }

  lemma MeetEmpty(r: seq<string>)
    requires r != []
    ensures Meet([""], r) == r
  {
    assert "" + r[0] == r[0];
    assert Meet([""], r) == [r[0]] + r[1..] == r;
  }

  lemma MeetSlash(t: seq<string>, r: seq<string>)
    requires t != [] && r != []
    ensures Meet([""] + t, r) == [""] + Meet(t, r)
  {
    assert ([""] + t)[..|t|] == [""] + t[..|t| - 1];
  }

  lemma MeetChar(c: char, t: seq<string>, r: seq<string>)
    requires t != [] && r != []
    ensures Meet([[c] + t[0]] + t[1..], r) == [[c] + Meet(t, r)[0]] + Meet(t, r)[1..]
  {
    var s := [[c] + t[0]] + t[1..];
    if |t| == 1 {
      assert [c] + (t[0] + r[0]) == [c] + t[0] + r[0];
      assert Meet(t, r)[1..] == r[1..];
    } else {
      assert s[..|s| - 1] == [[c] + t[0]] + t[1..|t| - 1];
      assert Meet(t, r)[1..] == t[1..|t| - 1] + [t[|t| - 1] + r[0]] + r[1..];
    }
  }

  lemma {:induction false} SplitConcat(a: string, b: string)
    ensures Split(a + b) == Meet(Split(a), Split(b))
  {
    hide Meet;
    if a == [] {
      assert a + b == b;
      MeetEmpty(Split(b));
    } else {
      assert (a + b)[1..] == a[1..] + b;
      SplitConcat(a[1..], b);
      MeetSlash(Split(a[1..]), Split(b));
      MeetChar(a[0], Split(a[1..]), Split(b));
    }
  }

  lemma NamesConcat(a: string, b: string)
    ensures var s, r := Split(a), Split(b);
            var x, y, front, back := s[|s| - 1], r[0], NonEmpty(s[..|s| - 1]), NonEmpty(r[1..]);
            Names(a) == front + Piece(x) && Names(b) == Piece(y) + back && Names(a + b) == front + Piece(x + y) + back
  {
    hide Split;
    var s, r := Split(a), Split(b);
    var x, y := s[|s| - 1], r[0];
    SplitConcat(a, b);
    assert s == s[..|s| - 1] + [x] && r == [y] + r[1..];
    NonEmptyAppend(s[..|s| - 1], [x]);
    NonEmptyAppend([y], r[1..]);
    NonEmptyAppend(s[..|s| - 1], [x + y]);
    NonEmptyAppend(s[..|s| - 1] + [x + y], r[1..]);
  }

  lemma {:induction false} LastPiece(s: string)
    ensures var ps := Split(s); ps[|ps| - 1] == "" <==> s == "" || s[|s| - 1] == '/'
  {
    if |s| > 1 {
      LastPiece(s[1..]);
    }
  }

  lemma FirstPiece(s: string)
    ensures Split(s)[0] == "" <==> s == "" || s[0] == '/'
  {
  }

  /** The path goes on after the mount with a new name, or not at all. */
  predicate AtBoundary(m: string, p: string)
    requires IsPrefix(m, p)
  {
    m == "" || m[|m| - 1] == '/' || |p| == |m| || p[|m|] == '/'
  }

  /** A mount covers a path: its names are the first names of the path. */
  predicate Covers(m: string, p: string) { Names(m) <= Names(p) }

  /** Any mount that is a string prefix of any path covers it if and only if it ends in a slash, or
      the path ends there, or a slash follows; and then the names after it are the rest. */
  lemma BoundaryExact(m: string, p: string)
    requires IsPrefix(m, p)
    ensures Covers(m, p) <==> AtBoundary(m, p)
    ensures AtBoundary(m, p) ==> Names(p) == Names(m) + Names(p[|m|..])
  {
    hide Split, NonEmpty, Names, Piece;
    var rest := p[|m|..];
    assert p == m + rest;
    NamesConcat(m, rest);
    LastPiece(m);
    FirstPiece(rest);
    var s, r := Split(m), Split(rest);
    MeetingPieces(NonEmpty(s[..|s| - 1]), s[|s| - 1], r[0], NonEmpty(r[1..]));
  }

  /** The first names are kept exactly where no two pieces become one. */
  lemma MeetingPieces(front: seq<string>, x: string, y: string, back: seq<string>)
    ensures front + Piece(x) <= front + Piece(x + y) + back <==> x == "" || y == ""
    ensures x == "" || y == "" ==> front + Piece(x + y) + back == front + Piece(x) + (Piece(y) + back)
  {
    if x != "" && y != "" {
      assert (front + [x])[|front|] == x && (front + [x + y] + back)[|front|] == x + y;
      assert |x + y| > |x|;
    } else {
      assert x + y == if x == "" then y else x;
    }
  }

  /** Without a boundary a mount catches paths that are not below it. */
  lemma PrefixIsNotBelow()
    ensures IsPrefix("/mnt", Normalize("/mntx/f")) && !Covers("/mnt", Normalize("/mntx/f"))
  {
    hide Split, Steps, Join, NonEmpty;
    JoinTwo("mntx", "f");
    var cs := ["mntx", "f"];
    ComponentsOfNormal(cs);
    assert "/" + Join(cs) == "/mntx/f";
    assert Normalize("/mntx/f") == "/mntx/f";
    BoundaryExact("/mnt", "/mntx/f");
  }

  /** `m` is mounted and covers the path with the most names. */
  ghost predicate IsLongestCover(mounts: set<string>, p: string, m: string) {
    m in mounts && Covers(m, p) && forall k | k in mounts && Covers(k, p) :: |Names(k)| <= |Names(m)|
  }

  /** Where all mounts are normal, the mount with the longest string is the one that covers the path
      with the most names, if and only if it ends at a boundary. */
  lemma BestIsLongestCover(mounts: set<string>, path: string, m: string)
    requires (forall k | k in mounts :: Normalize(k) == k) && IsBest(mounts, Normalize(path), m)
    ensures IsLongestCover(mounts, Normalize(path), m) <==> AtBoundary(m, Normalize(path))
  {
    hide Names, Normalize;
    var p := Normalize(path);
    BoundaryExact(m, p);
    if AtBoundary(m, p) {
      forall k | k in mounts && Covers(k, p) ensures |Names(k)| <= |Names(m)| {
        CoverIsPrefix(k, path);
        assert k <= m;
        BoundaryExact(k, p);
        BoundaryExact(k, m);
      }
    }
  }

  lemma CoverIsPrefix(k: string, path: string)
    requires Normalize(k) == k && Covers(k, Normalize(path))
    ensures IsPrefix(k, Normalize(path))
  {
    ComponentsProper(k);
    ComponentsProper(path);
    var ms, cs := Components(k), Components(path);
    NamesOfNormal(ms);
    NamesOfNormal(cs);
    assert cs == ms + cs[|ms|..];
    if ms != [] {
      JoinPrefix(ms, cs[|ms|..]);
    }
  }

  /** A mount that is not normal can be missed: "/m/" covers "/m" and the root is chosen. */
  lemma SlashMountMissed()
    ensures IsBest({"/", "/m/"}, Normalize("/m"), "/") && !IsLongestCover({"/", "/m/"}, Normalize("/m"), "/")
  {
    hide Split, Steps, Join, NonEmpty;
    JoinOne("m");
    ComponentsOfNormal(["m"]);
    assert "/" + Join(["m"]) == "/m";
    assert Normalize("/m") == "/m" && !IsPrefix("/m/", "/m");
    BoundaryExact("/m", "/m/");
    BoundaryExact("/", "/m");
    NamesOfNormal(["m"]);
    NamesOfNormal([]);
    JoinNone();
    assert "/" + Join([]) == "/";
    SlashOnly();
    assert "/m/"[2..] == "/";
    assert Names("/m/") == ["m"] + [];
    assert "/m/" in {"/", "/m/"} && Covers("/m/", "/m");
  }

  lemma SlashOnly()
    ensures Names("/") == []
  {
    assert "/"[1..] == "";
    assert Split("/") == ["", ""] && ["", ""][1..] == [""] && [""][1..] == [];
  }

  lemma JoinNone()
    ensures Join([]) == ""
  {
  }

  lemma {:induction false} JoinPrefix(ms: seq<string>, rest: seq<string>)
    requires ms != []
    ensures Join(ms + rest) == Join(ms) + if rest == [] then "" else "/" + Join(rest)
  {
    if |ms| == 1 {
      assert ms == [ms[0]] && (ms + rest)[1..] == rest;
      if rest == [] {
        assert ms + rest == ms;
      }
    } else {
      JoinPrefix(ms[1..], rest);
      assert (ms + rest)[1..] == ms[1..] + rest;
    }
  }

  lemma JoinOne(a: string)
    ensures Join([a]) == a
  {
  }

  lemma JoinTwo(a: string, b: string)
    ensures Join([a, b]) == a + "/" + b
  {
    assert [a, b][1..] == [b];
  }

  // ---- the rest of the path ----

  function TrimStart(s: string): string { if s != [] && s[0] == '/' then TrimStart(s[1..]) else s }

  /** The names looked up one after the other below a mount. */
  function Parts(p: string, mount: string): seq<string>
    requires |mount| <= |p|
  {
    NonEmpty(Split(TrimStart(p[|mount|..])))
  }

  lemma {:induction false} TrimmedNames(s: string)
    ensures NonEmpty(Split(TrimStart(s))) == Names(s)
  {
    if s != [] && s[0] == '/' {
      TrimmedNames(s[1..]);
      NonEmptyAppend([""], Split(s[1..]));
    }
  }

  /** Below a mount that is a prefix of the path and covers it, the names looked up are exactly those
      that the mount does not have. */
  lemma PartsAreRest(m: string, path: string)
    requires IsPrefix(m, Normalize(path)) && Covers(m, Normalize(path))
    ensures Names(Normalize(path)) == Components(path) && Parts(Normalize(path), m) == Components(path)[|Names(m)|..]
  {
    hide NonEmpty, Split, TrimStart, Steps, Join;
    var p := Normalize(path);
    ComponentsProper(path);
    NamesOfNormal(Components(path));
    BoundaryExact(m, p);
    TrimmedNames(p[|m|..]);
  }

  datatype FileError = AlreadyExists | NotFound

  /** The table of mounted file systems. */
  class Vfs<F(==)> {
    var fs: map<string, F>

    constructor ()
      ensures fs == map[]
    {
      fs := map[];
    }

    method Mount(path: string, f: F) returns (r: Result<(), FileError>)
      modifies this
      ensures r == if path in old(fs) then Err(AlreadyExists) else Ok(())
      ensures fs == if path in old(fs) then old(fs) else old(fs)[path := f]
    {
      if path in fs {
        return Err(AlreadyExists);
      }
      fs := fs[path := f];
      r := Ok(());
    }

    method Unmount(path: string) returns (r: Result<(), FileError>)
      modifies this
      ensures r == if path in old(fs) then Ok(()) else Err(NotFound)
      ensures fs == old(fs) - {path}
    {
      if path !in fs {
        return Err(NotFound);
      }
      fs := fs - {path};
      r := Ok(());
    }

    /** The mount with the longest prefix of the normalized path, trying the mounts in any order. */
    method PathToFs(path: string) returns (r: Option<(string, F)>)
      ensures r.None? <==> forall m | m in fs :: !IsPrefix(m, Normalize(path))
      ensures r.Some? ==> IsBest(fs.Keys, Normalize(path), r.value.0) && r.value.1 == fs[r.value.0]
    {
      var p := NormalizePath(path);
      r := None;
      var left := fs.Keys;
      while left != {}
        invariant left <= fs.Keys
        invariant r.None? ==> forall m | m in fs && m !in left :: !IsPrefix(m, p)
        invariant r.Some? ==> r.value.0 in fs && r.value.1 == fs[r.value.0] && IsPrefix(r.value.0, p)
        invariant r.Some? ==> forall m | m in fs && m !in left && IsPrefix(m, p) :: |m| <= |r.value.0|
        decreases |left|
      {
        var m :| m in left;
        left := left - {m};
        if IsPrefix(m, p) {
          if r.Some? {
            if |m| > |r.value.0| {
              r := Some((m, fs[m]));
            }
          } else {
            r := Some((m, fs[m]));
          }
        }
      }
    }

    /** Where an absolute path leads: the file system, and the names to look up in it. The path is
        normalized here and once more in the search, which does not change the mount chosen. */
    method Locate(path: string) returns (r: Result<(string, F, seq<string>), FileError>)
      ensures r.Err? <==> forall m | m in fs :: !IsPrefix(m, Normalize(path))
      ensures r.Err? ==> r.error == NotFound
      ensures r.Ok? ==> var (m, f, parts) := r.value;
                IsBest(fs.Keys, Normalize(path), m) && f == fs[m] && parts == Parts(Normalize(path), m)
    {
      hide Normalize, Split, TrimStart;
      var p := NormalizePath(path);
      Idempotent(path);
      var found := PathToFs(p);
      if found.None? {
        return Err(NotFound);
      }
      var (m, f) := found.value;
      r := Ok((m, f, NonEmpty(Split(TrimStart(p[|m|..])))));
    }
  }
}
