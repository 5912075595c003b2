/** Mirroring source directories below an output directory: the sorted list of directories is reduced
    to the last ones of its parent chains, and each of those is created with all its ancestors. */
module MirroredDirs {
  import opened Bytes

  type path = string

  const SEP := '/'

  // ---- Paths ----

  predicate StartsHere(p: path) {
    2 <= |p| && p[0] == '.' && p[1] == SEP
  }

  /** trimPath: one leading `./` and then one leading `/` are dropped. */
  function Trim(p: path): path {
    var q := if StartsHere(p) then p[2..] else p;
    if q != [] && q[0] == SEP then q[1..] else q
  }

  /** firstIsParentOrSameDirOfSecond */
  predicate ParentOrSame(first: path, second: path) {
    && |first| <= |second| && (|second| == |first| || second[|first|] == SEP)
    && second[..|first|] == first
  }

  /** The test says what a parent is: the name and a separator begin the other name. */
  lemma ParentIsPrefix(first: path, second: path)
    ensures ParentOrSame(first, second) <==> first == second || first + [SEP] <= second
  {
    if first + [SEP] <= second {
      assert second[|first|] == (first + [SEP])[|first|] && second[..|first|] == (first + [SEP])[..|first|];
    }
  }

  lemma ParentOrSameIsTransitive(a: path, b: path, c: path)
    requires ParentOrSame(a, b) && ParentOrSame(b, c)
    ensures ParentOrSame(a, c)
  {
    assert c[..|a|] == c[..|b|][..|a|];
    assert |a| < |b| ==> c[|a|] == c[..|b|][|a|];
  }

  /** mallocAndJoin2Dir */
  function Join(dir1: path, dir2: path): path {
    dir1 + (if dir1 != [] && dir1[|dir1| - 1] != SEP then [SEP] else []) + dir2
  }

  function Mirror(out: path, src: path): path {
    Join(out, Trim(src))
  }

  /** `./name`, `/name` and `name` have the same mirror. */
  lemma SameMirror(out: path, name: path)
    requires name != [] && name[0] != SEP && !StartsHere(name) && out != [] && out[|out| - 1] != SEP
    ensures Mirror(out, "./" + name) == Mirror(out, "/" + name) == Mirror(out, name) == out + "/" + name
  {
    var here := "./" + name;
    assert here[0] == '.' && here[1] == SEP && here[2..] == name;
    var root := "/" + name;
    assert root[0] == SEP && root[1..] == name && !StartsHere(root);
    assert Trim(name) == name;
  }

  /** A path that ends in a name. */
  predicate EndsInName(t: path) {
    t != [] && t[|t| - 1] != SEP
  }

  // ---- The reduction ----

  /** A directory is dropped when it is a parent of the next one, or the same. */
  function Unique(dirs: seq<path>): seq<path> {
    if |dirs| <= 1 then dirs
    else if ParentOrSame(Trim(dirs[0]), Trim(dirs[1])) then Unique(dirs[1..])
    else [dirs[0]] + Unique(dirs[1..])
  }

  ghost predicate Covers(kept: seq<path>, d: path) {
    exists u <- kept :: ParentOrSame(Trim(d), Trim(u))
  }

  /** Coverage: every directory is a parent of a kept one, or the same, and only given ones are kept. */
  lemma {:induction false} UniqueCovers(dirs: seq<path>)
    ensures forall d <- dirs :: Covers(Unique(dirs), d)
    ensures forall u <- Unique(dirs) :: u in dirs
  {
    hide Trim;
    if |dirs| == 1 {
      assert ParentOrSame(Trim(dirs[0]), Trim(dirs[0]));
    } else if 1 < |dirs| {
      UniqueCovers(dirs[1..]);
      assert dirs[1..][0] == dirs[1];
      FirstIsCovered(dirs);
      forall d | d in dirs ensures Covers(Unique(dirs), d) {
        if d in dirs[1..] {
          var u :| u in Unique(dirs[1..]) && ParentOrSame(Trim(d), Trim(u));
          assert u in Unique(dirs);
        }
      }
    }
  }

  lemma FirstIsCovered(dirs: seq<path>)
    requires 1 < |dirs| && Covers(Unique(dirs[1..]), dirs[1])
    ensures Covers(Unique(dirs), dirs[0])
  {
    hide Trim;
    if ParentOrSame(Trim(dirs[0]), Trim(dirs[1])) {
      var u :| u in Unique(dirs[1..]) && ParentOrSame(Trim(dirs[1]), Trim(u));
      ParentOrSameIsTransitive(Trim(dirs[0]), Trim(dirs[1]), Trim(u));
    } else {
      assert ParentOrSame(Trim(dirs[0]), Trim(dirs[0]));
      assert Unique(dirs)[0] == dirs[0];
    }
  }

  /** `strcmp` says at most 0. */
  predicate AtMost(a: path, b: path) {
    a == [] || (b != [] && (a[0] < b[0] || (a[0] == b[0] && AtMost(a[1..], b[1..]))))
  }

  /** Each directory is, without its `./` or `/`, at most the next one: what `qsort` leaves. */
  predicate Sorted(dirs: seq<path>) {
    forall i | 0 < i < |dirs| :: AtMost(Trim(dirs[i - 1]), Trim(dirs[i]))
  }

  lemma {:induction false} LongerIsMore(a: path, n: nat)
    requires n < |a|
    ensures !AtMost(a, a[..n])
  {
    if n != 0 {
      LongerIsMore(a[1..], n - 1);
      assert a[..n][1..] == a[1..][..n - 1];
    }
  }

  /** A parent of what `b` is a parent of is a parent of `b`, if it does not come behind it. */
  lemma ParentsInOrder(a: path, b: path, c: path)
    requires ParentOrSame(a, c) && ParentOrSame(b, c) && AtMost(a, b)
    ensures ParentOrSame(a, b)
  {
    if |b| < |a| {
      assert b == a[..|b|];
      LongerIsMore(a, |b|);
    } else {
      assert a == b[..|a|];
    }
  }

  lemma {:induction false} FirstKept(dirs: seq<path>)
    requires dirs != []
    ensures Unique(dirs) != [] && ParentOrSame(Trim(dirs[0]), Trim(Unique(dirs)[0]))
  {
    hide Trim;
    if 1 < |dirs| && ParentOrSame(Trim(dirs[0]), Trim(dirs[1])) {
      FirstKept(dirs[1..]);
      ParentOrSameIsTransitive(Trim(dirs[0]), Trim(dirs[1]), Trim(Unique(dirs)[0]));
    }
  }

  lemma SortedTail(dirs: seq<path>)
    requires Sorted(dirs) && dirs != []
    ensures Sorted(dirs[1..])
  {
    hide Trim, AtMost;
    var rest := dirs[1..];
    forall i | 0 < i < |rest| ensures AtMost(Trim(rest[i - 1]), Trim(rest[i])) {
      assert rest[i] == dirs[i + 1] && rest[i - 1] == dirs[i];
      assert AtMost(Trim(dirs[(i + 1) - 1]), Trim(dirs[i + 1]));
    }
  }

  /** No retained directory is a parent of the next retained one, or the same, the directories being sorted. */
  lemma {:induction false} UniqueIsReduced(dirs: seq<path>)
    requires Sorted(dirs)
    ensures var kept := Unique(dirs); forall i | 0 < i < |kept| :: !ParentOrSame(Trim(kept[i - 1]), Trim(kept[i]))
  {
    hide Trim, ParentOrSame, AtMost;
    if 1 < |dirs| {
      var rest := dirs[1..];
      SortedTail(dirs);
      UniqueIsReduced(rest);
      FirstKept(rest);
      if !ParentOrSame(Trim(dirs[0]), Trim(dirs[1])) {
        var next := Unique(rest)[0];
        if ParentOrSame(Trim(dirs[0]), Trim(next)) {
          ParentsInOrder(Trim(dirs[0]), Trim(dirs[1]), Trim(next));
        }
      }
    }
  }

  /** In another order that is not so. */
  lemma UnsortedIsNotReduced()
    ensures Unique(["a/b", "a", "a/b/c"]) == ["a/b", "a/b/c"] && ParentOrSame("a/b", "a/b/c")
  {
    assert !ParentOrSame("a/b", "a") && "a/b/c"[..1] == "a" && "a/b/c"[..3] == "a/b";
    var dirs := ["a/b", "a", "a/b/c"];
    assert dirs[1..] == ["a", "a/b/c"] && dirs[1..][1..] == ["a/b/c"];
    assert Trim("a/b") == "a/b" && Trim("a") == "a" && Trim("a/b/c") == "a/b/c";
    assert Unique(["a/b/c"]) == ["a/b/c"];
  }

  // ---- The creation ----

  /** The first separator at `from` or behind, or the length. */
  function NextSep(p: path, from: nat): (sp: nat)
    requires from <= |p|
    ensures from <= sp <= |p| && (sp < |p| ==> p[sp] == SEP) && forall i :: from <= i < sp ==> p[i] != SEP
    decreases |p| - from
  {
    if from == |p| || p[from] == SEP then from else NextSep(p, from + 1)
  }

  /** The directories that mirrorSrcDirRecursive makes from position `pp` on. */
  function Made(src: path, out: path, pp: nat): seq<path>
    requires pp <= |src|
    decreases |src| - pp
  {
    var sp := NextSep(src, pp);
    if sp == |src| then [Mirror(out, src)]
    else (if sp != pp then [Mirror(out, src[..sp])] else []) + Made(src, out, sp + 1)
  }

  function Begin(src: path): (pp: nat)
    ensures pp <= |src|
  {
    if StartsHere(src) then 2 else 0
  }

  lemma {:induction false} WholeIsMade(src: path, out: path, pp: nat)
    requires pp <= |src|
    ensures Mirror(out, src) in Made(src, out, pp)
    decreases |src| - pp
  {
    var sp := NextSep(src, pp);
    if sp < |src| {
      WholeIsMade(src, out, sp + 1);
    }
  }

  lemma {:induction false} PrefixIsMade(src: path, out: path, pp: nat, k: nat)
    requires pp < k < |src| && src[k] == SEP && src[k - 1] != SEP
    ensures Mirror(out, src[..k]) in Made(src, out, pp)
    decreases |src| - pp
  {
    hide Mirror;
    var sp := NextSep(src, pp);
    assert sp <= k;
    if sp < k {
      assert sp + 1 != k;
      PrefixIsMade(src, out, sp + 1, k);
    } else {
      assert Made(src, out, pp) == [Mirror(out, src[..sp])] + Made(src, out, sp + 1);
    }
  }

  /** How much is trimmed off. */
  function Lead(u: path): (lead: nat)
    ensures Begin(u) <= lead <= |u|
  {
    Begin(u) + if Begin(u) < |u| && u[Begin(u)] == SEP then 1 else 0
  }

  lemma TrimIs(u: path)
    ensures Trim(u) == u[Lead(u)..]
  {
    if StartsHere(u) {
      assert u[2..] != [] ==> u[2..][0] == u[2] && u[2..][1..] == u[3..];
    }
  }

  /** A prefix of what is left is what is left of a prefix. */
  lemma TrimOfPrefix(u: path, n: nat)
    requires 1 <= n <= |Trim(u)|
    ensures Lead(u) + |Trim(u)| == |u| && u[Lead(u)..] == Trim(u)
    ensures Trim(u[..Lead(u) + n]) == Trim(u)[..n]
  {
    TrimIs(u);
    var lead := Lead(u);
    var v := u[..lead + n];
    assert StartsHere(v) <==> StartsHere(u);
    assert Lead(v) == lead;
    TrimIs(v);
    hide Trim, Lead;
    assert v[lead..] == u[lead..][..n];
  }

  /** All ancestors of a kept directory are made, and itself. */
  lemma AncestorIsMade(u: path, out: path, t: path)
    requires ParentOrSame(t, Trim(u)) && EndsInName(t)
    ensures Join(out, t) in Made(u, out, Begin(u))
  {
    TrimOfPrefix(u, |t|);
    hide Trim, Made, Begin, Lead;
    var lead := Lead(u);
    if |t| == |Trim(u)| {
      WholeIsMade(u, out, Begin(u));
      assert t == Trim(u);
    } else {
      var k := lead + |t|;
      assert u[k] == u[lead..][|t|] == SEP;
      assert u[k - 1] == u[lead..][|t| - 1] == Trim(u)[..|t|][|t| - 1] == t[|t| - 1];
      PrefixIsMade(u, out, Begin(u), k);
      assert Trim(u[..k]) == t;
    }
  }

  function AllMade(kept: seq<path>, out: path): seq<path> {
    if kept == [] then [] else Made(kept[0], out, Begin(kept[0])) + AllMade(kept[1..], out)
  }

  lemma {:induction false} MadeIsAmongAll(kept: seq<path>, out: path, u: path, d: path)
    requires u in kept && d in Made(u, out, Begin(u))
    ensures d in AllMade(kept, out)
  {
    if u != kept[0] {
      MadeIsAmongAll(kept[1..], out, u, d);
    }
  }

  /** The reduction loses nothing: below the output directory, the mirror of every source directory and of
      each of its ancestors is made. */
  lemma EveryDirectoryIsMirrored(dirs: seq<path>, out: path, d: path, t: path)
    requires d in dirs && ParentOrSame(t, Trim(d)) && EndsInName(t)
    ensures Join(out, t) in AllMade(Unique(dirs), out)
  {
    hide Trim, Made, AllMade, Unique;
    UniqueCovers(dirs);
    var u :| u in Unique(dirs) && ParentOrSame(Trim(d), Trim(u));
    ParentOrSameIsTransitive(t, Trim(d), Trim(u));
    AncestorIsMade(u, out, t);
    MadeIsAmongAll(Unique(dirs), out, u, Join(out, t));
  }

  /** Minimality is not promised: `a-b` sorts between `a` and `a/c`, which keeps `a`. */
  lemma ReductionNeedNotBeMinimal()
    ensures Unique(["a", "a-b", "a/c"]) == ["a", "a-b", "a/c"] && ParentOrSame("a", "a/c")
  {
    assert !ParentOrSame("a", "a-b") && !ParentOrSame("a-b", "a/c");
    var dirs := ["a", "a-b", "a/c"];
    assert dirs[1..] == ["a-b", "a/c"] && dirs[1..][1..] == ["a/c"];
    assert Trim("a") == "a" && Trim("a-b") == "a-b" && Trim("a/c") == "a/c";
    assert Unique(["a/c"]) == ["a/c"];
  }

  // ---- The C functions ----

  /** The directory part as the C code computes it. */
  function DirName(p: path): path {
    var sp := LastSep(p);
    if sp == |p| then "." else p[..sp]
  }

  /** `strrchr`: the last separator, or the length when there is none. */
  function LastSep(p: path): (sp: nat)
    ensures sp <= |p| && (sp < |p| ==> p[sp] == SEP && forall i :: sp < i < |p| ==> p[i] != SEP)
    ensures sp == |p| ==> SEP !in p
  {
    if p == [] then 0
    else
      var n := |p| - 1;
      if p[n] == SEP then n
      else
        var sp := LastSep(p[..n]);
        if sp == n then |p| else sp
  }

  /** A buffer that holds `p` and its terminator. */
  ghost predicate Holds(pathname: array<char>, p: path)
    reads pathname
  {
    |p| < pathname.Length && pathname[..|p|] == p && pathname[|p|] == '\0' && '\0' !in p
  }

  /** convertPathnameToDirName. Its loop that is to remove trailing separators starts at the
      terminator, where there is none: it never runs. */
  method ConvertPathnameToDirName(pathname: array<char>, ghost p: path)
    requires p != [] && Holds(pathname, p)
    modifies pathname
    ensures Holds(pathname, DirName(p))
  {
    var len := StrLen(pathname, p);
    assert pathname[len] != SEP;
    var pos := StrRChr(pathname, len, p);
    if pos == len {
      pathname[0] := '.';
      pathname[1] := '\0';
    } else {
      pathname[pos] := '\0';
    }
  }

  /** So a directory named with a trailing separator stands for itself, not for its parent. */
  lemma TrailingSeparatorStays(d: path)
    ensures DirName(d + [SEP]) == d
  {
  }

  function Stripped(p: path): (q: path)
    ensures q <= p && (q != [] ==> q[|q| - 1] != SEP) && forall i | |q| <= i < |p| :: p[i] == SEP
  {
    if p == [] || p[|p| - 1] != SEP then p else Stripped(p[..|p| - 1])
  }

  /** What the comments in the function say it computes: the name without its trailing separators, without
      its last part; "." when that is the only part, and `nothing` when no part is left. */
  function PromisedDirName(p: path, nothing: path): path {
    var q := Stripped(p);
    if q == [] then nothing else DirName(q)
  }

  /** With dirname's "." for an empty name, the promise is kept for the names that do not end in a separator,
      and for the current directory. */
  lemma {:induction false} PromiseKeptIff(p: path)
    requires p != []
    ensures DirName(p) == PromisedDirName(p, ".") <==> p[|p| - 1] != SEP || p == "./"
  {
    PromiseKeptFor(p, ".");
  }

  /** With the empty name that the early return leaves, also for the root. */
  lemma {:induction false} PromiseKeptWithEmptyIff(p: path)
    requires p != []
    ensures DirName(p) == PromisedDirName(p, "") <==> p[|p| - 1] != SEP || p == "./" || p == "/"
  {
    PromiseKeptFor(p, "");
  }

  lemma {:induction false} PromiseKeptFor(p: path, nothing: path)
    requires p != []
    ensures DirName(p) == PromisedDirName(p, nothing)
       <==> p[|p| - 1] != SEP || p == "./" || (Stripped(p) == [] && p == nothing + [SEP])
  {
    var n, q := |p| - 1, Stripped(p);
    if p[n] == SEP {
      assert |q| <= n && DirName(p) == p[..n];
      assert p == p[..n] + [SEP];
      if q == [] {
        assert p[0] == SEP && p != "./";
        assert p == nothing + [SEP] <==> p[..n] == nothing by {
          if p == nothing + [SEP] {
            assert (nothing + [SEP])[..|nothing|] == nothing;
          }
        }
      } else if LastSep(q) == |q| {
        OnePart(p, q);
      } else {
        assert |DirName(q)| < |q|;
        assert p == "./" ==> q == ".";
      }
    }
  }

  /** A single part and separators. */
  lemma OnePart(p: path, q: path)
    requires p != [] && p[|p| - 1] == SEP && q == Stripped(p) != [] && |q| < |p|
    ensures p[..|p| - 1] == "." <==> p == "./"
  {
    var n := |p| - 1;
    assert p == p[..n] + [SEP];
  }

  method StrLen(pathname: array<char>, ghost p: path) returns (len: nat)
    requires Holds(pathname, p)
    ensures len == |p|
  {
    len := 0;
    while pathname[len] != '\0'
      invariant len <= |p| && forall i :: 0 <= i < |p| ==> pathname[i] == p[i] && p[i] != '\0'
      decreases |p| - len
    {
      len := len + 1;
    }
  }

  method StrRChr(pathname: array<char>, len: nat, ghost p: path) returns (pos: nat)
    requires Holds(pathname, p) && len == |p|
    ensures pos == LastSep(p)
  {
    var i: nat := len;
    assert p[..len] == p;
    while 0 < i
      invariant i <= len && LastSep(p) == if LastSep(p[..i]) == i then len else LastSep(p[..i])
    {
      i := i - 1;
      assert pathname[i] == p[i];
      assert p[..i + 1][..i] == p[..i];
      if pathname[i] == SEP {
        return i;
      }
    }
    pos := len;
  }

  /** Where directories are made; `allowed` says for which `mkdir` succeeds. */
  class FileSystem {
    const allowed: path -> bool
    var made: seq<path>

    constructor (allowed: path -> bool)
      ensures this.allowed == allowed && made == []
    {
      this.allowed, made := allowed, [];
    }

    method MakeDir(dir: path) returns (status: int)
      modifies this
      ensures status == 0 <==> allowed(dir)
      ensures made == old(made) + if allowed(dir) then [dir] else []
    {
      if allowed(dir) {
        made := made + [dir];
        status := 0;
      } else {
        status := -1;
      }
    }
  }

  /** The directories are made up to the first that cannot be. */
  function MadeUntilFailure(allowed: path -> bool, dirs: seq<path>): seq<path> {
    if dirs == [] || !allowed(dirs[0]) then [] else [dirs[0]] + MadeUntilFailure(allowed, dirs[1..])
  }

  predicate AllAllowed(allowed: path -> bool, dirs: seq<path>) {
    forall d <- dirs :: allowed(d)
  }

  lemma {:induction false} NoFailure(allowed: path -> bool, dirs: seq<path>)
    requires AllAllowed(allowed, dirs)
    ensures MadeUntilFailure(allowed, dirs) == dirs
  {
    if dirs != [] {
      NoFailure(allowed, dirs[1..]);
    }
  }

  /** `strchr`: where the next separator is, from `from` on. */
  function Found(p: path, from: nat): Option<nat>
    requires from <= |p|
  {
    if NextSep(p, from) == |p| then None else Some(NextSep(p, from))
  }

  method StrChr(pathname: array<char>, from: nat, ghost p: path) returns (sp: Option<nat>)
    requires Holds(pathname, p) && from <= |p|
    ensures sp == Found(p, from)
  {
    var i := from;
    while pathname[i] != '\0'
      invariant from <= i <= |p| && NextSep(p, from) == NextSep(p, i)
      invariant forall k :: 0 <= k < |p| ==> pathname[k] == p[k] && p[k] != '\0'
      decreases |p| - i
    {
      if pathname[i] == SEP {
        return Some(i);
      }
      i := i + 1;
    }
    sp := None;
  }

  method ReadString(pathname: array<char>, ghost p: path) returns (s: path)
    requires Holds(pathname, p)
    ensures s == p
  {
    var len := StrLen(pathname, p);
    s := pathname[..len];
  }

  /** mirrorSrcDir */
  method MirrorSrcDir(srcDirName: array<char>, ghost p: path, out: path, fs: FileSystem) returns (status: int)
    requires Holds(srcDirName, p)
    modifies fs
    ensures status == 0 <==> fs.allowed(Mirror(out, p))
    ensures fs.made == old(fs.made) + if fs.allowed(Mirror(out, p)) then [Mirror(out, p)] else []
  {
    var s := ReadString(srcDirName, p);
    status := fs.MakeDir(Join(out, Trim(s)));
  }

  /** The directory that ends at separator `sp` is made while a terminator stands there. */
  method MirrorPrefix(srcDirName: array<char>, ghost p: path, sp: nat, out: path, fs: FileSystem) returns (status: int)
    requires Holds(srcDirName, p) && sp < |p| && p[sp] == SEP
    modifies srcDirName, fs
    ensures status == 0 <==> fs.allowed(Mirror(out, p[..sp]))
    ensures fs.made == old(fs.made) + if fs.allowed(Mirror(out, p[..sp])) then [Mirror(out, p[..sp])] else []
    ensures status == 0 ==> Holds(srcDirName, p) && srcDirName[..] == old(srcDirName[..])
    ensures status != 0 ==> Holds(srcDirName, p[..sp])
  {
    srcDirName[sp] := '\0';
    status := MirrorSrcDir(srcDirName, p[..sp], out, fs);
    if status != 0 {
      return;
    }
    srcDirName[sp] := SEP;
  }

  lemma MadeStep(allowed: path -> bool, p: path, out: path, pp: nat)
    requires pp <= |p| && NextSep(p, pp) < |p|
    ensures var sp := NextSep(p, pp); var d := Mirror(out, p[..sp]);
      if sp == pp then Made(p, out, pp) == Made(p, out, sp + 1)
      else
        && Made(p, out, pp) == [d] + Made(p, out, sp + 1)
        && (AllAllowed(allowed, Made(p, out, pp)) <==> allowed(d) && AllAllowed(allowed, Made(p, out, sp + 1)))
        && MadeUntilFailure(allowed, Made(p, out, pp))
           == if allowed(d) then [d] + MadeUntilFailure(allowed, Made(p, out, sp + 1)) else []
  {
    hide Mirror;
    var sp := NextSep(p, pp);
    if sp != pp {
      var d := Mirror(out, p[..sp]);
      var rest := Made(p, out, sp + 1);
      assert ([d] + rest)[1..] == rest && ([d] + rest)[0] == d;
    } else {
      assert [] + Made(p, out, sp + 1) == Made(p, out, sp + 1);
    }
  }

  /** mirrorSrcDirRecursive: the directory and its ancestors are made, ancestors first. When one cannot
      be made, the rest is not tried. */
  method MirrorSrcDirRecursive(srcDirName: array<char>, ghost p: path, out: path, fs: FileSystem) returns (status: int)
    requires Holds(srcDirName, p)
    modifies srcDirName, fs
    ensures fs.made == old(fs.made) + MadeUntilFailure(fs.allowed, Made(p, out, Begin(p)))
    ensures status == 0 <==> AllAllowed(fs.allowed, Made(p, out, Begin(p)))
    ensures status == 0 ==> srcDirName[..] == old(srcDirName[..])
  {
    hide Made, Mirror, AllAllowed, MadeUntilFailure, Holds;
    var pp := BeginOf(srcDirName, p);
    ghost var all := Made(p, out, pp);
    ghost var before := fs.made;
    var sp := StrChr(srcDirName, pp, p);
    while sp.Some?
      invariant Holds(srcDirName, p) && srcDirName[..] == old(srcDirName[..])
      invariant pp <= |p| && sp == Found(p, pp)
      invariant fs.made + MadeUntilFailure(fs.allowed, Made(p, out, pp)) == before + MadeUntilFailure(fs.allowed, all)
      invariant AllAllowed(fs.allowed, all) <==> AllAllowed(fs.allowed, Made(p, out, pp))
      decreases |p| - pp
    {
      MadeStep(fs.allowed, p, out, pp);
      ghost var rest := MadeUntilFailure(fs.allowed, Made(p, out, sp.value + 1));
      ghost var d := Mirror(out, p[..sp.value]);
      ghost var made := fs.made;
      if sp.value != pp {
        status := MirrorPrefix(srcDirName, p, sp.value, out, fs);
        if status != 0 {
          return;
        }
        ConcatAssociates(made, [d], rest);
      }
      pp := sp.value + 1;
      sp := StrChr(srcDirName, pp, p);
    }
    MadeLast(fs.allowed, p, out, pp);
    status := MirrorSrcDir(srcDirName, p, out, fs);
  }

  lemma MadeLast(allowed: path -> bool, p: path, out: path, pp: nat)
    requires pp <= |p| && NextSep(p, pp) == |p|
    ensures AllAllowed(allowed, Made(p, out, pp)) <==> allowed(Mirror(out, p))
    ensures MadeUntilFailure(allowed, Made(p, out, pp)) == if allowed(Mirror(out, p)) then [Mirror(out, p)] else []
  {
    hide Mirror;
    assert Made(p, out, pp) == [Mirror(out, p)];
  }

  method BeginOf(pathname: array<char>, ghost p: path) returns (pp: nat)
    requires Holds(pathname, p)
    ensures pp == Begin(p)
  {
    var s := ReadString(pathname, p);
    pp := if StartsHere(s) then 2 else 0;
  }

  /** The loop body: the current name replaces the previous one, or follows it. */
  method KeepOne(names: array<path>, nr: nat, prevDirName: path, currDirName: path) returns (next: nat)
    requires 1 <= nr < names.Length && names[nr - 1] == prevDirName
    modifies names
    ensures next == nr + (if ParentOrSame(Trim(prevDirName), Trim(currDirName)) then 0 else 1)
    ensures names[next - 1] == currDirName
    ensures names[..next - 1] == old(names[..nr - 1]) + if next == nr then [] else [prevDirName]
  {
    hide Trim, ParentOrSame;
    next := nr;
    if !ParentOrSame(Trim(prevDirName), Trim(currDirName)) {
      next := nr + 1;
    }
    names[next - 1] := currDirName;
  }

  /** makeUniqueMirroredDestDirs once `qsort` has put the directories in whatever order it does:
      the ones that the reduction keeps. */
  method KeepUnique(srcDirNames: seq<path>) returns (uniqueDirNames: seq<path>)
    ensures uniqueDirNames == Unique(srcDirNames)
  {
    if srcDirNames == [] {
      return [];
    }
    var names := new path[|srcDirNames|](_ requires true => []);
    uniqueDirNames := KeepIn(names, srcDirNames);
  }

  method KeepIn(names: array<path>, srcDirNames: seq<path>) returns (uniqueDirNames: seq<path>)
    requires names.Length == |srcDirNames| && srcDirNames != []
    modifies names
    ensures uniqueDirNames == Unique(srcDirNames)
  {
    hide Unique, Trim, ParentOrSame;
    var uniqueDirNr := 1;
    names[0] := srcDirNames[0];
    var i := 1;
    assert srcDirNames[0..] == srcDirNames && names[..0] == [];
    while i < |srcDirNames|
      invariant 1 <= i <= |srcDirNames| && 1 <= uniqueDirNr <= i && names[uniqueDirNr - 1] == srcDirNames[i - 1]
      invariant names[..uniqueDirNr - 1] + Unique(srcDirNames[i - 1..]) == Unique(srcDirNames)
    {
      UniqueStep(srcDirNames, i);
      Associates(names[..uniqueDirNr - 1], srcDirNames[i - 1], Unique(srcDirNames[i..]));
      uniqueDirNr := KeepOne(names, uniqueDirNr, srcDirNames[i - 1], srcDirNames[i]);
      i := i + 1;
    }
    UniqueOfLast(srcDirNames[i - 1..]);
    uniqueDirNames := Firsts(names, uniqueDirNr);
  }

  method Firsts(names: array<path>, n: nat) returns (s: seq<path>)
    requires 1 <= n <= names.Length
    ensures s == names[..n - 1] + [names[n - 1]]
  {
    s := names[..n];
  }

  lemma Associates(a: seq<path>, x: path, b: seq<path>)
    ensures a + ([x] + b) == (a + [x]) + b && a + [] == a
  {
  }

  lemma UniqueStep(dirs: seq<path>, i: nat)
    requires 1 <= i < |dirs|
    ensures Unique(dirs[i - 1..]) ==
      if ParentOrSame(Trim(dirs[i - 1]), Trim(dirs[i])) then Unique(dirs[i..]) else [dirs[i - 1]] + Unique(dirs[i..])
  {
    hide Trim, ParentOrSame;
    assert dirs[i - 1..][1..] == dirs[i..];
  }

  lemma UniqueOfLast(dirs: seq<path>)
    requires |dirs| == 1
    ensures Unique(dirs) == dirs
  {
  }

  /** What is made for the kept directories: for each of them up to the first failure. */
  function Attempted(allowed: path -> bool, kept: seq<path>, out: path): seq<path> {
    if kept == [] then []
    else MadeUntilFailure(allowed, Made(kept[0], out, Begin(kept[0]))) + Attempted(allowed, kept[1..], out)
  }

  lemma {:induction false} AttemptedIsAll(allowed: path -> bool, kept: seq<path>, out: path)
    requires AllAllowed(allowed, AllMade(kept, out))
    ensures Attempted(allowed, kept, out) == AllMade(kept, out)
  {
    hide Made;
    if kept != [] {
      var now, later := Made(kept[0], out, Begin(kept[0])), AllMade(kept[1..], out);
      assert forall d <- now :: d in now + later;
      assert forall d <- later :: d in now + later;
      NoFailure(allowed, now);
      AttemptedIsAll(allowed, kept[1..], out);
    }
  }

  /** makeMirroredDestDirsWithSameSrcDirMode: what one directory's failure skips, the others do not. */
  method MirrorAll(kept: seq<path>, out: path, fs: FileSystem)
    requires forall u <- kept :: '\0' !in u
    modifies fs
    ensures fs.made == old(fs.made) + Attempted(fs.allowed, kept, out)
  {
    hide Made, MadeUntilFailure;
    var i := 0;
    assert kept[0..] == kept;
    while i < |kept|
      invariant i <= |kept|
      invariant fs.made + Attempted(fs.allowed, kept[i..], out) == old(fs.made) + Attempted(fs.allowed, kept, out)
    {
      assert kept[i..][1..] == kept[i + 1..] && kept[i..][0] == kept[i];
      ghost var now := MadeUntilFailure(fs.allowed, Made(kept[i], out, Begin(kept[i])));
      ghost var later := Attempted(fs.allowed, kept[i + 1..], out);
      assert fs.made + (now + later) == (fs.made + now) + later;
      var buffer := Duplicate(kept[i]);
      var _ := MirrorSrcDirRecursive(buffer, kept[i], out, fs);
      i := i + 1;
    }
  }

  /** `strdup` */
  method Duplicate(p: path) returns (buffer: array<char>)
    requires '\0' !in p
    ensures fresh(buffer) && Holds(buffer, p)
  {
    buffer := new char[|p| + 1];
    var i := 0;
    while i < |p|
      invariant i <= |p| && buffer[..i] == p[..i]
    {
      buffer[i] := p[i];
      i := i + 1;
    }
    buffer[|p|] := '\0';
    assert buffer[..|p|] == p;
  }

  /** The reduction and the creation together: what is attempted, and that, when nothing of it fails, the mirror
      of every source directory `d` and of each of its ancestors `t` is made. */
  method MakeUniqueMirroredDestDirs(srcDirNames: seq<path>, out: path, fs: FileSystem, ghost d: path, ghost t: path)
    requires forall u <- srcDirNames :: '\0' !in u
    modifies fs
    ensures fs.made == old(fs.made) + Attempted(fs.allowed, Unique(srcDirNames), out)
    ensures AllAllowed(fs.allowed, AllMade(Unique(srcDirNames), out)) ==>
      d in srcDirNames && ParentOrSame(t, Trim(d)) && EndsInName(t) ==> Join(out, t) in fs.made
  {
    hide Made, Unique, AllMade, Attempted, Trim, ParentOrSame, AllAllowed;
    UniqueCovers(srcDirNames);
    var kept := KeepUnique(srcDirNames);
    MirrorAll(kept, out, fs);
    if AllAllowed(fs.allowed, AllMade(kept, out)) && d in srcDirNames && ParentOrSame(t, Trim(d)) && EndsInName(t) {
      EveryDirectoryIsMirrored(srcDirNames, out, d, t);
      AttemptedIsAll(fs.allowed, kept, out);
    }
  }
}
