/** The file system as the tree functions of myio.c see it: a map from paths to nodes. */
module Disk {

  /** A path is the list of its names, so the PATH_LEN cut of the source's text does not arise. */
  type Path = seq<string>

  datatype Node = File(data: string) | Dir

  type Fs = map<Path, Node>

  datatype Entry = Nothing | Something(node: Node)

  function At(fs: Fs, p: Path): Entry {
    if p in fs then Something(fs[p]) else Nothing
  }

  predicate IsDir(fs: Fs, p: Path) {
    At(fs, p) == Something(Dir)
  }

  function Parent(p: Path): Path
    requires p != []
  {
    p[..|p| - 1]
  }

  /** The root is a directory, and so is the parent of every other node. */
  ghost predicate Tree(fs: Fs) {
    IsDir(fs, []) && forall p :: p in fs && p != [] ==> IsDir(fs, Parent(p))
  }

  /** Every directory on the way to a node exists. */
  lemma {:induction false} AncestorsExist(fs: Fs, p: Path, q: Path)
    requires Tree(fs) && q in fs && p <= q && p != q
    ensures IsDir(fs, p)
    decreases |q|
  {
    if Parent(q) != p {
      assert p <= Parent(q);
      AncestorsExist(fs, p, Parent(q));
    }
  }

  /** The names in a directory. */
  function Children(fs: Fs, p: Path): set<string> {
    set q | q in fs && |q| == |p| + 1 && p <= q :: q[|p|]
  }

  lemma ChildIs(fs: Fs, p: Path, n: string)
    ensures n in Children(fs, p) <==> p + [n] in fs
  {
    if n in Children(fs, p) {
      var q :| q in fs && |q| == |p| + 1 && p <= q && q[|p|] == n;
      assert q == p + [n];
    }
    if p + [n] in fs {
      assert (p + [n])[|p|] == n;
    }
  }

  /** What is left of `was` when `bytes` are written over its beginning. */
  function Overwritten(was: string, bytes: string): string {
    bytes + if |bytes| < |was| then was[|bytes|..] else []
  }

  /** Neither path lies inside the other. */
  predicate Apart(p: Path, q: Path) {
    !(p <= q) && !(q <= p)
  }

  /** The file system with the tree at p hanging at q instead. */
  function Grafted(fs: Fs, p: Path, q: Path): Fs {
    map x | x in (set y | y in fs && !(p <= y)) + (set y | y in fs && p <= y :: q + y[|p|..])
      :: if q <= x && p + x[|q|..] in fs then fs[p + x[|q|..]] else if x in fs then fs[x] else Dir
  }

  lemma GraftedBelow(fs: Fs, p: Path, q: Path, rel: Path)
    requires IsDir(fs, p) && Apart(p, q) && forall y: Path :: q <= y && y in fs ==> y == q
    ensures At(Grafted(fs, p, q), q + rel) == At(fs, p + rel)
  {
    var x := q + rel;
    assert x[|q|..] == rel && (p + rel)[|p|..] == rel && p <= p + rel;
    forall y | y in fs && p <= y && q + y[|p|..] == x
      ensures y == p + rel
    {
      assert (q + y[|p|..])[|q|..] == y[|p|..];
    }
    if x in fs {
      assert x == q && rel == [] && p + rel == p;
    }
  }

  lemma GraftedAway(fs: Fs, p: Path, q: Path, y: Path)
    requires Apart(p, q) && p <= y
    ensures y !in Grafted(fs, p, q)
  {
    forall z | z in fs && p <= z
      ensures q + z[|p|..] != y
    {
      assert q <= q + z[|p|..];
    }
  }

  lemma GraftedAt(fs: Fs, p: Path, q: Path)
    requires IsDir(fs, p) && Apart(p, q) && forall y: Path :: q <= y && y in fs ==> y == q
    ensures forall rel: Path :: At(Grafted(fs, p, q), q + rel) == At(fs, p + rel)
    ensures forall y: Path :: p <= y ==> y !in Grafted(fs, p, q)
    ensures forall y: Path :: !(p <= y) && !(q <= y) ==> At(Grafted(fs, p, q), y) == At(fs, y)
  {
    forall rel: Path {
      GraftedBelow(fs, p, q, rel);
    }
    forall y: Path | p <= y {
      GraftedAway(fs, p, q, y);
    }
  }

  /** Every node of the new tree hangs in a directory. */
  lemma GraftedParent(fs: Fs, fs': Fs, p: Path, q: Path, x: Path)
    requires Tree(fs) && q != [] && IsDir(fs, p) && IsDir(fs, Parent(q)) && Apart(p, q)
    requires forall rel: Path :: At(fs', q + rel) == At(fs, p + rel)
    requires forall y: Path :: !(p <= y) && !(q <= y) ==> At(fs', y) == At(fs, y)
    requires x in fs' && x != [] && !(p <= x)
    ensures IsDir(fs', Parent(x))
  {
    if q <= x && q != x {
      var rel := x[|q|..];
      assert x == q + rel && Parent(x) == q + Parent(rel) && Parent(p + rel) == p + Parent(rel);
      assert At(fs', q + rel) == At(fs, p + rel);
      assert At(fs', q + Parent(rel)) == At(fs, p + Parent(rel));
    } else {
      assert !(q <= Parent(x)) && !(p <= Parent(x));
      assert At(fs', Parent(x)) == At(fs, Parent(x));
      assert x != q ==> At(fs', x) == At(fs, x);
    }
  }

  lemma GraftedIsTree(fs: Fs, p: Path, q: Path)
    requires Tree(fs) && q != [] && IsDir(fs, p) && Apart(p, q) && IsDir(fs, Parent(q))
    requires forall y: Path :: q <= y && y in fs ==> y == q
    ensures Tree(Grafted(fs, p, q))
  {
    GraftedAt(fs, p, q);
    var fs' := Grafted(fs, p, q);
    forall x | x in fs' && x != []
      ensures IsDir(fs', Parent(x))
    {
      GraftedParent(fs, fs', p, q, x);
    }
    assert At(fs', []) == At(fs, []);
  }

  /** A directory's new name may be that of an empty directory, but of nothing else. */
  ghost predicate FreeName(fs: Fs, q: Path) {
    forall y: Path :: q <= y && y in fs ==> y == q && IsDir(fs, q)
  }

  lemma NewNameIsFree(fs: Fs, q: Path)
    requires Tree(fs) && q !in fs
    ensures FreeName(fs, q)
  {
    forall y: Path | q <= y
      ensures y !in fs
    {
      if y in fs {
        AncestorsExist(fs, q, y);
      }
    }
  }

  /** A file under a new name that is no directory's leaves the tree a tree. */
  lemma RenamedIsTree(fs: Fs, p: Path, q: Path)
    requires Tree(fs) && p in fs && fs[p].File? && q != [] && p != q && !IsDir(fs, q) && IsDir(fs, Parent(q))
    ensures Tree((fs - {p})[q := fs[p]])
  {
    var fs' := (fs - {p})[q := fs[p]];
    forall y | y in fs' && y != []
      ensures IsDir(fs', Parent(y))
    {
      assert IsDir(fs, Parent(y));
      assert Parent(y) != p && Parent(y) != q;
    }
  }

  datatype Renamed = Done | OtherDevice | Failed

  /** What the coming reads do: a positive number is the most that one delivers, any other an error. */
  predicate Readable(script: seq<int>) {
    forall r :: r in script ==> r > 0
  }

  function Min(a: int, b: int): int {
    if a < b then a else b
  }

  /** The result of a read of at most n bytes with so many left; when the script is used up, reads are full. */
  function ReadResult(script: seq<int>, n: nat, left: nat): (r: int)
    ensures r <= left && r <= n
  {
    if script == [] then Min(n, left)
    else if script[0] <= 0 then -1
    else Min(script[0], Min(n, left))
  }

  /**
   The disk. Every call may fail, unless the disk is healthy and the call is one that can succeed;
   which reads fail or come back short is written down in `script` in any case.
   */
  class Disk {
    var fs: Fs
    var script: seq<int>
    const device: Path -> int
    const healthy: bool

    ghost predicate Valid()
      reads this
    {
      Tree(fs)
    }

    constructor (script: seq<int>, device: Path -> int, healthy: bool)
      ensures Valid() && fs == map[[] := Dir]
      ensures this.script == script && this.device == device && this.healthy == healthy
    {
      this.healthy := healthy;
      fs := map[[] := Dir];
      this.script := script;
      this.device := device;
    }

    method Mkdir(p: Path) returns (ok: bool)
      requires Valid()
      modifies this`fs
      ensures Valid()
      ensures ok ==> p !in old(fs) && p != [] && IsDir(old(fs), Parent(p)) && fs == old(fs)[p := Dir]
      ensures healthy && p != [] && p !in old(fs) && IsDir(old(fs), Parent(p)) ==> ok
      ensures !ok ==> fs == old(fs)
    {
      ok := *;
      ok := (ok || healthy) && p !in fs && IsDir(fs, Parent(p));
      if ok {
        fs := fs[p := Dir];
      }
    }

    /** access, which answers no for whatever reason. */
    method Access(p: Path) returns (ok: bool)
      requires Valid()
      ensures ok ==> p in fs
      ensures healthy && p in fs ==> ok
    {
      ok := *;
      ok := (ok || healthy) && p in fs;
    }

    /** opendir and its readdir loop: the names, in whatever order the caller takes them. */
    method List(p: Path) returns (ok: bool, names: set<string>)
      requires Valid()
      ensures ok ==> IsDir(fs, p) && names == Children(fs, p)
      ensures healthy && IsDir(fs, p) ==> ok
    {
      ok := *;
      ok := (ok || healthy) && IsDir(fs, p);
      names := Children(fs, p);
    }

    /** rmdir removes empty directories only. */
    method Rmdir(p: Path) returns (ok: bool)
      requires Valid() && p != []
      modifies this`fs
      ensures Valid()
      ensures ok ==> IsDir(old(fs), p) && Children(old(fs), p) == {} && fs == old(fs) - {p}
      ensures healthy && IsDir(old(fs), p) && Children(old(fs), p) == {} ==> ok
      ensures !ok ==> fs == old(fs)
    {
      ok := *;
      ok := (ok || healthy) && IsDir(fs, p) && Children(fs, p) == {};
      if ok {
        forall q | q in fs && q != [] && q != p
          ensures Parent(q) != p
        {
          if Parent(q) == p {
            assert q == p + [q[|p|]];
            ChildIs(fs, p, q[|p|]);
          }
        }
        fs := fs - {p};
      }
    }

    method Unlink(p: Path) returns (ok: bool)
      requires Valid()
      modifies this`fs
      ensures Valid()
      ensures ok ==> p in old(fs) && old(fs)[p].File? && fs == old(fs) - {p}
      ensures healthy && p in old(fs) && old(fs)[p].File? ==> ok
      ensures !ok ==> fs == old(fs)
    {
      ok := *;
      ok := (ok || healthy) && p in fs && fs[p].File?;
      if ok {
        fs := fs - {p};
      }
    }

    /** rename of a file. Another device is one reason to fail, and there may be others first. */
    method RenameFile(p: Path, q: Path) returns (r: Renamed)
      requires Valid() && p in fs && fs[p].File? && q != [] && p != q
      modifies this`fs
      ensures Valid()
      ensures r == OtherDevice ==> device(p) != device(q)
      ensures r == Done ==> !IsDir(old(fs), q) && IsDir(old(fs), Parent(q))
      ensures r == Done ==> device(p) == device(q) && fs == (old(fs) - {p})[q := old(fs)[p]]
      ensures healthy && !IsDir(old(fs), q) && IsDir(old(fs), Parent(q)) ==>
        r == if device(p) == device(q) then Done else OtherDevice
      ensures r != Done ==> fs == old(fs)
    {
      var fails: bool := *;
      if (fails && !healthy) || IsDir(fs, q) || !IsDir(fs, Parent(q)) {
        return Failed;
      }
      if device(p) != device(q) {
        return OtherDevice;
      }
      RenamedIsTree(fs, p, q);
      fs := (fs - {p})[q := fs[p]];
      r := Done;
    }

    /** rename of a directory, to a new name or over an empty directory. */
    method RenameDir(p: Path, q: Path) returns (r: Renamed)
      requires Valid() && q != [] && !(p <= q)
      modifies this`fs
      ensures Valid()
      ensures r == OtherDevice ==> device(p) != device(q)
      ensures r == Done ==> device(p) == device(q)
      ensures r == Done ==> IsDir(old(fs), p) && IsDir(old(fs), Parent(q)) && FreeName(old(fs), q)
      ensures r == Done ==> Apart(p, q) && fs == Grafted(old(fs), p, q)
      ensures healthy && IsDir(old(fs), p) && IsDir(old(fs), Parent(q)) && FreeName(old(fs), q) ==>
        r == if device(p) == device(q) then Done else OtherDevice
      ensures r != Done ==> fs == old(fs)
    {
      var fails: bool := *;
      var above := set y | y in fs && q <= y;
      assert forall y: Path :: q <= y && y in fs <==> y in above;
      if (fails && !healthy) || !IsDir(fs, p) || !IsDir(fs, Parent(q)) || !(above <= {q}) || (q in fs && !IsDir(fs, q)) {
        return Failed;
      }
      if device(p) != device(q) {
        return OtherDevice;
      }
      assert Apart(p, q) by {
        assert q <= p ==> p in above;
      }
      GraftedIsTree(fs, p, q);
      fs := Grafted(fs, p, q);
      r := Done;
    }

    /** open for writing, creating the file if there is none. It is not truncated. */
    method OpenWrite(p: Path) returns (ok: bool)
      requires Valid() && p != []
      modifies this`fs
      ensures Valid()
      ensures ok ==> !IsDir(old(fs), p) && IsDir(old(fs), Parent(p))
      ensures healthy && !IsDir(old(fs), p) && IsDir(old(fs), Parent(p)) ==> ok
      ensures ok ==> fs == if p in old(fs) then old(fs) else old(fs)[p := File([])]
      ensures !ok ==> fs == old(fs)
    {
      ok := *;
      ok := (ok || healthy) && !IsDir(fs, p) && IsDir(fs, Parent(p));
      if ok && p !in fs {
        fs := fs[p := File([])];
      }
    }

    /** read at an offset: a piece, nothing at the end of the file, or an error. */
    method Read(p: Path, pos: nat, n: nat) returns (r: int, bytes: string)
      requires Valid() && p in fs && fs[p].File? && pos <= |fs[p].data| && n > 0
      modifies this`script
      ensures r == ReadResult(old(script), n, |fs[p].data| - pos)
      ensures r > 0 ==> bytes == fs[p].data[pos..pos + r]
      ensures script == if old(script) == [] then [] else old(script)[1..]
    {
      var data := fs[p].data;
      r := ReadResult(script, n, |data| - pos);
      bytes := if r > 0 then data[pos..pos + r] else [];
      if script != [] {
        script := script[1..];
      }
    }

    /** write at an offset that does not lie behind the end; some of it, or all. */
    method Write(p: Path, pos: nat, bytes: string) returns (wrote: int)
      requires Valid() && p in fs && fs[p].File? && pos <= |fs[p].data|
      modifies this`fs
      ensures Valid() && p in fs && fs[p].File? && fs == old(fs)[p := fs[p]]
      ensures healthy ==> wrote == |bytes|
      ensures wrote == |bytes| ==>
        fs[p].data == old(fs)[p].data[..pos] + Overwritten(old(fs)[p].data[pos..], bytes)
    {
      var data, k := fs[p].data, *;
      if healthy || k < 0 || k > |bytes| {
        k := |bytes|;
      }
      fs := fs[p := File(data[..pos] + Overwritten(data[pos..], bytes[..k]))];
      assert bytes[..|bytes|] == bytes;
      wrote := k;
    }
  }
}
