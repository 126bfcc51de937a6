/** Copying, moving and removing files and directory trees (myio.c). */
module FileTree {
  import opened Disk
  import Sets
  import opened Options

  /** The data of the file at p, nothing where there is no file. */
  function DataAt(fs: Fs, p: Path): string {
    if p in fs && fs[p].File? then fs[p].data else []
  }

  /** file_copy has copied the first `pos` bytes. */
  ghost predicate CopiedPart(fs0: Fs, fs: Fs, source: Path, dest: Path, pos: nat) {
    && pos <= |DataAt(fs0, source)|
    && fs == fs0[dest := File(Overwritten(DataAt(fs0, dest), DataAt(fs0, source)[..pos]))]
  }

  lemma ReadableTail(script: seq<int>)
    requires script != []
    ensures Readable(script) ==> script[0] > 0 && Readable(script[1..])
  {
    assert script[0] in script && forall r :: r in script[1..] ==> r in script;
  }

  /** How far the loop of file_copy comes: it takes a read error for the end of the file. */
  function Reach(script: seq<int>, size: nat, pos: nat): (end: nat)
    requires pos <= size
    ensures pos <= end <= size
    ensures Readable(script) ==> end == size
    decreases |script|
  {
    if script == [] then size
    else
      ReadableTail(script);
      var r := ReadResult(script, FILEBUF, size - pos);
      if r <= 0 then pos else Reach(script[1..], size, pos + r)
  }

  /** The copy is the original exactly if what it keeps of the old file is what should be there. */
  predicate Faithful(was: string, data: string, pos: nat)
    requires pos <= |data|
  {
    if |was| <= pos then pos == |data| else was[pos..] == data[pos..]
  }

  lemma CopyIsExact(fs0: Fs, fs: Fs, source: Path, dest: Path, pos: nat)
    requires source in fs0 && fs0[source].File? && CopiedPart(fs0, fs, source, dest, pos)
    ensures At(fs, dest) == At(fs0, source) <==> Faithful(DataAt(fs0, dest), DataAt(fs0, source), pos)
    ensures pos == |DataAt(fs0, source)| ==>
      (Faithful(DataAt(fs0, dest), DataAt(fs0, source), pos) <==> |DataAt(fs0, dest)| <= |DataAt(fs0, source)|)
  {
    var was, data := DataAt(fs0, dest), DataAt(fs0, source);
    assert data == data[..pos] + data[pos..];
    if |was| > pos {
      OverwrittenTail(data[..pos], was, data);
    }
  }

  lemma OverwrittenTail(front: string, was: string, data: string)
    requires front <= data && |front| < |was|
    ensures Overwritten(was, front) == data <==> was[|front|..] == data[|front|..]
  {
    assert (front + was[|front|..])[|front|..] == was[|front|..];
    assert data == front + data[|front|..];
  }

  /** What these functions return: success or an error code, and -1 where a call's own result is passed on. */
  predicate Code(retval: int) {
    retval == 0 || retval == ERR_FORBIDDEN || retval == ERR_FILENOTFOUND || retval == ERR_NOMEM || retval == ERR_BRKPIPE
  }

  /** A file may be opened for writing, or created, under this name. */
  predicate Writable(fs: Fs, dest: Path)
    requires dest != []
  {
    !IsDir(fs, dest) && IsDir(fs, Parent(dest))
  }

  /**
   file_copy. Only the destination changes. After a success it begins with all that the reads
   delivered, which is the whole source unless one failed, and it is a copy of the source
   exactly if nothing of a longer old file shows behind that.
   */
  method FileCopy(disk: Disk, source: Path, dest: Path) returns (retval: int)
    requires disk.Valid() && source in disk.fs && disk.fs[source].File? && dest != [] && source != dest
    modifies disk
    ensures disk.Valid() && (Readable(old(disk.script)) ==> Readable(disk.script))
    ensures disk.fs == old(disk.fs) || (!IsDir(old(disk.fs), dest) && WrittenOver(old(disk.fs), disk.fs, dest))
    ensures retval == 0 ==> Copied(old(disk.fs), disk.fs, source, dest, old(disk.script))
    ensures Code(retval) && (!Writable(old(disk.fs), dest) ==> retval == ERR_FORBIDDEN)
    ensures retval == ERR_FORBIDDEN ==> disk.fs == old(disk.fs)
    ensures disk.healthy && Writable(old(disk.fs), dest) ==> retval == 0
  {
    ghost var fs0, script := disk.fs, disk.script;
    var writable := disk.OpenWrite(dest);
    if !writable {
      return ERR_FORBIDDEN;
    }
    var found: bool := *;
    if !found && !disk.healthy {
      return ERR_FILENOTFOUND;
    }
    var memory: bool := *;
    if !memory && !disk.healthy {
      return ERR_NOMEM;
    }
    var pos: nat := 0;
    NothingCopied(fs0, disk.fs, source, dest);
    ghost var end := Reach(script, |DataAt(fs0, source)|, pos);
    var more, failed := true, false;
    while more && !failed
      invariant disk.Valid() && CopiedPart(fs0, disk.fs, source, dest, pos)
      invariant Readable(script) ==> Readable(disk.script)
      invariant disk.healthy ==> !failed
      invariant OnTheWay(end, disk.script, |DataAt(fs0, source)|, pos, more)
      decreases more, |DataAt(fs0, source)| - pos
    {
      pos, more, failed := CopyPiece(disk, source, dest, pos, fs0, end, |DataAt(fs0, source)|);
      if failed {
        return ERR_BRKPIPE;
      }
    }
    retval := 0;
    CopyIsExact(fs0, disk.fs, source, dest, pos);
  }

  /** What a successful file_copy leaves, given what the reads do, and when that is a copy. */
  ghost predicate Copied(fs0: Fs, fs: Fs, source: Path, dest: Path, script: seq<int>) {
    var was, data := DataAt(fs0, dest), DataAt(fs0, source);
    var pos := Reach(script, |data|, 0);
    && CopiedPart(fs0, fs, source, dest, pos)
    && (At(fs, dest) == At(fs0, source) <==> Faithful(was, data, pos))
    && (Readable(script) ==> (At(fs, dest) == At(fs0, source) <==> |was| <= |data|))
  }

  lemma NothingCopied(fs0: Fs, fs: Fs, source: Path, dest: Path)
    requires fs == (if dest in fs0 then fs0 else fs0[dest := File([])]) && !IsDir(fs0, dest)
    ensures CopiedPart(fs0, fs, source, dest, 0)
  {
    assert Overwritten(DataAt(fs0, dest), []) == DataAt(fs0, dest);
  }

  /** The loop of file_copy at this point comes as far as the whole loop. */
  ghost predicate OnTheWay(whole: nat, script: seq<int>, size: nat, pos: nat, more: bool) {
    pos <= size && whole == if more then Reach(script, size, pos) else pos
  }

  /** One round of the loop of file_copy. */
  method CopyPiece(disk: Disk, source: Path, dest: Path, pos: nat, ghost fs0: Fs, ghost end: nat, ghost size: nat)
    returns (pos': nat, more: bool, failed: bool)
    requires disk.Valid() && source in fs0 && fs0[source].File? && source != dest && size == |DataAt(fs0, source)|
    requires CopiedPart(fs0, disk.fs, source, dest, pos)
    requires OnTheWay(end, disk.script, size, pos, true)
    modifies disk
    ensures disk.Valid() && (Readable(old(disk.script)) ==> Readable(disk.script))
    ensures WrittenOver(fs0, disk.fs, dest)
    ensures !failed ==> CopiedPart(fs0, disk.fs, source, dest, pos') && (more ==> pos < pos')
    ensures !failed ==> OnTheWay(end, disk.script, size, pos', more)
    ensures disk.healthy ==> !failed
  {
    pos', failed := pos, false;
    PartIsOver(fs0, disk.fs, source, dest, pos);
    var got, buf := ReadPiece(disk, source, pos, size, end);
    more := got > 0;
    if more {
      SourceKept(fs0, disk.fs, source, dest, pos);
      failed := PutPiece(disk, source, dest, pos, buf, fs0);
      pos' := pos + got;
    }
  }

  /** Nothing but the file at dest is different. */
  ghost predicate WrittenOver(fs0: Fs, fs: Fs, dest: Path) {
    dest in fs && fs[dest].File? && fs == fs0[dest := fs[dest]]
  }

  lemma PartIsOver(fs0: Fs, fs: Fs, source: Path, dest: Path, pos: nat)
    requires CopiedPart(fs0, fs, source, dest, pos)
    ensures WrittenOver(fs0, fs, dest)
  {
  }

  lemma SourceKept(fs0: Fs, fs: Fs, source: Path, dest: Path, pos: nat)
    requires source in fs0 && fs0[source].File? && source != dest && CopiedPart(fs0, fs, source, dest, pos)
    ensures source in fs && fs[source] == fs0[source]
  {
  }

  /** Its read. */
  method ReadPiece(disk: Disk, source: Path, pos: nat, ghost size: nat, ghost end: nat) returns (got: int, buf: string)
    requires disk.Valid() && source in disk.fs && disk.fs[source].File? && size == |disk.fs[source].data|
    requires OnTheWay(end, disk.script, size, pos, true)
    modifies disk`script
    ensures Readable(old(disk.script)) ==> Readable(disk.script)
    ensures got > 0 ==> pos + got <= size && |buf| == got && buf == disk.fs[source].data[pos..pos + got]
    ensures OnTheWay(end, disk.script, size, if got > 0 then pos + got else pos, got > 0)
  {
    ReachStep(end, disk.script, size, pos);
    got, buf := disk.Read(source, pos, FILEBUF);
  }

  /** Its write. */
  method PutPiece(disk: Disk, source: Path, dest: Path, pos: nat, buf: string, ghost fs0: Fs) returns (failed: bool)
    requires disk.Valid() && source in fs0 && fs0[source].File? && source != dest
    requires CopiedPart(fs0, disk.fs, source, dest, pos)
    requires pos + |buf| <= |DataAt(fs0, source)| && buf == DataAt(fs0, source)[pos..pos + |buf|]
    modifies disk`fs
    ensures disk.Valid() && WrittenOver(fs0, disk.fs, dest)
    ensures !failed ==> CopiedPart(fs0, disk.fs, source, dest, pos + |buf|)
    ensures disk.healthy ==> !failed
  {
    WriteOn(DataAt(fs0, dest), DataAt(fs0, source), pos, pos + |buf|);
    var wrote := disk.Write(dest, pos, buf);
    failed := wrote != |buf|;
  }

  /** What one read does to that. */
  lemma ReachStep(end: nat, script: seq<int>, size: nat, pos: nat)
    requires OnTheWay(end, script, size, pos, true)
    ensures var got := ReadResult(script, FILEBUF, size - pos);
      var rest := if script == [] then [] else script[1..];
      && OnTheWay(end, rest, size, if got > 0 then pos + got else pos, got > 0)
      && (Readable(script) ==> Readable(rest))
  {
    if script != [] {
      ReadableTail(script);
    }
  }

  /** Writing the next piece over what follows the copied part. */
  lemma WriteOn(was: string, data: string, pos: nat, end: nat)
    requires pos <= end <= |data|
    ensures var now := Overwritten(was, data[..pos]);
      pos <= |now| && now[..pos] + Overwritten(now[pos..], data[pos..end]) == Overwritten(was, data[..end])
  {
    assert data[..end] == data[..pos] + data[pos..end];
  }

  ghost predicate Same(a: Fs, b: Fs, p: Path) {
    At(a, p) == At(b, p)
  }

  /** A copy is like its original if it is the same or, where reads may fail, a file that is a beginning of it. */
  predicate Like(copy: Entry, orig: Entry, whole: bool) {
    copy == orig
    || (!whole && copy.Something? && orig.Something? && copy.node.File? && orig.node.File?
        && copy.node.data <= orig.node.data)
  }

  /**
   What copying or moving the node at src to dst may do, where dst does not lie inside src:
   nothing else changes, nothing that was at the destination changes, a copy leaves the source as it is,
   a move only takes things away from it, no file's data is lost, and after a success the
   destination is what the source was. Where reads may fail, this holds for the beginnings of
   the files that could be read.
   */
  ghost predicate Transferred(fs0: Fs, fs: Fs, src: Path, dst: Path, move: bool, ok: bool, whole: bool) {
    && (forall p: Path :: !(src <= p) && !(dst <= p) ==> Same(fs, fs0, p))
    && (forall p: Path :: dst <= p && p in fs0 ==> Same(fs, fs0, p))
    && (forall p: Path :: src <= p ==> Same(fs, fs0, p) || (move && p !in fs))
    && (forall rel: Path :: At(fs0, src + rel).Something? && At(fs0, src + rel).node.File? ==>
          Same(fs, fs0, src + rel) || Like(At(fs, dst + rel), At(fs0, src + rel), whole))
    && (ok ==> forall rel: Path :: Like(At(fs, dst + rel), At(fs0, src + rel), whole))
  }

  /**
   file_move: by rename, or by a copy and an unlink whose failure is not noticed. What it leaves
   at the destination is as exact as file_copy is; the source is given up all the same.
   */
  method FileMove(disk: Disk, source: Path, dest: Path) returns (retval: int)
    requires disk.Valid() && source in disk.fs && disk.fs[source].File? && dest != [] && source != dest
    modifies disk
    ensures disk.Valid() && (Readable(old(disk.script)) ==> Readable(disk.script))
    ensures forall p: Path :: p != source && p != dest ==> Same(disk.fs, old(disk.fs), p)
    ensures source in disk.fs ==> Same(disk.fs, old(disk.fs), source)
    ensures retval != 0 ==> source in disk.fs
    ensures retval == 0 && disk.device(source) == disk.device(dest) ==>
      source !in disk.fs && At(disk.fs, dest) == At(old(disk.fs), source)
    ensures retval == 0 && disk.device(source) != disk.device(dest) ==>
      MovedAcross(old(disk.fs), disk.fs, source, dest, old(disk.script))
    ensures Code(retval) && (!Writable(old(disk.fs), dest) ==> retval == -1 || retval == ERR_FORBIDDEN)
    ensures disk.healthy && Writable(old(disk.fs), dest) ==> retval == 0
    ensures disk.healthy && retval == 0 ==> source !in disk.fs
  {
    var renamed := disk.RenameFile(source, dest);
    if renamed == Done {
      return 0;
    }
    if renamed == Failed {
      return -1;
    }
    retval := CopyAndUnlink(disk, source, dest);
  }

  /** The move to another device. */
  method CopyAndUnlink(disk: Disk, source: Path, dest: Path) returns (retval: int)
    requires disk.Valid() && source in disk.fs && disk.fs[source].File? && dest != [] && source != dest
    modifies disk
    ensures disk.Valid() && (Readable(old(disk.script)) ==> Readable(disk.script))
    ensures forall p: Path :: p != source && p != dest ==> Same(disk.fs, old(disk.fs), p)
    ensures source in disk.fs ==> Same(disk.fs, old(disk.fs), source)
    ensures retval != 0 ==> source in disk.fs
    ensures retval == 0 ==> MovedAcross(old(disk.fs), disk.fs, source, dest, old(disk.script))
    ensures Code(retval) && (!Writable(old(disk.fs), dest) ==> retval == ERR_FORBIDDEN)
    ensures disk.healthy && Writable(old(disk.fs), dest) ==> retval == 0
    ensures disk.healthy && retval == 0 ==> source !in disk.fs
  {
    ghost var fs0, script := disk.fs, disk.script;
    retval := FileCopy(disk, source, dest);
    if retval == 0 {
      ghost var copied := disk.fs;
      var _ := disk.Unlink(source);
      UnlinkedAcross(fs0, copied, disk.fs, source, dest, script);
    }
  }

  lemma UnlinkedAcross(fs0: Fs, fs: Fs, fs': Fs, source: Path, dest: Path, script: seq<int>)
    requires source in fs0 && fs0[source].File? && source != dest && Copied(fs0, fs, source, dest, script)
    requires fs' == fs || fs' == fs - {source}
    ensures MovedAcross(fs0, fs', source, dest, script)
    ensures forall p: Path :: p != source && p != dest ==> Same(fs', fs0, p)
    ensures source in fs' ==> Same(fs', fs0, source)
  {
    assert At(fs', dest) == At(fs, dest);
  }

  /** The copy that a move to another device leaves, and when it is one. */
  ghost predicate MovedAcross(fs0: Fs, fs: Fs, source: Path, dest: Path, script: seq<int>) {
    var was, data := DataAt(fs0, dest), DataAt(fs0, source);
    var pos := Reach(script, |data|, 0);
    && At(fs, dest) == Something(File(Overwritten(was, data[..pos])))
    && (At(fs, dest) == At(fs0, source) <==> Faithful(was, data, pos))
    && (Readable(script) ==> (At(fs, dest) == At(fs0, source) <==> |was| <= |data|))
  }

  // ---- Where a success is not a copy ----

  const S: Path := ["s"]
  const D: Path := ["d"]

  /** "xy" copied over "abcd" leaves "xycd", and on a healthy disk it reports success. */
  method CopyOverLonger(disk: Disk) returns (retval: int)
    requires disk.fs == map[[] := Dir, S := File("xy"), D := File("abcd")] && disk.script == []
    modifies disk
    ensures retval == 0 ==> At(disk.fs, D) == Something(File("xycd"))
    ensures disk.healthy ==> retval == 0
  {
    assert disk.Valid() && Parent(D) == [];
    retval := FileCopy(disk, S, D);
    assert "xy"[..2] == "xy" && "xy" + "abcd"[2..] == "xycd";
  }

  /**
   A read error after two of four bytes: on a healthy disk the move reports success all the same,
   and the rest of the file is nowhere.
   */
  method MoveAfterReadError(disk: Disk) returns (retval: int)
    requires disk.fs == map[[] := Dir, S := File("abcd")] && disk.script == [2, -1]
    requires disk.device(S) != disk.device(D)
    modifies disk
    ensures retval == 0 ==> At(disk.fs, D) == Something(File("ab"))
    ensures retval == 0 && S !in disk.fs ==> forall p :: p in disk.fs ==> disk.fs[p] != File("abcd")
    ensures disk.healthy ==> retval == 0 && S !in disk.fs
  {
    assert disk.Valid() && Parent(D) == [];
    TwoBytes(disk.script);
    retval := FileMove(disk, S, D);
    assert "abcd"[..2] == "ab" && "ab" + [] == "ab";
    forall p | p in disk.fs && p != S && p != D
      ensures disk.fs[p] == Dir
    {
      assert Same(disk.fs, old(disk.fs), p);
    }
  }

  lemma TwoBytes(script: seq<int>)
    requires script == [2, -1]
    ensures Reach(script, 4, 0) == 2
  {
    assert script[1..] == [-1];
    assert ReadResult(script, FILEBUF, 4) == 2 && ReadResult(script[1..], FILEBUF, 2) == -1;
  }

  /** A file that was copied or moved to a place where there was nothing. */
  lemma FileTransferred(fs0: Fs, fs: Fs, src: Path, dst: Path, move: bool, ok: bool, whole: bool)
    requires Tree(fs0) && Tree(fs) && src in fs0 && fs0[src].File? && Apart(src, dst) && dst !in fs0
    requires forall p: Path :: p != src && p != dst ==> Same(fs, fs0, p)
    requires if move then src in fs ==> Same(fs, fs0, src) else Same(fs, fs0, src)
    requires !ok ==> src in fs
    requires ok ==> Like(At(fs, dst), At(fs0, src), whole)
    ensures Transferred(fs0, fs, src, dst, move, ok, whole)
  {
    forall p: Path | (src <= p && p != src) || dst <= p
      ensures p !in fs0
    {
      if p in fs0 {
        AncestorsExist(fs0, if src <= p && p != src then src else dst, p);
      }
    }
    forall rel: Path
      ensures At(fs0, src + rel).Something? && At(fs0, src + rel).node.File? ==>
          Same(fs, fs0, src + rel) || Like(At(fs, dst + rel), At(fs0, src + rel), whole)
      ensures ok ==> Like(At(fs, dst + rel), At(fs0, src + rel), whole)
    {
      if rel == [] {
        assert src + rel == src && dst + rel == dst;
      } else {
        assert src <= src + rel && dst <= dst + rel && src + rel != src && dst + rel != dst;
        assert src + rel != dst && dst + rel != src;
        assert Same(fs, fs0, src + rel) && Same(fs, fs0, dst + rel);
      }
    }
  }

  /** Nothing is left at or below this path. */
  ghost predicate Gone(fs: Fs, p: Path) {
    forall q: Path :: p <= q ==> q !in fs
  }

  lemma FileGone(fs0: Fs, fs: Fs, source: Path, dest: Path)
    requires Tree(fs0) && source in fs0 && fs0[source].File? && Apart(source, dest) && source !in fs
    requires forall p: Path :: p != source && p != dest ==> Same(fs, fs0, p)
    ensures Gone(fs, source)
  {
    FileHasNothingBelow(fs0, source);
    forall q: Path | source <= q
      ensures q !in fs
    {
      assert q != source ==> Same(fs, fs0, q);
    }
  }

  // ---- Paths below an entry of a directory ----

  /** The path `rel` below the entry n of directory p. */
  function Sub(p: Path, n: string, rel: Path): Path {
    p + [n] + rel
  }

  /** A path below p is p, or lies at or below one of its entries. */
  lemma SplitPath(p: Path, q: Path)
    requires p <= q && p != q
    ensures q == Sub(p, q[|p|], q[|p| + 1..])
  {
  }

  lemma SubIs(p: Path, n: string, rel: Path)
    ensures Sub(p, n, rel) == p + ([n] + rel)
    ensures p + [n] <= Sub(p, n, rel) && p <= Sub(p, n, rel) && Sub(p, n, rel)[|p|] == n
    ensures Sub(p, n, []) == p + [n]
  {
  }

  /** What lies at or below an entry of one of two places that are apart lies there and nowhere else. */
  lemma EntriesApart(src: Path, dst: Path, m: string, n: string, rel: Path)
    requires Apart(src, dst)
    ensures Apart(src + [m], dst + [n])
    ensures m != n ==> !(src + [n] <= Sub(src, m, rel))
    ensures !(dst + [n] <= Sub(src, m, rel)) && !(dst <= Sub(src, m, rel))
  {
    SubIs(src, m, rel);
    assert (src + [n])[|src|] == n;
    PrefixesCompare(src, dst, Sub(src, m, rel));
    PrefixesCompare(src, dst, dst + [n]);
    PrefixesCompare(src, dst, src + [m]);
    assert src <= src + [m] && dst <= dst + [n];
    assert dst + [n] <= Sub(src, m, rel) ==> dst <= Sub(src, m, rel);
    assert src + [m] <= dst + [n] ==> src <= dst + [n];
    assert dst + [n] <= src + [m] ==> dst <= src + [m];
  }

  lemma PrefixesCompare(p: Path, q: Path, r: Path)
    ensures p <= r && q <= r ==> p <= q || q <= p
  {
  }

  // ---- Half-way through a directory ----

  /** The entries in `todo` have not been touched, all others are where they should be. */
  ghost predicate Underway(fs0: Fs, fs: Fs, src: Path, dst: Path, move: bool, todo: set<string>, whole: bool) {
    && (forall p: Path :: !(src <= p) && !(dst <= p) ==> Same(fs, fs0, p))
    && (forall p: Path :: dst <= p ==> p !in fs0)
    && (forall p: Path :: src <= p ==> Same(fs, fs0, p) || (move && p !in fs))
    && IsDir(fs0, src) && IsDir(fs, src) && IsDir(fs, dst)
    && (forall n, rel :: n in todo ==> Same(fs, fs0, Sub(src, n, rel)))
    && (forall n, rel :: n in todo ==> Sub(dst, n, rel) !in fs)
    && (forall n, rel :: n !in todo ==> Like(At(fs, Sub(dst, n, rel)), At(fs0, Sub(src, n, rel)), whole))
  }

  /** One more entry has been dealt with. */
  lemma EntryDone(fs0: Fs, fs: Fs, fs': Fs, src: Path, dst: Path, move: bool, todo: set<string>, n: string, whole: bool)
    requires Apart(src, dst) && Underway(fs0, fs, src, dst, move, todo, whole) && n in todo
    requires Transferred(fs, fs', src + [n], dst + [n], move, true, whole)
    ensures Underway(fs0, fs', src, dst, move, todo - {n}, whole)
  {
    OutsideEntry(fs, fs', src, dst, move, n, true, whole);
    forall p: Path | !(src <= p) && !(dst <= p)
      ensures Same(fs', fs0, p)
    {
      assert Same(fs', fs, p) && Same(fs, fs0, p);
    }
    forall rel
      ensures Like(At(fs', Sub(dst, n, rel)), At(fs0, Sub(src, n, rel)), whole)
    {
      assert Same(fs, fs0, Sub(src, n, rel));
      assert Like(At(fs', (dst + [n]) + rel), At(fs, (src + [n]) + rel), whole);
    }
    forall m, rel | m != n
      ensures Same(fs', fs, Sub(src, m, rel)) && Same(fs', fs, Sub(dst, m, rel))
    {
      OtherEntry(fs, fs', src, dst, move, m, n, rel, true, whole);
    }
  }

  /** Dealing with the entry n leaves the other entries of both directories as they were. */
  lemma OtherEntry(fs: Fs, fs': Fs, src: Path, dst: Path, move: bool, m: string, n: string, rel: Path, ok: bool, whole: bool)
    requires Apart(src, dst) && m != n && Transferred(fs, fs', src + [n], dst + [n], move, ok, whole)
    ensures Same(fs', fs, Sub(src, m, rel)) && Same(fs', fs, Sub(dst, m, rel))
  {
    EntriesApart(src, dst, m, n, rel);
    EntriesApart(dst, src, m, n, rel);
  }

  /** Dealing with the entry n changes nothing outside the two directories, nor the directories themselves. */
  lemma OutsideEntry(fs: Fs, fs': Fs, src: Path, dst: Path, move: bool, n: string, ok: bool, whole: bool)
    requires Apart(src, dst) && Transferred(fs, fs', src + [n], dst + [n], move, ok, whole)
    ensures forall p: Path :: !(src <= p) && !(dst <= p) ==> Same(fs', fs, p)
    ensures Same(fs', fs, src) && Same(fs', fs, dst)
    ensures forall p: Path :: src <= p ==> Same(fs', fs, p) || (move && p !in fs')
  {
    EntriesApart(src, dst, n, n, []);
    assert !(src + [n] <= src) && !(dst + [n] <= dst) && !(src + [n] <= dst) && !(dst + [n] <= src) by {
      assert src <= src + [n] && dst <= dst + [n];
    }
    forall p: Path | !(src <= p) && !(dst <= p)
      ensures Same(fs', fs, p)
    {
      assert src + [n] <= p ==> src <= p;
      assert dst + [n] <= p ==> dst <= p;
    }
    forall p: Path | src <= p
      ensures Same(fs', fs, p) || (move && p !in fs')
    {
      PrefixesCompare(src, dst, p);
      assert dst + [n] <= p ==> dst <= p;
    }
  }

  /** Stopped at the entry n: nothing is lost, in that entry or in any other. */
  lemma EntryFailed(fs0: Fs, fs: Fs, fs': Fs, src: Path, dst: Path, move: bool, todo: set<string>, n: string, whole: bool)
    requires Apart(src, dst) && Underway(fs0, fs, src, dst, move, todo, whole) && n in todo
    requires Transferred(fs, fs', src + [n], dst + [n], move, false, whole)
    ensures Transferred(fs0, fs', src, dst, move, false, whole)
  {
    OutsideEntry(fs, fs', src, dst, move, n, false, whole);
    forall p: Path | !(src <= p) && !(dst <= p)
      ensures Same(fs', fs0, p)
    {
      assert Same(fs', fs, p) && Same(fs, fs0, p);
    }
    forall rel: Path | At(fs0, src + rel).Something? && At(fs0, src + rel).node.File?
      ensures Same(fs', fs0, src + rel) || Like(At(fs', dst + rel), At(fs0, src + rel), whole)
    {
      if rel == [] {
        assert src + rel == src;
      } else {
        var m, below := rel[0], rel[1..];
        assert rel == [m] + below;
        SubIs(src, m, below);
        SubIs(dst, m, below);
        if m == n {
          assert Same(fs, fs0, Sub(src, n, below));
          assert Sub(src, n, below) == (src + [n]) + below && Sub(dst, n, below) == (dst + [n]) + below;
        } else {
          OtherEntry(fs, fs', src, dst, move, m, n, below, false, whole);
          if m in todo {
            assert Same(fs, fs0, Sub(src, m, below));
          } else {
            assert Like(At(fs, Sub(dst, m, below)), At(fs0, Sub(src, m, below)), whole);
          }
        }
      }
    }
  }

  /** All entries dealt with: the destination is what the source was. */
  lemma AllDone(fs0: Fs, fs: Fs, src: Path, dst: Path, move: bool, whole: bool)
    requires Apart(src, dst) && Underway(fs0, fs, src, dst, move, {}, whole)
    ensures Transferred(fs0, fs, src, dst, move, true, whole)
  {
    forall rel: Path
      ensures Like(At(fs, dst + rel), At(fs0, src + rel), whole)
    {
      if rel == [] {
        assert src + rel == src && dst + rel == dst;
      } else {
        assert rel == [rel[0]] + rel[1..];
        SubIs(src, rel[0], rel[1..]);
        SubIs(dst, rel[0], rel[1..]);
        assert rel[0] !in {};
      }
    }
  }

  /** Removing the emptied source directory afterwards keeps all that, and leaves nothing of it. */
  lemma SourceRemoved(fs0: Fs, fs: Fs, src: Path, dst: Path, whole: bool)
    requires Apart(src, dst) && Tree(fs) && src in fs && Children(fs, src) == {}
    requires Transferred(fs0, fs, src, dst, true, true, whole)
    ensures Transferred(fs0, fs - {src}, src, dst, true, true, whole)
    ensures forall p: Path :: src <= p ==> p !in fs - {src}
  {
    var fs' := fs - {src};
    forall p: Path | src <= p
      ensures p !in fs'
    {
      if p in fs && p != src {
        SplitPath(src, p);
        ChildIs(fs, src, p[|src|]);
        assert src + [p[|src|]] <= p;
        if src + [p[|src|]] != p {
          AncestorsExist(fs, src + [p[|src|]], p);
        }
      }
    }
    assert forall p: Path :: p != src ==> Same(fs', fs, p);
    forall p: Path | !(src <= p) && !(dst <= p)
      ensures Same(fs', fs0, p)
    {
      assert Same(fs', fs, p) && Same(fs, fs0, p);
    }
    forall rel: Path
      ensures Like(At(fs', dst + rel), At(fs0, src + rel), whole)
    {
      assert dst <= dst + rel;
      assert Like(At(fs, dst + rel), At(fs0, src + rel), whole);
    }
  }

  /** A source inside the destination means that the destination was there before. */
  lemma SourceIsApart(fs0: Fs, src: Path, dst: Path)
    requires Tree(fs0) && !(src <= dst) && dst !in fs0 && src in fs0
    ensures Apart(src, dst)
  {
    if dst <= src {
      AncestorsExist(fs0, dst, src);
    }
  }

  /** mkdir failed, or it is all that happened. */
  lemma NothingMoved(fs0: Fs, fs: Fs, src: Path, dst: Path, move: bool, whole: bool)
    requires Tree(fs0) && !(src <= dst)
    requires fs == fs0 || (dst !in fs0 && fs == fs0[dst := Dir])
    ensures Transferred(fs0, fs, src, dst, move, false, whole)
  {
    forall rel: Path
      ensures Same(fs, fs0, src + rel)
    {
      assert src <= src + rel;
    }
  }

  /** The new destination directory is in place and every entry of the source is still to be dealt with. */
  lemma Begun(fs0: Fs, fs: Fs, src: Path, dst: Path, move: bool, whole: bool)
    requires Tree(fs0) && Apart(src, dst) && dst !in fs0 && fs == fs0[dst := Dir] && IsDir(fs, src)
    ensures Underway(fs0, fs, src, dst, move, Children(fs, src), whole)
    ensures forall n :: n in Children(fs, src) ==> src + [n] in fs0
  {
    forall p: Path | dst <= p
      ensures p !in fs0
    {
      if p in fs0 && p != dst {
        AncestorsExist(fs0, dst, p);
      }
    }
    forall n | n in Children(fs, src)
      ensures src + [n] in fs0
    {
      ChildIs(fs, src, n);
      assert src <= src + [n] != dst;
    }
    forall n, rel
      ensures Same(fs, fs0, Sub(src, n, rel)) && Sub(dst, n, rel) !in fs
      ensures n !in Children(fs, src) ==> Sub(src, n, rel) !in fs0
    {
      SubIs(src, n, rel);
      SubIs(dst, n, rel);
      EntriesApart(src, dst, n, n, rel);
      assert Sub(src, n, rel) != dst;
      ChildIs(fs, src, n);
      if Sub(src, n, rel) in fs0 && Sub(src, n, rel) != src + [n] {
        AncestorsExist(fs0, src + [n], Sub(src, n, rel));
      }
    }
  }

  /** The nodes at or below a path. */
  function Below(fs: Fs, p: Path): set<Path> {
    set q | q in fs && p <= q
  }

  /** The recursion goes down: an entry has fewer nodes than its directory had. */
  lemma EntrySmaller(fs0: Fs, fs: Fs, src: Path, n: string)
    requires src in fs0 && forall p: Path :: src <= p && p in fs ==> p in fs0
    ensures |Below(fs, src + [n])| < |Below(fs0, src)|
  {
    var inner, outer := Below(fs, src + [n]), Below(fs0, src);
    assert src <= src + [n];
    assert inner <= outer - {src} by {
      forall q | q in inner
        ensures q in outer - {src}
      {
        assert src <= q && q != src;
      }
    }
    assert outer == (outer - {src}) + {src};
    Sets.SubsetSize(inner, outer - {src});
  }

  /** The entry n that has not been dealt with is a node of its own, with nothing at its destination. */
  lemma EntryReady(fs0: Fs, fs: Fs, src: Path, dst: Path, move: bool, todo: set<string>, n: string, whole: bool)
    requires Apart(src, dst) && Underway(fs0, fs, src, dst, move, todo, whole) && n in todo
    requires src + [n] in fs0
    ensures Apart(src + [n], dst + [n]) && src + [n] in fs && dst + [n] !in fs
    ensures |Below(fs, src + [n])| < |Below(fs0, src)|
  {
    SubIs(src, n, []);
    SubIs(dst, n, []);
    EntriesApart(src, dst, n, n, []);
    assert Same(fs, fs0, Sub(src, n, [])) && Sub(dst, n, []) !in fs;
    forall p: Path | src <= p && p in fs
      ensures p in fs0
    {
      assert Same(fs, fs0, p);
    }
    EntrySmaller(fs0, fs, src, n);
  }

  /** A directory may be made under this name. */
  predicate Makeable(fs: Fs, dest: Path)
    requires dest != []
  {
    dest !in fs && IsDir(fs, Parent(dest))
  }

  /** What dir_move_copy needs: a directory to read, and a new name in a directory. */
  predicate Ready(fs: Fs, source: Path, dest: Path)
    requires dest != []
  {
    IsDir(fs, source) && Makeable(fs, dest)
  }

  /** The code of a call that fails before it deals with an entry tells what was missing. */
  predicate FirstFailure(fs: Fs, source: Path, dest: Path, retval: int, healthy: bool)
    requires dest != []
  {
    && (!Makeable(fs, dest) ==> retval == ERR_FORBIDDEN)
    && (!IsDir(fs, source) ==> retval == ERR_FORBIDDEN || retval == ERR_FILENOTFOUND)
    && (healthy && Makeable(fs, dest) ==> retval == if IsDir(fs, source) then 0 else ERR_FILENOTFOUND)
  }

  /**
   dir_move_copy. Whatever call fails and in whatever order the entries come, it keeps
   `Transferred`; after a successful move nothing of the source is left. It succeeds only on what
   it needs, and on a healthy disk exactly then.
   */
  method DirMoveCopy(disk: Disk, source: Path, dest: Path, move: bool, ghost whole: bool) returns (retval: int)
    requires disk.Valid() && (whole ==> Readable(disk.script)) && source != [] && dest != [] && !(source <= dest)
    modifies disk
    ensures disk.Valid() && (whole ==> Readable(disk.script))
    ensures Transferred(old(disk.fs), disk.fs, source, dest, move, retval == 0, whole)
    ensures retval == 0 ==> Ready(old(disk.fs), source, dest)
    ensures Code(retval) && FirstFailure(old(disk.fs), source, dest, retval, disk.healthy)
    ensures disk.healthy && Ready(old(disk.fs), source, dest) ==> retval == 0
    ensures retval == 0 && move ==> Gone(disk.fs, source)
    decreases |Below(disk.fs, source)|, 1
  {
    ghost var fs0 := disk.fs;
    var made := disk.Mkdir(dest);
    if !made {
      NothingMoved(fs0, disk.fs, source, dest, move, whole);
      return ERR_FORBIDDEN;
    }
    var listed, todo := disk.List(source);
    if !listed {
      NothingMoved(fs0, disk.fs, source, dest, move, whole);
      return ERR_FILENOTFOUND;
    }
    var memory: bool := *;
    if !memory && !disk.healthy {
      NothingMoved(fs0, disk.fs, source, dest, move, whole);
      return ERR_NOMEM;
    }
    SourceIsApart(fs0, source, dest);
    Begun(fs0, disk.fs, source, dest, move, whole);
    retval := Entries(disk, source, dest, move, todo, fs0, whole);
    if retval == 0 && move {
      retval := RemoveSource(disk, source, dest, fs0, whole);
    }
  }

  /** Its last step for a move: the source directory is removed, if nothing is left in it. */
  method RemoveSource(disk: Disk, source: Path, dest: Path, ghost fs0: Fs, ghost whole: bool) returns (retval: int)
    requires disk.Valid() && source != [] && Apart(source, dest)
    requires Transferred(fs0, disk.fs, source, dest, true, true, whole)
    modifies disk`fs
    ensures disk.Valid()
    ensures Transferred(fs0, disk.fs, source, dest, true, retval == 0, whole)
    ensures retval == 0 || retval == -1
    ensures retval == 0 ==> Gone(disk.fs, source)
    ensures disk.healthy && IsDir(old(disk.fs), source) && Children(old(disk.fs), source) == {} ==> retval == 0
  {
    ghost var fs := disk.fs;
    var removed := disk.Rmdir(source);
    if removed {
      SourceRemoved(fs0, fs, source, dest, whole);
    }
    retval := if removed then 0 else -1;
  }

  /** Its loop over the entries, in any order, up to the first that fails. */
  method Entries(disk: Disk, source: Path, dest: Path, move: bool, names: set<string>, ghost fs0: Fs, ghost whole: bool)
    returns (retval: int)
    requires disk.Valid() && (whole ==> Readable(disk.script)) && Apart(source, dest)
    requires Underway(fs0, disk.fs, source, dest, move, names, whole)
    requires forall n :: n in names ==> source + [n] in fs0
    requires Children(disk.fs, source) <= names
    modifies disk
    ensures disk.Valid() && (whole ==> Readable(disk.script))
    ensures Transferred(fs0, disk.fs, source, dest, move, retval == 0, whole) && Code(retval)
    ensures disk.healthy ==> retval == 0 && IsDir(disk.fs, source) && (move ==> Children(disk.fs, source) == {})
    decreases |Below(fs0, source)|, 0
  {
    var todo := names;
    retval := 0;
    while todo != {} && retval == 0
      invariant disk.Valid() && todo <= names && (whole ==> Readable(disk.script)) && Code(retval)
      invariant retval == 0 ==> Underway(fs0, disk.fs, source, dest, move, todo, whole)
      invariant retval != 0 ==> Transferred(fs0, disk.fs, source, dest, move, false, whole)
      invariant disk.healthy ==> retval == 0 && (move ==> Children(disk.fs, source) <= todo)
      decreases todo
    {
      var n :| n in todo;
      ghost var fs := disk.fs;
      EntryReady(fs0, fs, source, dest, move, todo, n, whole);
      retval := EntryMoveCopy(disk, source + [n], dest + [n], move, whole);
      if retval == 0 {
        EntryDone(fs0, fs, disk.fs, source, dest, move, todo, n, whole);
        if move && disk.healthy {
          ChildGone(fs, disk.fs, source, dest, n, todo, whole);
        }
      } else {
        EntryFailed(fs0, fs, disk.fs, source, dest, move, todo, n, whole);
      }
      todo := todo - {n};
    }
    if retval == 0 {
      AllDone(fs0, disk.fs, source, dest, move, whole);
    }
  }

  /** An entry that has been moved away is no longer in its directory, and the others still are. */
  lemma ChildGone(fs: Fs, fs': Fs, src: Path, dst: Path, n: string, todo: set<string>, whole: bool)
    requires Apart(src, dst) && Transferred(fs, fs', src + [n], dst + [n], true, true, whole)
    requires Children(fs, src) <= todo && Gone(fs', src + [n])
    ensures Children(fs', src) <= todo - {n}
  {
    forall m | m in Children(fs', src)
      ensures m in todo - {n}
    {
      ChildIs(fs', src, m);
      ChildIs(fs, src, m);
      if m != n {
        OtherEntry(fs, fs', src, dst, true, m, n, [], true, whole);
        SubIs(src, m, []);
      }
    }
  }

  /** The body of its loop: one entry, by its kind. */
  method EntryMoveCopy(disk: Disk, source: Path, dest: Path, move: bool, ghost whole: bool) returns (retval: int)
    requires disk.Valid() && (whole ==> Readable(disk.script)) && source != [] && dest != [] && Apart(source, dest)
    requires source in disk.fs && dest !in disk.fs
    modifies disk
    ensures disk.Valid() && (whole ==> Readable(disk.script))
    ensures Transferred(old(disk.fs), disk.fs, source, dest, move, retval == 0, whole) && Code(retval)
    ensures disk.healthy && IsDir(old(disk.fs), Parent(dest)) ==> retval == 0
    ensures disk.healthy && retval == 0 && move ==> Gone(disk.fs, source)
    decreases |Below(disk.fs, source)|, 2
  {
    ghost var fs0, script := disk.fs, disk.script;
    if IsDir(disk.fs, source) {
      retval := DirMoveCopy(disk, source, dest, move, whole);
    } else {
      if move {
        retval := FileMove(disk, source, dest);
        if disk.healthy && retval == 0 {
          FileGone(fs0, disk.fs, source, dest);
        }
      } else {
        retval := FileCopy(disk, source, dest);
      }
      if retval == 0 {
        CopyIsLike(fs0, source, dest, script, whole, At(disk.fs, dest));
      }
      FileTransferred(fs0, disk.fs, source, dest, move, retval == 0, whole);
    }
  }

  /** A file copied to a new place is like the original. */
  lemma CopyIsLike(fs0: Fs, source: Path, dest: Path, script: seq<int>, whole: bool, copy: Entry)
    requires source in fs0 && fs0[source].File? && dest !in fs0 && (whole ==> Readable(script))
    requires var data := DataAt(fs0, source);
      copy == At(fs0, source)
      || copy == Something(File(Overwritten(DataAt(fs0, dest), data[..Reach(script, |data|, 0)])))
    ensures Like(copy, At(fs0, source), whole)
  {
    var data := DataAt(fs0, source);
    var pos := Reach(script, |data|, 0);
    assert data[..pos] + [] == data[..pos] && data[..|data|] == data;
  }

  method DirCopy(disk: Disk, source: Path, dest: Path) returns (retval: int)
    requires disk.Valid() && source != [] && dest != [] && !(source <= dest)
    modifies disk
    ensures disk.Valid()
    ensures Transferred(old(disk.fs), disk.fs, source, dest, false, retval == 0, Readable(old(disk.script)))
    ensures retval == 0 ==> Ready(old(disk.fs), source, dest)
    ensures Code(retval) && FirstFailure(old(disk.fs), source, dest, retval, disk.healthy)
    ensures disk.healthy && Ready(old(disk.fs), source, dest) ==> retval == 0
  {
    retval := DirMoveCopy(disk, source, dest, false, Readable(disk.script));
  }

  /** What dir_move needs. */
  ghost predicate ReadyToMove(fs: Fs, source: Path, dest: Path, device: Path -> int)
    requires dest != []
  {
    if device(source) == device(dest) then IsDir(fs, source) && IsDir(fs, Parent(dest)) && FreeName(fs, dest)
    else Ready(fs, source, dest)
  }

  /**
   dir_move: by rename, or entry by entry to another device. A rename may also take the place of
   an empty directory; the copy to another device needs a new name. A rename that fails is told
   from every other failure by the code 1, and has changed nothing.
   */
  method DirMove(disk: Disk, source: Path, dest: Path) returns (retval: int)
    requires disk.Valid() && source != [] && dest != [] && !(source <= dest)
    modifies disk
    ensures disk.Valid()
    ensures Transferred(old(disk.fs), disk.fs, source, dest, true, retval == 0, Readable(old(disk.script)))
    ensures retval == 0 ==> Gone(disk.fs, source)
    ensures retval == 0 ==> ReadyToMove(old(disk.fs), source, dest, disk.device)
    ensures disk.healthy && ReadyToMove(old(disk.fs), source, dest, disk.device) ==> retval == 0
    ensures Code(retval) || retval == 1
    ensures retval == 1 ==> disk.fs == old(disk.fs)
    ensures disk.device(source) == disk.device(dest) ==> retval == 0 || retval == 1
  {
    ghost var fs0, whole := disk.fs, Readable(disk.script);
    if dest !in disk.fs {
      NewNameIsFree(fs0, dest);
    }
    var renamed := disk.RenameDir(source, dest);
    if renamed == Done {
      GraftTransfers(fs0, source, dest, whole);
      return 0;
    }
    if renamed == OtherDevice {
      retval := DirMoveCopy(disk, source, dest, true, whole);
    } else {
      NothingMoved(fs0, disk.fs, source, dest, true, whole);
      retval := 1;
    }
  }

  lemma GraftTransfers(fs0: Fs, src: Path, dst: Path, whole: bool)
    requires Tree(fs0) && IsDir(fs0, src) && Apart(src, dst)
    requires forall y: Path :: dst <= y && y in fs0 ==> y == dst && IsDir(fs0, dst)
    ensures Transferred(fs0, Grafted(fs0, src, dst), src, dst, true, true, whole)
    ensures forall p: Path :: src <= p ==> p !in Grafted(fs0, src, dst)
  {
    GraftedAt(fs0, src, dst);
    WholeTransfers(fs0, Grafted(fs0, src, dst), src, dst, whole);
  }

  lemma WholeTransfers(fs0: Fs, fs: Fs, src: Path, dst: Path, whole: bool)
    requires IsDir(fs0, src) && forall y: Path :: dst <= y && y in fs0 ==> y == dst && IsDir(fs0, dst)
    requires forall rel: Path :: At(fs, dst + rel) == At(fs0, src + rel)
    requires forall y: Path :: src <= y ==> y !in fs
    requires forall y: Path :: !(src <= y) && !(dst <= y) ==> Same(fs, fs0, y)
    ensures Transferred(fs0, fs, src, dst, true, true, whole)
  {
    assert dst + [] == dst && src + [] == src;
    assert At(fs, dst + []) == At(fs0, src + []);
  }

  /** dir_remove takes away nothing outside `dir` and adds nothing; after a success nothing of it is left. */
  ghost predicate Pruned(fs0: Fs, fs: Fs, dir: Path) {
    && (forall p: Path :: !(dir <= p) ==> Same(fs, fs0, p))
    && (forall p: Path :: dir <= p ==> Same(fs, fs0, p) || p !in fs)
  }

  /** It succeeds only on what is there, and on a healthy disk exactly then. */
  method DirRemove(disk: Disk, dir: Path) returns (retval: int)
    requires disk.Valid() && dir != []
    modifies disk
    ensures disk.Valid() && Pruned(old(disk.fs), disk.fs, dir)
    ensures retval == 0 ==> dir in old(disk.fs) && Gone(disk.fs, dir)
    ensures retval == 0 || retval == 1 || retval == ERR_NOMEM || retval == -1
    ensures dir !in old(disk.fs) ==> retval == 1
    ensures retval == 1 ==> disk.fs == old(disk.fs)
    ensures disk.healthy && dir in old(disk.fs) ==> retval == 0
    decreases |Below(disk.fs, dir)|, 1
  {
    ghost var fs0 := disk.fs;
    var gone := disk.Unlink(dir);
    if gone {
      FileHasNothingBelow(fs0, dir);
      return 0;
    }
    var listed, names := disk.List(dir);
    if !listed {
      return 1;
    }
    var memory: bool := *;
    if !memory && !disk.healthy {
      return ERR_NOMEM;
    }
    RemoveEntries(disk, dir, names);
    retval := RemoveEmptied(disk, dir, fs0);
  }

  /** Its loop over the entries; what becomes of them is not looked at. */
  method RemoveEntries(disk: Disk, dir: Path, names: set<string>)
    requires disk.Valid() && dir != [] && IsDir(disk.fs, dir) && Children(disk.fs, dir) <= names
    modifies disk
    ensures disk.Valid() && Pruned(old(disk.fs), disk.fs, dir) && IsDir(disk.fs, dir)
    ensures disk.healthy ==> Children(disk.fs, dir) == {}
    decreases |Below(disk.fs, dir)|, 0
  {
    ghost var fs0 := disk.fs;
    var todo := names;
    while todo != {}
      invariant disk.Valid() && Pruned(fs0, disk.fs, dir) && IsDir(disk.fs, dir)
      invariant disk.healthy ==> Children(disk.fs, dir) <= todo
      decreases todo
    {
      var n :| n in todo;
      ghost var fs := disk.fs;
      assert forall p: Path :: dir <= p && p in fs ==> Same(fs, fs0, p);
      EntrySmaller(fs0, fs, dir, n);
      var _ := DirRemove(disk, dir + [n]);
      PrunedMore(fs0, fs, disk.fs, dir, n);
      EntryPruned(fs, disk.fs, dir, n, todo, disk.healthy);
      todo := todo - {n};
    }
  }

  lemma EntryPruned(fs: Fs, fs': Fs, dir: Path, n: string, todo: set<string>, healthy: bool)
    requires IsDir(fs, dir) && Pruned(fs, fs', dir + [n])
    requires healthy ==> Children(fs, dir) <= todo && (dir + [n] in fs ==> Gone(fs', dir + [n]))
    ensures IsDir(fs', dir) && (healthy ==> Children(fs', dir) <= todo - {n})
  {
    assert Same(fs', fs, dir) by {
      assert dir <= dir + [n];
    }
    forall m | m in Children(fs', dir)
      ensures m in Children(fs, dir) && (healthy ==> m != n)
    {
      ChildIs(fs', dir, m);
      ChildIs(fs, dir, m);
      if m != n {
        assert (dir + [m])[|dir|] == m && (dir + [n])[|dir|] == n;
        assert Same(fs', fs, dir + [m]);
      } else {
        assert Same(fs', fs, dir + [n]) || dir + [n] !in fs';
      }
    }
  }

  /** Its last step. */
  method RemoveEmptied(disk: Disk, dir: Path, ghost fs0: Fs) returns (retval: int)
    requires disk.Valid() && dir != [] && Pruned(fs0, disk.fs, dir)
    modifies disk`fs
    ensures disk.Valid() && Pruned(fs0, disk.fs, dir)
    ensures retval == 0 || retval == -1
    ensures retval == 0 ==> Gone(disk.fs, dir)
    ensures disk.healthy && IsDir(old(disk.fs), dir) && Children(old(disk.fs), dir) == {} ==> retval == 0
  {
    ghost var fs := disk.fs;
    var removed := disk.Rmdir(dir);
    if removed {
      EmptyHasNothingBelow(fs, dir);
      assert forall p: Path :: p != dir ==> Same(disk.fs, fs, p);
      PrunedTwice(fs0, fs, disk.fs, dir);
    }
    retval := if removed then 0 else -1;
  }

  lemma FileHasNothingBelow(fs: Fs, p: Path)
    requires Tree(fs) && p in fs && fs[p].File?
    ensures forall q: Path :: p <= q && q != p ==> q !in fs
  {
    forall q: Path | p <= q && q != p
      ensures q !in fs
    {
      if q in fs {
        AncestorsExist(fs, p, q);
      }
    }
  }

  lemma EmptyHasNothingBelow(fs: Fs, p: Path)
    requires Tree(fs) && Children(fs, p) == {}
    ensures forall q: Path :: p <= q && q != p ==> q !in fs
  {
    forall q: Path | p <= q && q != p
      ensures q !in fs
    {
      if q in fs {
        SplitPath(p, q);
        ChildIs(fs, p, q[|p|]);
        if p + [q[|p|]] != q {
          AncestorsExist(fs, p + [q[|p|]], q);
        }
      }
    }
  }

  lemma PrunedMore(fs0: Fs, fs: Fs, fs': Fs, dir: Path, n: string)
    requires Pruned(fs0, fs, dir) && Pruned(fs, fs', dir + [n])
    ensures Pruned(fs0, fs', dir)
  {
    forall p: Path | !(dir <= p)
      ensures Same(fs', fs, p)
    {
      assert dir + [n] <= p ==> dir <= p;
    }
    PrunedTwice(fs0, fs, fs', dir);
  }

  lemma PrunedTwice(fs0: Fs, fs: Fs, fs': Fs, dir: Path)
    requires Pruned(fs0, fs, dir)
    requires forall p: Path :: !(dir <= p) ==> Same(fs', fs, p)
    requires forall p: Path :: dir <= p ==> Same(fs', fs, p) || p !in fs'
    ensures Pruned(fs0, fs', dir)
  {
    forall p: Path
      ensures if dir <= p then Same(fs', fs0, p) || p !in fs' else Same(fs', fs0, p)
    {
      assert if dir <= p then Same(fs', fs, p) || p !in fs' else Same(fs', fs, p);
      assert if dir <= p then Same(fs, fs0, p) || p !in fs else Same(fs, fs0, p);
    }
  }
}
