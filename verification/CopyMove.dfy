/** COPY and MOVE requests (copy_move in webdav.c), on paths that are already put together. */
module CopyMove {
  import opened CString
  import opened Options
  import opened Disk
  import opened FileTree
  import opened Fields

  /** The Overwrite field of a request, and whether it is one of the two that there may be. */
  function Overwrite(httpParam: string): Option<string> {
    ParamValue(httpParam, "Overwrite", PATH_LEN)
  }

  predicate Known(overwrite: Option<string>) {
    overwrite.Some? ==> overwrite.value == "T" || overwrite.value == "F"
  }

  /** A success is told apart by whether something was there before. */
  function Success(there: bool): int {
    if there then OK_NOCONTENT else OK_CREATED
  }

  /** What a copy or a move leaves if it says that it succeeded. */
  ghost predicate Carried(fs0: Fs, fs: Fs, source: Path, dest: Path, move: bool, script: seq<int>) {
    if IsDir(fs0, source) then
      Transferred(fs0, fs, source, dest, move, true, Readable(script)) && (move ==> Gone(fs, source))
    else if source in fs0 then
      FileCarried(fs0, fs, source, dest, move, script)
    else false
  }

  /** For a file: only the destination changes, and for a move the source; how exact the copy is says `Faithful`. */
  ghost predicate FileCarried(fs0: Fs, fs: Fs, source: Path, dest: Path, move: bool, script: seq<int>) {
    var was, data := DataAt(fs0, dest), DataAt(fs0, source);
    && (forall p: Path :: p != dest && (move ==> p != source) ==> Same(fs, fs0, p))
    && (At(fs, dest) == Something(File(Overwritten(was, data[..Reach(script, |data|, 0)])))
        || (move && At(fs, dest) == Something(File(data)) && source !in fs))
  }

  /** What the call that does the work needs. */
  ghost predicate CanCarry(fs: Fs, source: Path, dest: Path, move: bool, device: Path -> int)
    requires dest != []
  {
    if !IsDir(fs, source) then Writable(fs, dest)
    else if move then ReadyToMove(fs, source, dest, device)
    else Ready(fs, source, dest)
  }

  /** The part of copy_move that does the work, by the kind of the source and the method. */
  method Carry(disk: Disk, source: Path, dest: Path, move: bool) returns (retval: int)
    requires disk.Valid() && source in disk.fs && source != [] && dest != [] && source != dest
    requires IsDir(disk.fs, source) ==> !(source <= dest)
    modifies disk
    ensures disk.Valid() && (Code(retval) || retval == 1)
    ensures retval == 0 ==> Carried(old(disk.fs), disk.fs, source, dest, move, old(disk.script))
    ensures retval == 1 ==> move && IsDir(old(disk.fs), source) && disk.fs == old(disk.fs)
    ensures disk.healthy && CanCarry(old(disk.fs), source, dest, move, disk.device) ==> retval == 0
    ensures move && IsDir(old(disk.fs), source) && disk.device(source) == disk.device(dest) ==>
      retval == 0 || retval == 1
    ensures move && IsDir(old(disk.fs), source) && retval == 0 ==>
      ReadyToMove(old(disk.fs), source, dest, disk.device)
  {
    if IsDir(disk.fs, source) {
      if move {
        retval := DirMove(disk, source, dest);
      } else {
        retval := DirCopy(disk, source, dest);
      }
    } else if move {
      retval := FileMove(disk, source, dest);
    } else {
      retval := FileCopy(disk, source, dest);
    }
  }

  /** The answer to a request that is turned away before anything is copied or moved. */
  function TurnedAway(fs: Fs, overwrite: Option<string>, source: Path, dest: Path): Option<int> {
    if !Known(overwrite) then Some(ERR_NOTHTTP)
    else if source == dest then Some(ERR_FORBIDDEN)
    else if overwrite == Some("T") && dest in fs then Some(ERR_PRECONDITION_FAILED)
    else None
  }

  /**
   copy_move. A request that says it succeeded has been carried out, with one exception: where
   dir_move returns 1 for a rename that failed, that reads as OK_CREATED.
   */
  method CopyMove(disk: Disk, httpParam: string, source: Path, dest: Path, move: bool) returns (retval: int)
    requires disk.Valid() && source in disk.fs && source != [] && dest != []
    requires IsDir(disk.fs, source) && source != dest ==> !(source <= dest)
    modifies disk
    ensures disk.Valid()
    ensures disk.healthy && TurnedAway(old(disk.fs), Overwrite(httpParam), source, dest).Some? ==>
      retval == TurnedAway(old(disk.fs), Overwrite(httpParam), source, dest).value && disk.fs == old(disk.fs)
    ensures retval == ERR_PRECONDITION_FAILED ==>
      Overwrite(httpParam) == Some("T") && dest in old(disk.fs) && disk.fs == old(disk.fs)
    ensures retval == OK_NOCONTENT ==>
      dest in old(disk.fs) && Carried(old(disk.fs), disk.fs, source, dest, move, old(disk.script))
    ensures retval == OK_CREATED ==>
      Carried(old(disk.fs), disk.fs, source, dest, move, old(disk.script))
      || (move && IsDir(old(disk.fs), source) && disk.fs == old(disk.fs))
    ensures disk.healthy && TurnedAway(old(disk.fs), Overwrite(httpParam), source, dest).None? ==>
      && (CanCarry(old(disk.fs), source, dest, move, disk.device) ==> retval == Success(dest in old(disk.fs)))
      && (move && IsDir(old(disk.fs), source) && disk.device(source) == disk.device(dest)
          && !CanCarry(old(disk.fs), source, dest, move, disk.device) ==>
            retval == OK_CREATED && disk.fs == old(disk.fs))
  {
    var overwrite := Overwrite(httpParam);
    if overwrite.Some? && !(overwrite.value == "T" || overwrite.value == "F") {
      return ERR_NOTHTTP;
    }
    var checkExists := overwrite.Some? && overwrite.value != "F";
    if source == dest {
      return ERR_FORBIDDEN;
    }
    var there := disk.Access(dest);
    if checkExists && there {
      return ERR_PRECONDITION_FAILED;
    }
    retval := Carry(disk, source, dest, move);
    if retval == 0 {
      retval := Success(there);
    }
  }

  // ---- Overwrite the wrong way round ----

  /** What section 10.6 of RFC 4918 asks for: nothing that exists is replaced where the field is F. */
  predicate MayReplace(overwrite: Option<string>) {
    overwrite != Some("F")
  }

  /**
   A field as a client writes it is looked at, but the two values have each other's meaning: with
   F an existing destination is replaced, and with T, which is also what no field at all should
   mean, it is not.
   */
  lemma OverwriteIsInverted(before: seq<string>, value: string, after: string, fs: Fs, source: Path, dest: Path)
    requires before != [] && Without(before, "Overwrite") && (value == "T" || value == "F")
    requires source != dest
    ensures var overwrite := Overwrite(WithField(before, "Overwrite", value, after));
      && overwrite == Some(value)
      && (TurnedAway(fs, overwrite, source, dest).Some? <==> MayReplace(overwrite) && dest in fs)
  {
    FieldRead(before, "Overwrite", value, after, PATH_LEN);
  }

  /** A file is copied over another one on a healthy disk although the client has forbidden it. */
  method ReplacedAllTheSame(disk: Disk) returns (retval: int)
    requires disk.fs == map[[] := Dir, S := File("xy"), D := File("ab")] && disk.script == [] && disk.healthy
    modifies disk
    ensures retval == OK_NOCONTENT && At(disk.fs, D) == Something(File("xy"))
  {
    assert disk.Valid() && Parent(D) == [];
    var fields: seq<string> := ["HTTP/1.1"];
    NameIsElsewhere();
    OverwriteIsInverted(fields, "F", "", disk.fs, S, D);
    retval := CopyMove(disk, WithField(fields, "Overwrite", "F", ""), S, D, false);
    assert "xy"[..2] == "xy" && "xy" + [] == "xy";
  }

  lemma NameIsElsewhere()
    ensures Without(["HTTP/1.1"], "Overwrite")
  {
    forall i
      ensures !OccursAt("HTTP/1.1", "Overwrite", i)
    {
    }
  }
}
