/** The body of a PUT request, from the connection to a file (instance.c). */
module PutFile {
  import opened CString
  import opened Options
  import opened BufferedReader
  import opened RequestText
  import CNumber
  import Fields
  import opened BodyRounds

  /**
   A file, and what the calls on it meet: whether it can be cut, and how many of its bytes can be
   stored before a write comes back short.
   */
  class DiskFile {
    const truncates: bool
    const room: nat
    var data: string

    constructor (truncates: bool, room: nat, data: string)
      ensures this.truncates == truncates && this.room == room && this.data == data
    {
      this.truncates := truncates;
      this.room := room;
      this.data := data;
    }

    /** ftruncate: cuts the file or fills it up with NULs. */
    method Truncate(n: int) returns (ok: bool)
      modifies this
      ensures ok <==> 0 <= n && truncates
      ensures ok ==> |data| == n
      ensures !ok ==> data == old(data)
    {
      if n < 0 || !truncates {
        return false;
      }
      data := if n <= |data| then data[..n] else data + seq(n - |data|, _ => NUL);
      ok := true;
    }

    /** write at offset `at`; a short write stores a part. */
    method Write(at: nat, bytes: string) returns (wrote: int)
      requires at + |bytes| <= |data|
      modifies this
      ensures |data| == old(|data|) && data[..at] == old(data[..at])
      ensures wrote == |bytes| <==> at + |bytes| <= room || bytes == []
      ensures wrote == |bytes| ==> data[at..at + |bytes|] == bytes
    {
      var k: nat := if at + |bytes| <= room then |bytes| else if at <= room then room - at else 0;
      data := data[..at] + bytes[..k] + data[at + k..];
      wrote := k;
    }
  }

  /** With too few bytes on the connection the loop condition stays true after any number of rounds. */
  lemma {:induction false} ShortBodyNeverEnds(s: Stream, done: string, length: int, k: nat)
    requires |done| + |Flat(s)| < length
    ensures |Rounds(s, done, length, k).0| < length
    decreases k
  {
    if k > 0 {
      TakeConserves(s, Step(length - |done|));
      var (out, s') := Take(s, Step(length - |done|));
      ShortBodyNeverEnds(s', done + out, length, k - 1);
    }
  }

  /** A round makes progress as long as the connection still holds bytes: it reads some, or passes a gap. */
  lemma RoundProgress(s: Stream, count: int)
    requires count > 0 && Flat(s) != []
    ensures Size(Take(s, count).1) < Size(s)
  {
    TakeSize(s, count);
    if Take(s, count).0 == [] {
      LastRun(s);
      TakeConserves(s, count);
      assert [] + Flat(Take(s, count).1) == Flat(Take(s, count).1);
    }
  }

  lemma LastRun(s: Stream)
    ensures |s| == 1 ==> Flat(s) == s[0]
  {
    assert |s| == 1 ==> s[1..] == [];
  }

  /** With enough of them it ends: every round reads some or passes a gap. */
  lemma {:induction false} LongBodyEnds(s: Stream, done: string, length: int) returns (k: nat)
    requires |done| + |Flat(s)| >= length
    ensures |Rounds(s, done, length, k).0| >= length
    decreases Size(s)
  {
    k := 0;
    if |done| < length {
      var count := Step(length - |done|);
      var (out, s') := Take(s, count);
      RoundProgress(s, count);
      TakeConserves(s, count);
      k := LongBodyEnds(s', done + out, length);
      k := k + 1;
    }
  }

  /** The loop ends exactly if the connection holds the announced body. */
  lemma BodyEndsExactly(s: Stream, length: int)
    ensures (exists k :: |Rounds(s, [], length, k).0| >= length) <==> length <= |Flat(s)|
  {
    if length <= |Flat(s)| {
      var k := LongBodyEnds(s, [], length);
    } else {
      forall k: nat
        ensures |Rounds(s, [], length, k).0| < length
      {
        ShortBodyNeverEnds(s, [], length, k);
      }
    }
  }

  /** After k rounds from s, so many bytes have been read and `now` is left. */
  ghost predicate Ran(s: Stream, length: int, k: nat, total: nat, now: Stream) {
    |Rounds(s, [], length, k).0| == total && Rounds(s, [], length, k).1 == now
  }

  lemma RanNone(s: Stream, length: int) returns (k: nat, total: nat)
    ensures Ran(s, length, k, total, s) && total == 0
  {
    k, total := 0, 0;
  }

  lemma RanOnce(s: Stream, length: int, k: nat, total: nat, now: Stream)
    requires Ran(s, length, k, total, now) && total < length
    ensures var (out, next) := Take(now, Step(length - total)); Ran(s, length, k + 1, total + |out|, next)
  {
    RoundsLast(s, [], length, k);
  }

  /**
   Half-way, after k rounds from s: the file holds the first `total` bytes of the body, and the
   connection the rest of them.
   */
  ghost predicate Halfway(s: Stream, length: nat, k: nat, total: nat, data: string, now: Stream) {
    var all := Flat(s);
    && total <= length == |data| <= |all| && Ran(s, length, k, total, now)
    && data[..total] == all[..total] && Flat(now) == all[total..]
  }

  /** The state of the loop: half-way while all writes were full, which they are while there is room. */
  ghost predicate Storing(ok: bool, s: Stream, length: nat, k: nat, total: nat, data: string, room: nat, now: Stream) {
    && |data| == length
    && if ok then total <= room && Halfway(s, length, k, total, data, now) else length > room
  }

  lemma Begun(s: Stream, data: string, room: nat) returns (k: nat, total: nat)
    requires |data| <= |Flat(s)|
    ensures Storing(true, s, |data|, k, total, data, room, s) && total == 0
  {
    k, total := RanNone(s, |data|);
  }

  /** The file holds the first bytes of the connection, and the rest of them is still to be read. */
  ghost predicate Delivered(s: Stream, length: nat, data: string, now: Stream) {
    length <= |Flat(s)| && data == Flat(s)[..length] && Flat(now) == Flat(s)[length..]
  }

  lemma Ended(ok: bool, s: Stream, length: nat, k: nat, total: nat, data: string, room: nat, now: Stream)
    requires Storing(ok, s, length, k, total, data, room, now) && (ok ==> total >= length)
    ensures ok <==> length <= room
    ensures ok ==> Ran(s, length, k, length, now)
    ensures ok ==> Delivered(s, length, data, now)
  {
    assert data[..length] == data;
  }

  /** A round has read `out`, and the file holds it behind what it held before. */
  lemma Advanced(s: Stream, length: nat, k: nat, total: nat, was: string, data: string, now: Stream, next: Stream)
    requires Halfway(s, length, k, total, was, now) && total < length && |data| == length
    requires next == Take(now, Step(length - total)).1
    requires var out := Take(now, Step(length - total)).0;
      total + |out| <= length && data[..total] == was[..total] && data[total..total + |out|] == out
    ensures Halfway(s, length, k + 1, total + |Take(now, Step(length - total)).0|, data, next)
  {
    var out := Take(now, Step(length - total)).0;
    TakeConserves(now, Step(length - total));
    RanOnce(s, length, k, total, now);
    Arrived(Flat(s), total, out, Flat(next));
    assert data[..total + |out|] == data[..total] + data[total..total + |out|];
  }

  /** The read of a round: `out` in the first cells of the buffer. */
  method ReadSome(reader: Reader, src: Source, buf: array<char>, toRead: int, ghost now: Stream)
    returns (got: nat, ghost out: string)
    requires reader.Valid() && buf != reader.buffer && buf.Length == FILEBUF && 0 < toRead <= FILEBUF
    requires now == reader.Stream(src)
    modifies reader, reader.buffer, src, buf
    ensures reader.Valid() && got <= buf.Length && buf[..got] == out
    ensures out == Take(now, toRead).0 && reader.Stream(src) == Take(now, toRead).1
  {
    out := Take(now, toRead).0;
    got := reader.Read(src, buf, 0, toRead);
    assert buf[..got] == buf[0..got];
  }

  /** What a write of `out` at `total` leaves. */
  ghost predicate Put(was: string, data: string, room: nat, total: nat, out: string, ok: bool) {
    && |data| == |was| && total + |out| <= |data| && data[..total] == was[..total]
    && (ok <==> total + |out| <= room || out == [])
    && (ok ==> data[total..total + |out|] == out)
  }

  lemma RoundIsStored(s: Stream, length: nat, k: nat, total: nat, was: string, data: string, room: nat,
                      now: Stream, next: Stream, out: string, ok: bool)
    requires Storing(true, s, length, k, total, was, room, now) && total < length
    requires (out, next) == Take(now, Step(length - total)) && Put(was, data, room, total, out, ok)
    ensures Storing(ok, s, length, k + 1, total + |out|, data, room, next)
  {
    if ok {
      Advanced(s, length, k, total, was, data, now, next);
    }
  }

  /** One round of the loop of read_file. */
  method PutRound(file: DiskFile, reader: Reader, src: Source, buf: array<char>, length: nat, total: nat, ghost s: Stream,
                  ghost k: nat)
    returns (total': nat, ok: bool, ghost k': nat)
    requires reader.Valid() && buf != reader.buffer && buf.Length == FILEBUF && total < length
    requires Storing(true, s, length, k, total, file.data, file.room, reader.Stream(src))
    modifies file, reader, reader.buffer, src, buf
    ensures reader.Valid() && Storing(ok, s, length, k', total', file.data, file.room, reader.Stream(src))
    ensures Size(reader.Stream(src)) < old(Size(reader.Stream(src)))
  {
    ghost var now, was := reader.Stream(src), file.data;
    RoundProgress(now, Step(length - total));
    var got; ghost var out;
    got, out := ReadSome(reader, src, buf, Step(length - total), now);
    ok := WriteSome(file, total, buf[..got]);
    RoundIsStored(s, length, k, total, was, file.data, file.room, now, reader.Stream(src), out, ok);
    k', total' := k + 1, total + got;
  }

  /** Its write. */
  method WriteSome(file: DiskFile, total: nat, out: string) returns (ok: bool)
    requires total + |out| <= |file.data|
    modifies file
    ensures Put(old(file.data), file.data, file.room, total, out, ok)
  {
    var wrote := file.Write(total, out);
    ok := wrote == |out|;
  }

  /** The loop of read_file, into a file already cut to the length of the body; its reads are Rounds. */
  method StoreBody(file: DiskFile, reader: Reader, src: Source, length: nat) returns (ok: bool, ghost k: nat)
    requires reader.Valid() && length == |file.data| <= |Flat(reader.Stream(src))|
    modifies file, reader, reader.buffer, src
    ensures reader.Valid() && (ok <==> length <= file.room)
    ensures ok ==> Ran(old(reader.Stream(src)), length, k, length, reader.Stream(src))
    ensures ok ==> Delivered(old(reader.Stream(src)), length, file.data, reader.Stream(src))
  {
    var buf := new char[FILEBUF];
    ghost var s := reader.Stream(src);
    ghost var none: nat;
    var total: nat := 0;
    ok := true;
    k, none := Begun(s, file.data, file.room);
    while total < length && ok
      invariant reader.Valid()
      invariant Storing(ok, s, length, k, total, file.data, file.room, reader.Stream(src))
      decreases Size(reader.Stream(src))
    {
      total, ok, k := PutRound(file, reader, src, buf, length, total, s, k);
    }
    Ended(ok, s, length, k, total, file.data, file.room, reader.Stream(src));
  }

  /** What happens around the loop: whether there is an authentication program, open and malloc succeed. */
  datatype Calls = Calls(authSock: bool, exists_: bool, opens: bool, memory: bool)

  /** The return value, by the first call that fails. */
  function ReadFileCode(contentLength: Option<int>, c: Calls, truncates: bool, room: nat): int {
    if !c.authSock then ERR_FORBIDDEN
    else match contentLength
      case None => ERR_NODATA
      case Some(n) =>
        if !c.opens then ERR_FILENOTFOUND
        else if n < 0 || !truncates || !c.memory then ERR_NOMEM
        else if n > room then ERR_BRKPIPE
        else if c.exists_ then OK_NOCONTENT
        else OK_CREATED
  }

  /** The loop is entered. */
  predicate ReachesLoop(contentLength: Option<int>, c: Calls, truncates: bool) {
    c.authSock && contentLength.Some? && contentLength.value >= 0 && c.opens && truncates && c.memory
  }

  /**
   read_file. Every failing call leaves through its own error code; where the loop is entered, a
   body that the connection holds completely ends up in the file byte by byte, whatever the
   file held before, and exactly those bytes are consumed.
   */
  method ReadFile(httpParam: string, c: Calls, file: DiskFile, reader: Reader, src: Source) returns (code: int)
    requires reader.Valid()
    requires ReachesLoop(ContentLength(httpParam), c, file.truncates) ==>
      ContentLength(httpParam).value <= |Flat(reader.Stream(src))|
    modifies file, reader, reader.buffer, src
    ensures reader.Valid() && code == ReadFileCode(ContentLength(httpParam), c, file.truncates, file.room)
    ensures !c.authSock ==> code == ERR_FORBIDDEN
    ensures c.authSock && Find(httpParam, CONTENT_LENGTH) == None ==> code == ERR_NODATA
    ensures code > 0 ==> Stored(ContentLength(httpParam), file.data,
      old(Flat(reader.Stream(src))), Flat(reader.Stream(src)))
    ensures !ReachesLoop(ContentLength(httpParam), c, file.truncates) ==> reader.Stream(src) == old(reader.Stream(src))
    ensures !c.opens || !file.truncates ==> file.data == old(file.data)
  {
    if !c.authSock {
      return ERR_FORBIDDEN;
    }
    var contentLength := ContentLength(httpParam);
    if contentLength.None? {
      return ERR_NODATA;
    }
    var length := contentLength.value;
    code := if c.exists_ then OK_NOCONTENT else OK_CREATED;
    if !c.opens {
      return ERR_FILENOTFOUND;
    }
    var truncated := file.Truncate(length);
    if !truncated {
      return ERR_NOMEM;
    }
    if !c.memory {
      return ERR_NOMEM;
    }
    ghost var k;
    var ok;
    ok, k := StoreBody(file, reader, src, length);
    if !ok {
      code := ERR_BRKPIPE;
    }
  }

  /**
   A PUT as a client writes it, on a server and disk that let it: the file is exactly the n bytes
   that follow the header, whatever it held before, and what follows them is still to be read.
   */
  method PutWritten(before: seq<string>, n: nat, after: string, existed: bool, file: DiskFile, reader: Reader, src: Source)
    returns (code: int)
    requires before != [] && Fields.Without(before, CONTENT_LENGTH)
    requires n <= CNumber.LLONG_MAX && |CNumber.Decimal(n)| + 1 < NBUFFER
    requires file.truncates && n <= file.room
    requires reader.Valid() && n <= |Flat(reader.Stream(src))|
    modifies file, reader, reader.buffer, src
    ensures code == if existed then OK_NOCONTENT else OK_CREATED
    ensures file.data == old(Flat(reader.Stream(src)))[..n]
    ensures reader.Valid() && Flat(reader.Stream(src)) == old(Flat(reader.Stream(src)))[n..]
  {
    var hp := Fields.WithField(before, CONTENT_LENGTH, CNumber.Decimal(n), after);
    LengthIsFound(hp, before, n, after);
    code := ReadFile(hp, Calls(true, existed, true, true), file, reader, src);
  }

  /** The file holds the announced bytes, and exactly these are gone from the connection. */
  ghost predicate Stored(contentLength: Option<int>, data: string, all: string, left: string) {
    && contentLength.Some? && 0 <= contentLength.value <= |all|
    && data == all[..contentLength.value] && left == all[contentLength.value..]
  }

  lemma Arrived(all: string, total: nat, out: string, left: string)
    requires total <= |all| && out + left == all[total..]
    ensures total + |out| <= |all|
    ensures all[..total + |out|] == all[..total] + out
    ensures left == all[total + |out|..]
  {
    assert all[total..][..|out|] == out;
    assert all[total..][|out|..] == left;
  }
}
