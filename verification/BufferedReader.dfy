/** The buffered reader of a connection (buffered_reader.c) over a source that delivers in pieces. */
module BufferedReader {
  import CString

  /** What one poll and read of the socket may meet; an empty chunk or no event at all is its end. */
  datatype Event = Chunk(bytes: string) | Stall | Fail

  /** The result, bytes and remaining events of one read of at most `size` bytes. */
  function Receive(events: seq<Event>, size: nat): (int, string, seq<Event>) {
    if events == [] then (0, [], [])
    else
      var rest := events[1..];
      match events[0]
      case Stall => (0, [], rest)
      case Fail => (-1, [], rest)
      case Chunk(bytes) =>
        if |bytes| <= size then (|bytes|, bytes, rest)
        else (size, bytes[..size], [Chunk(bytes[size..])] + rest)
  }

  /** Reads left in the events, bytes included: each read uses up some of it. */
  function Weight(events: seq<Event>): nat {
    if events == [] then 0
    else Weight(events[1..]) + 1 + if events[0].Chunk? then |events[0].bytes| else 0
  }

  // ---- The plain stream that a reader stands for ----

  /**
   A stream is the runs of bytes between the moments at which a read finds nothing. The
   last run is followed by the end, where every read finds nothing.
   */
  type Stream = s: seq<string> | s != [] witness [[]]

  /** A text that arrives without gaps. */
  function OneRun(text: string): Stream {
    [text]
  }

  function Prepend(bytes: string, s: Stream): Stream {
    [bytes + s[0]] + s[1..]
  }

  function Runs(events: seq<Event>): Stream {
    if events == [] then [[]]
    else if events[0].Chunk? && events[0].bytes != [] then Prepend(events[0].bytes, Runs(events[1..]))
    else [[]] + Runs(events[1..])
  }

  /** The stream behind its first gap. */
  function AfterGap(s: Stream): Stream {
    if |s| == 1 then [[]] else s[1..]
  }

  /** A read of `count` bytes from the stream: all of them, or what there is before the next gap. */
  function Take(s: Stream, count: int): (r: (string, Stream))
    ensures |r.0| <= if count > 0 then count else 0
  {
    if count <= 0 then ([], s)
    else if count <= |s[0]| then (s[0][..count], [s[0][count..]] + s[1..])
    else (s[0], AfterGap(s))
  }

  function Flat(s: seq<string>): string {
    if s == [] then [] else s[0] + Flat(s[1..])
  }

  /** No byte is lost, repeated or reordered by a read. */
  lemma TakeConserves(s: Stream, count: int)
    ensures Take(s, count).0 + Flat(Take(s, count).1) == Flat(s)
  {
    if 0 < count <= |s[0]| {
      assert s[0] == s[0][..count] + s[0][count..];
      assert Take(s, count).1[1..] == s[1..];
      CString.AppendAssoc(s[0][..count], s[0][count..], Flat(s[1..]));
    } else if count > 0 && |s| == 1 {
      assert s[1..] == [] && Flat([[]]) == [];
    }
  }

  /** A read comes back short only at a gap: everything before the gap has then been delivered. */
  lemma TakeShort(s: Stream, count: int)
    requires |Take(s, count).0| < count
    ensures Take(s, count).0 == s[0]
  {
  }

  /** The sequence of reads with these counts: what each delivers, and what is left. */
  function Reads(s: Stream, counts: seq<int>): (seq<string>, Stream)
    decreases |counts|
  {
    if counts == [] then ([], s)
    else
      var (out, s') := Take(s, counts[0]);
      var (outs, s'') := Reads(s', counts[1..]);
      ([out] + outs, s'')
  }

  /** Over any sequence of reads, what was delivered and what is left make up the stream. */
  lemma {:induction false} ReadsConserve(s: Stream, counts: seq<int>)
    ensures Flat(Reads(s, counts).0) + Flat(Reads(s, counts).1) == Flat(s)
    decreases |counts|
  {
    if counts != [] {
      var (out, s') := Take(s, counts[0]);
      var (outs, s'') := Reads(s', counts[1..]);
      TakeConserves(s, counts[0]);
      ReadsConserve(s', counts[1..]);
      assert ([out] + outs)[1..] == outs;
      CString.AppendAssoc(out, Flat(outs), Flat(s''));
    }
  }

  lemma PrependNothing(s: Stream)
    ensures Prepend([], s) == s
  {
    assert [] + s[0] == s[0];
  }

  lemma PrependTwice(a: string, b: string, s: Stream)
    ensures Prepend(a, Prepend(b, s)) == Prepend(a + b, s)
  {
    CString.AppendAssoc(a, b, s[0]);
  }

  /** Refilling an empty buffer does not change the stream, unless it meets a gap. */
  lemma ReceiveKeepsStream(events: seq<Event>, size: nat)
    requires size > 0
    ensures var (r, got, rest) := Receive(events, size);
      && r <= size && |got| == (if r > 0 then r else 0)
      && (r > 0 ==> Prepend(got, Runs(rest)) == Runs(events) && Weight(rest) < Weight(events))
      && (r <= 0 ==> Runs(events)[0] == [] && AfterGap(Runs(events)) == Runs(rest))
      && (r <= 0 ==> Weight(rest) < Weight(events) || events == [])
  {
    if events != [] && events[0].Chunk? && |events[0].bytes| > size {
      var bytes := events[0].bytes;
      var rest := [Chunk(bytes[size..])] + events[1..];
      assert rest[1..] == events[1..];
      PrependTwice(bytes[..size], bytes[size..], Runs(events[1..]));
      assert bytes == bytes[..size] + bytes[size..];
    } else if events != [] {
      assert ([[]] + Runs(events[1..]))[1..] == Runs(events[1..]);
    }
  }

  /** A read longer than what is buffered delivers the buffer first. */
  lemma TakeBuffered(buffered: string, s: Stream, count: int)
    requires count > |buffered|
    ensures Take(Prepend(buffered, s), count)
         == (buffered + Take(s, count - |buffered|).0, Take(s, count - |buffered|).1)
  {
    var n := count - |buffered|;
    var all := buffered + s[0];
    assert Prepend(buffered, s)[1..] == s[1..];
    if n <= |s[0]| {
      assert all[..count] == buffered + s[0][..n];
      assert all[count..] == s[0][n..];
    }
  }

  /** A read that the buffer can satisfy. */
  lemma TakeFromBuffer(buffered: string, s: Stream, count: int)
    requires 0 <= count <= |buffered|
    ensures Take(Prepend(buffered, s), count) == (buffered[..count], Prepend(buffered[count..], s))
  {
    var all := buffered + s[0];
    assert all[..count] == buffered[..count];
    assert all[count..] == buffered[count..] + s[0];
    assert Prepend(buffered, s)[1..] == s[1..];
    if count == 0 {
      assert buffered[0..] == buffered;
    }
  }

  /** The socket. */
  class Source {
    var events: seq<Event>

    constructor (events: seq<Event>)
      ensures this.events == events
    {
      this.events := events;
    }

    /** poll followed by read into the first `size` cells of a buffer. */
    method Read(buffer: array<char>, size: nat) returns (r: int)
      requires size <= buffer.Length
      modifies this, buffer
      ensures r <= size
      ensures var (r', got, rest) := Receive(old(events), size);
        r == r' && events == rest && (r > 0 ==> buffer[..r] == got)
    {
      var (r', got, rest) := Receive(events, size);
      events := rest;
      r := r';
      if r > 0 {
        forall i | 0 <= i < r {
          buffer[i] := got[i];
        }
      }
    }
  }

  /** memcpy of n cells. */
  method CopyCells(to: array<char>, at: nat, n: nat, from: array<char>, start: nat)
    requires to != from && at + n <= to.Length && start + n <= from.Length
    modifies to
    ensures to[at..at + n] == from[start..start + n]
    ensures forall i :: 0 <= i < to.Length && !(at <= i < at + n) ==> to[i] == old(to[i])
  {
    forall k | at <= k < at + n {
      to[k] := from[k - at + start];
    }
    ghost var copy := from[start..start + n];
    forall i | 0 <= i < n
      ensures to[at + i] == copy[i]
    {
      assert to[at + i] == from[(at + i) - at + start];
    }
    assert to[at..at + n] == copy;
  }

  class Reader {
    const buffer: array<char>
    const size: nat
    var start: nat
    var end: nat

    ghost predicate Valid()
      reads this
    {
      0 < size == buffer.Length && start <= end <= size
    }

    /** The stream of everything still to be read. */
    ghost function Stream(src: Source): Stream
      requires Valid()
      reads this, buffer, src
    {
      Prepend(buffer[start..end], Runs(src.events))
    }

    /** buffer_init, when the allocation succeeds. */
    constructor (size: nat)
      requires size > 0
      ensures Valid() && fresh(buffer) && start == end
    {
      this.size := size;
      buffer := new char[size];
      start, end := 0, 0;
    }

    /** buffer_reset: forgets what is buffered. */
    method Reset(src: Source)
      requires Valid()
      modifies this
      ensures Valid() && start == end && Stream(src) == Runs(src.events)
    {
      start, end := 0, 0;
      PrependNothing(Runs(src.events));
    }

    /** buffer_fill, on an empty buffer. */
    method Fill(src: Source) returns (r: int)
      requires Valid()
      modifies this, buffer, src
      ensures Valid() && Weight(src.events) <= old(Weight(src.events))
      ensures r > 0 ==> Stream(src) == old(Runs(src.events)) && Weight(src.events) < old(Weight(src.events))
      ensures r <= 0 ==> old(Runs(src.events))[0] == [] && Stream(src) == AfterGap(old(Runs(src.events)))
    {
      start := 0;
      ReceiveKeepsStream(src.events, size);
      r := src.Read(buffer, size);
      if r <= 0 {
        end := start;
        PrependNothing(Runs(src.events));
      } else {
        end := start + r;
      }
    }

    /** memcpy of the first n buffered bytes to b, behind the `wrote` bytes already at `at`. */
    method Drain(b: array<char>, at: nat, wrote: nat, n: nat)
      requires Valid() && b != buffer && at + wrote + n <= b.Length && n <= end - start
      modifies this`start, b
      ensures Valid() && start == old(start) + n
      ensures b[at..at + wrote + n] == old(b[at..at + wrote]) + buffer[old(start)..start]
      ensures forall i :: 0 <= i < b.Length && !(at + wrote <= i < at + wrote + n) ==> b[i] == old(b[i])
    {
      CopyCells(b, at + wrote, n, buffer, start);
      start := start + n;
      assert b[at..at + wrote] == old(b[at..at + wrote]);
      assert b[at..at + wrote + n] == b[at..at + wrote] + b[at + wrote..at + wrote + n];
    }

    /** The rest of a read that the buffer can satisfy. */
    method DrainLast(src: Source, b: array<char>, at: nat, wrote: nat, count: int, ghost whole: Stream)
      requires Valid() && b != buffer && wrote < count && at + count <= b.Length && count - wrote <= end - start
      requires Resumed(whole, count, b[at..at + wrote], Stream(src), count - wrote)
      modifies this`start, b
      ensures Valid()
      ensures forall i :: 0 <= i < b.Length && !(at + wrote <= i < at + count) ==> b[i] == old(b[i])
      ensures Take(whole, count) == (b[at..at + count], Stream(src))
    {
      var needed := count - wrote;
      ResumedBuffered(whole, count, b[at..at + wrote], buffer[start..end], Runs(src.events), needed);
      Drain(b, at, wrote, needed);
      SplitBuffered(buffer[..], start - needed, start, end);
    }

    /** Copies all that is buffered, when more is needed. */
    method DrainAll(src: Source, b: array<char>, at: nat, wrote: nat, count: int, ghost whole: Stream)
      returns (wrote': nat)
      requires Valid() && b != buffer && at + count <= b.Length && count - wrote > end - start
      requires Resumed(whole, count, b[at..at + wrote], Stream(src), count - wrote)
      modifies this`start, b
      ensures Valid() && wrote <= wrote' < count
      ensures forall i :: 0 <= i < b.Length && !(at + wrote <= i < at + wrote') ==> b[i] == old(b[i])
      ensures Resumed(whole, count, b[at..at + wrote'], Runs(src.events), count - wrote')
    {
      var available := end - start;
      ResumedAfter(whole, count, b[at..at + wrote], buffer[start..end], Runs(src.events), count - wrote);
      AppendNothingRight(b[at..at + wrote]);
      if available > 0 {
        Drain(b, at, wrote, available);
      }
      wrote' := wrote + available;
    }

    /** One round of the loop in buffer_read; it is the last one when the round is `over`. */
    method Round(src: Source, b: array<char>, at: nat, wrote: nat, count: int, ghost whole: Stream)
      returns (wrote': nat, over: bool)
      requires Valid() && b != buffer && wrote < count && at + count <= b.Length
      requires Resumed(whole, count, b[at..at + wrote], Stream(src), count - wrote)
      modifies this, buffer, src, b
      ensures Valid() && wrote <= wrote' <= count
      ensures forall i :: 0 <= i < b.Length && !(at + wrote <= i < at + wrote') ==> b[i] == old(b[i])
      ensures Weight(src.events) <= old(Weight(src.events)) && (!over ==> Weight(src.events) < old(Weight(src.events)))
      ensures over ==> Take(whole, count) == (b[at..at + wrote'], Stream(src))
      ensures !over ==> Resumed(whole, count, b[at..at + wrote'], Stream(src), count - wrote')
    {
      if count - wrote <= end - start {
        DrainLast(src, b, at, wrote, count, whole);
        return count, true;
      }
      wrote' := DrainAll(src, b, at, wrote, count, whole);
      ghost var done := b[at..at + wrote'];
      over := Refill(src, done, count, count - wrote', whole);
      assert b[at..at + wrote'] == done;
    }

    /** The refill at the end of a round, after which `done` has been delivered. */
    method Refill(src: Source, ghost done: string, ghost count: int, ghost left: int, ghost whole: Stream) returns (over: bool)
      requires Valid() && left > 0 && Resumed(whole, count, done, Runs(src.events), left)
      modifies this, buffer, src
      ensures Valid() && Weight(src.events) <= old(Weight(src.events)) && (!over ==> Weight(src.events) < old(Weight(src.events)))
      ensures over ==> Take(whole, count) == (done, Stream(src))
      ensures !over ==> Resumed(whole, count, done, Stream(src), left)
    {
      ghost var behind := Runs(src.events);
      var r := Fill(src);
      over := r <= 0;
      if over {
        ResumedGap(whole, count, done, behind, left);
      }
    }

    /** buffer_read into b from offset `at` on. */
    method Read(src: Source, b: array<char>, at: nat, count: int) returns (wrote: nat)
      requires Valid() && b != buffer && at + count <= b.Length && at <= b.Length
      modifies this, buffer, src, b
      ensures Valid() && Weight(src.events) <= old(Weight(src.events))
      ensures wrote <= if count > 0 then count else 0
      ensures b[at..at + wrote] == Take(old(Stream(src)), count).0
      ensures Stream(src) == Take(old(Stream(src)), count).1
      ensures forall i :: 0 <= i < b.Length && !(at <= i < at + wrote) ==> b[i] == old(b[i])
    {
      ghost var whole := Stream(src);
      var over := false;
      wrote := 0;
      AppendNothing(Take(whole, count).0);
      while wrote < count && !over
        invariant Valid() && wrote <= if count > 0 then count else 0
        invariant Weight(src.events) <= old(Weight(src.events))
        invariant forall i :: 0 <= i < b.Length && !(at <= i < at + wrote) ==> b[i] == old(b[i])
        invariant over ==> Take(whole, count) == (b[at..at + wrote], Stream(src))
        invariant !over ==> Resumed(whole, count, b[at..at + wrote], Stream(src), count - wrote)
        decreases !over, Weight(src.events)
      {
        wrote, over := Round(src, b, at, wrote, count, whole);
      }
      if !over {
        ResumedNone(whole, count, b[at..at + wrote], Stream(src), count - wrote);
      }
    }
  }

  /** Having delivered `done`, the read goes on as one of `left` bytes from s. */
  ghost predicate Resumed(whole: Stream, count: int, done: string, s: Stream, left: int) {
    && done + Take(s, left).0 == Take(whole, count).0
    && Take(s, left).1 == Take(whole, count).1
  }

  lemma ResumedAfter(whole: Stream, count: int, done: string, buffered: string, behind: Stream, needed: int)
    requires needed > |buffered| && Resumed(whole, count, done, Prepend(buffered, behind), needed)
    ensures Resumed(whole, count, done + buffered, behind, needed - |buffered|)
  {
    TakeBuffered(buffered, behind, needed);
    CString.AppendAssoc(done, buffered, Take(behind, needed - |buffered|).0);
  }

  lemma ResumedBuffered(whole: Stream, count: int, done: string, buffered: string, behind: Stream, needed: int)
    requires 0 <= needed <= |buffered| && Resumed(whole, count, done, Prepend(buffered, behind), needed)
    ensures Take(whole, count) == (done + buffered[..needed], Prepend(buffered[needed..], behind))
  {
    TakeFromBuffer(buffered, behind, needed);
  }

  lemma ResumedNone(whole: Stream, count: int, done: string, s: Stream, left: int)
    requires left <= 0 && Resumed(whole, count, done, s, left)
    ensures Take(whole, count) == (done, s)
  {
    AppendNothingRight(done);
  }

  lemma ResumedGap(whole: Stream, count: int, done: string, behind: Stream, left: int)
    requires left > 0 && behind[0] == [] && Resumed(whole, count, done, behind, left)
    ensures Take(whole, count) == (done, AfterGap(behind))
  {
    AppendNothingRight(done);
  }

  lemma SplitBuffered(cells: string, from: nat, mid: nat, to: nat)
    requires from <= mid <= to <= |cells|
    ensures cells[from..to][..mid - from] == cells[from..mid]
    ensures cells[from..to][mid - from..] == cells[mid..to]
  {
  }

  lemma AppendNothing(s: string)
    ensures [] + s == s
  {
  }

  lemma AppendNothingRight(s: string)
    ensures s + [] == s
  {
  }
}
