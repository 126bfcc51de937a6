/** Range requests (instance.c) and the copy loop that answers them (myio.c). */
module Ranges {
  import opened CString
  import opened Options
  import opened CNumber
  import opened Fields

  const RBUFFER := 128

  /** The value of x as `unsigned long long`. */
  function U64(x: int): (n: nat)
    ensures n < 0x1_0000_0000_0000_0000
    ensures 0 <= x < 0x1_0000_0000_0000_0000 ==> n == x
    ensures x == -1 ==> n == 0xFFFF_FFFF_FFFF_FFFF
  {
    x % 0x1_0000_0000_0000_0000
  }

  /** An `unsigned long long` as the `off_t` that fd_copy takes. */
  function OffT(n: nat): int
    requires n < 0x1_0000_0000_0000_0000
  {
    if n < 0x8000_0000_0000_0000 then n else n - 0x1_0000_0000_0000_0000
  }

  datatype Answer =
    | BadRequest
    | NotSatisfiable
    | Send(from: nat, count: nat, partial: bool)

  /** The arithmetic of bytes_to_send on the two ends of a range. */
  function Decide(from: nat, to: nat, size: nat): Answer {
    var count := U64(to - from + 1);
    if from >= size || U64(from + count) > size then NotSatisfiable else Send(from, count, true)
  }

  /** The text of a Range header: what stands between the first `=` and the next `-`, and behind it. */
  function ParseRange(a: string, size: nat): Answer {
    match Find(a, "=")
    case None => BadRequest
    case Some(eq) =>
      match Find(a[eq..], "-")
      case None => BadRequest
      case Some(n) =>
        OccursChar(a[eq..], '-', n);
        OccursChar(a, '=', eq);
        OccursChar(a[eq..], '=', 0);
        var last := a[eq + n + 1..];
        var from := U64(StrToL(a[eq + 1..eq + n]));
        var to := U64(StrToL(last));
        Decide(from, if to == 0 && |last| == 0 then U64(size - 1) else to, size)
  }

  /** bytes_to_send, for a file of this size and modification time. */
  function BytesToSend(httpParam: string, size: nat, mtime: int): Answer {
    match ParamValue(httpParam, "Range", RBUFFER)
    case None => Send(0, size, false)
    case Some(range) =>
      var ifRange := ParamValue(httpParam, "If-Range", RBUFFER);
      var etag := if ifRange.Some? && ifRange.value != [] then StrToL(ifRange.value[1..]) else mtime;
      if etag == mtime then ParseRange(range, size) else Send(0, size, false)
  }

  /** An entity tag as send_http_header writes it. */
  function ETag(mtime: nat): string {
    "\"" + Decimal(mtime) + "\""
  }

  /** A range is looked at only if the client's If-Range tag, where it sends one, is the file's. */
  lemma IfRangeDecides(httpParam: string, range: string, size: nat, mtime: int, tag: nat)
    requires ParamValue(httpParam, "Range", RBUFFER) == Some(range)
    requires tag <= LLONG_MAX
    ensures ParamValue(httpParam, "If-Range", RBUFFER) == None ==>
      BytesToSend(httpParam, size, mtime) == ParseRange(range, size)
    ensures ParamValue(httpParam, "If-Range", RBUFFER) == Some(ETag(tag)) ==>
      BytesToSend(httpParam, size, mtime) == if tag == mtime then ParseRange(range, size) else Send(0, size, false)
  {
    QuotedRoundTrip(tag);
    assert ETag(tag)[1..] == Decimal(tag) + "\"";
  }

  // ---- Which ranges are accepted ----

  predicate FileSize(size: nat) {
    size < 0x8000_0000_0000_0000
  }

  /**
   A range is accepted exactly when it begins inside the file and either ends inside it or
   has the last 64-bit value as its end, which wraps around to 0. Its two ends are not
   compared with each other.
   */
  lemma Accepted(from: nat, to: nat, size: nat)
    requires from < 0x1_0000_0000_0000_0000 && to < 0x1_0000_0000_0000_0000 && FileSize(size)
    ensures Decide(from, to, size).Send? <==> from < size && (to < size || to == 0xFFFF_FFFF_FFFF_FFFF)
    ensures from <= to < size ==> Decide(from, to, size) == Send(from, to - from + 1, true)
  {
    WrapSum(from, to);
  }

  lemma WrapSum(from: nat, to: nat)
    requires from < 0x1_0000_0000_0000_0000 && to < 0x1_0000_0000_0000_0000
    ensures U64(from + U64(to - from + 1)) == U64(to + 1)
  {
    var d := to - from + 1;
    if 0 <= d < 0x1_0000_0000_0000_0000 {
      assert U64(d) == d;
    } else if d < 0 {
      assert U64(d) == d + 0x1_0000_0000_0000_0000;
    } else {
      assert U64(d) == 0;
    }
  }

  /**
   The count of an accepted range is not positive as an off_t, so that fd_copy sends nothing at
   all, exactly if its end lies before its beginning or is the last 64-bit value.
   */
  lemma SendsNothingExactly(from: nat, to: nat, size: nat)
    requires from < 0x1_0000_0000_0000_0000 && to < 0x1_0000_0000_0000_0000 && FileSize(size)
    requires Decide(from, to, size).Send?
    ensures OffT(Decide(from, to, size).count) <= 0 <==> to < from || to == 0xFFFF_FFFF_FFFF_FFFF
  {
    Accepted(from, to, size);
    var d := to - from + 1;
    assert U64(d) == if d == 0x1_0000_0000_0000_0000 then 0 else if d < 0 then d + 0x1_0000_0000_0000_0000 else d;
  }

  /** The two ways in which a range that names no part of the file is accepted, on a file of ten bytes. */
  lemma RangesThatShouldNotPass()
    ensures ParseRange("bytes=" + Decimal(5) + "-" + Decimal(2), 10) == Send(5, 0xFFFF_FFFF_FFFF_FFFE, true)
    ensures ParseRange("bytes=" + Decimal(3) + "-" + SignedDecimal(-1), 10) == Send(3, 0xFFFF_FFFF_FFFF_FFFD, true)
  {
    RangeText(Decimal(5), Decimal(2), 10);
    RangeText(Decimal(3), SignedDecimal(-1), 10);
    DecimalRoundTrip(5);
    DecimalRoundTrip(2);
    DecimalRoundTrip(3);
    NegativeRoundTrip(1);
    WrappedCounts();
  }

  lemma WrappedCounts()
    ensures Decide(5, 2, 10) == Send(5, 0xFFFF_FFFF_FFFF_FFFE, true)
    ensures Decide(3, 0xFFFF_FFFF_FFFF_FFFF, 10) == Send(3, 0xFFFF_FFFF_FFFF_FFFD, true)
  {
  }

  /** A range header is split at its first `-`. */
  lemma RangeText(first: string, last: string, size: nat)
    requires '-' !in first
    ensures ParseRange("bytes=" + first + "-" + last, size)
         == var to := U64(StrToL(last));
            Decide(U64(StrToL(first)), if to == 0 && last == [] then U64(size - 1) else to, size)
  {
    var a := "bytes=" + first + "-" + last;
    forall i | 0 <= i < 5
      ensures !OccursAt(a, "=", i)
    {
      OccursChar(a, '=', i);
    }
    OccursChar(a, '=', 5);
    FindIs(a, "=", 5);
    var t, n := a[5..], |first| + 1;
    assert t == "=" + first + "-" + last;
    forall i | 0 <= i < n
      ensures !OccursAt(t, "-", i)
    {
      OccursChar(t, '-', i);
    }
    OccursChar(t, '-', n);
    FindIs(t, "-", n);
    assert a[6..5 + n] == first && a[5 + n + 1..] == last;
  }

  // ---- Ranges put together again ----

  /** What the body of an answer should be. */
  function Part(data: string, a: Answer): string {
    if a.Send? && a.from + a.count <= |data| then data[a.from..a.from + a.count] else []
  }

  function ClosedRange(from: nat, to: nat): string {
    "bytes=" + Decimal(from) + "-" + Decimal(to)
  }

  function OpenRange(from: nat): string {
    "bytes=" + Decimal(from) + "-"
  }

  lemma ClosedRangePart(data: string, from: nat, to: nat)
    requires from <= to < |data| && FileSize(|data|)
    ensures ParseRange(ClosedRange(from, to), |data|) == Send(from, to - from + 1, true)
    ensures Part(data, ParseRange(ClosedRange(from, to), |data|)) == data[from..to + 1]
  {
    RangeText(Decimal(from), Decimal(to), |data|);
    DecimalRoundTrip(from);
    DecimalRoundTrip(to);
    Accepted(from, to, |data|);
  }

  lemma OpenRangePart(data: string, from: nat)
    requires from < |data| && FileSize(|data|)
    ensures ParseRange(OpenRange(from), |data|) == Send(from, |data| - from, true)
    ensures Part(data, ParseRange(OpenRange(from), |data|)) == data[from..]
  {
    RangeText(Decimal(from), "", |data|);
    assert OpenRange(from) + "" == OpenRange(from);
    DecimalRoundTrip(from);
    assert StrToL("") == 0;
    Accepted(from, |data| - 1, |data|);
  }

  type Positive = n: nat | n > 0 witness 1

  function Total(lengths: seq<Positive>): nat {
    if lengths == [] then 0 else lengths[0] + Total(lengths[1..])
  }

  /** The range headers that ask for a file in pieces of these lengths, and for the rest with an open end. */
  function Pieces(from: nat, lengths: seq<Positive>): seq<string>
    decreases |lengths|
  {
    if lengths == [] then [OpenRange(from)]
    else [ClosedRange(from, from + lengths[0] - 1)] + Pieces(from + lengths[0], lengths[1..])
  }

  function Concat(parts: seq<string>): string {
    if parts == [] then [] else parts[0] + Concat(parts[1..])
  }

  /** The bodies of the answers to these ranges. */
  function Bodies(data: string, ranges: seq<string>): (bs: seq<string>)
    ensures |bs| == |ranges|
  {
    seq(|ranges|, i requires 0 <= i < |ranges| => Part(data, ParseRange(ranges[i], |data|)))
  }

  /** The pieces of the file themselves. */
  function Slices(data: string, from: nat, lengths: seq<Positive>): seq<string>
    requires from + Total(lengths) < |data|
    decreases |lengths|
  {
    if lengths == [] then [data[from..]]
    else
      TotalBound(lengths);
      [data[from..from + lengths[0]]] + Slices(data, from + lengths[0], lengths[1..])
  }

  lemma TotalBound(lengths: seq<Positive>)
    requires lengths != []
    ensures lengths[0] + Total(lengths[1..]) == Total(lengths)
  {
  }

  lemma {:induction false} SlicesConcat(data: string, from: nat, lengths: seq<Positive>)
    requires from + Total(lengths) < |data|
    ensures Concat(Slices(data, from, lengths)) == data[from..]
    decreases |lengths|
  {
    if lengths == [] {
      assert [data[from..]][1..] == [];
    } else {
      var next := from + lengths[0];
      var rest := Slices(data, next, lengths[1..]);
      SlicesConcat(data, next, lengths[1..]);
      assert ([data[from..next]] + rest)[1..] == rest;
      assert data[from..] == data[from..next] + data[next..];
    }
  }

  lemma {:induction false} PieceIsSlice(data: string, from: nat, lengths: seq<Positive>, i: nat)
    requires FileSize(|data|) && from + Total(lengths) < |data| && i <= |lengths|
    ensures |Pieces(from, lengths)| == |Slices(data, from, lengths)| == |lengths| + 1
    ensures Part(data, ParseRange(Pieces(from, lengths)[i], |data|)) == Slices(data, from, lengths)[i]
    decreases |lengths|
  {
    if lengths == [] {
      OpenRangePart(data, from);
    } else {
      var next := from + lengths[0];
      if i == 0 {
        ClosedRangePart(data, from, next - 1);
        PieceIsSlice(data, next, lengths[1..], 0);
      } else {
        PieceIsSlice(data, next, lengths[1..], i - 1);
      }
    }
  }

  /** However a file is cut into consecutive ranges, the last open-ended, the bodies make up the file. */
  lemma RangesReassemble(data: string, lengths: seq<Positive>)
    requires FileSize(|data|) && Total(lengths) < |data|
    ensures Concat(Bodies(data, Pieces(0, lengths))) == data
  {
    PieceIsSlice(data, 0, lengths, 0);
    forall i | 0 <= i <= |lengths|
      ensures Bodies(data, Pieces(0, lengths))[i] == Slices(data, 0, lengths)[i]
    {
      PieceIsSlice(data, 0, lengths, i);
    }
    assert Bodies(data, Pieces(0, lengths)) == Slices(data, 0, lengths);
    SlicesConcat(data, 0, lengths);
  }

  // ---- Ranges as a client writes them ----

  /** What a client asks for: bytes up to and with the last one, or everything from a byte on. */
  datatype Asked =
    | Closed(from: nat, to: nat)
    | Open(from: nat)

  predicate Numbers(asked: Asked) {
    asked.from <= LLONG_MAX && (asked.Closed? ==> asked.to <= LLONG_MAX)
  }

  function RangeValue(asked: Asked): string {
    if asked.Closed? then ClosedRange(asked.from, asked.to) else OpenRange(asked.from)
  }

  /** The If-Range line, where there is one. */
  function IfRangeLine(tag: Option<nat>): seq<string> {
    if tag.Some? then [Field("If-Range", ETag(tag.value))] else []
  }

  /** A header whose lines hold a Range field and, somewhere behind it, perhaps an If-Range field. */
  function RangeLines(before: seq<string>, asked: Asked, between: seq<string>, tag: Option<nat>, after: seq<string>):
    seq<string>
  {
    before + ([Field("Range", RangeValue(asked))] + (between + (IfRangeLine(tag) + after)))
  }

  /** The lines around the two fields: the first of each name is the client's. */
  ghost predicate Around(before: seq<string>, between: seq<string>, tag: Option<nat>, after: seq<string>) {
    && before != [] && Without(before, "Range") && Without(between, "If-Range")
    && (if tag.Some? then tag.value <= LLONG_MAX else Without(after, "If-Range"))
  }

  /** This http_param asks for a range, on condition that the file is the one with this tag. */
  ghost predicate Asks(httpParam: string, asked: Asked, tag: Option<nat>) {
    exists before, between, after ::
      && Around(before, between, tag, after)
      && httpParam == Joined(RangeLines(before, asked, between, tag, after))
  }

  /** The range is to be answered with a part of the file, and not with all of it. */
  predicate Current(tag: Option<nat>, mtime: int) {
    tag.Some? ==> tag.value == mtime
  }

  /** The bytes a client asks for lie in a file of this size. */
  predicate Inside(asked: Asked, size: nat) {
    asked.from < size && (asked.Closed? ==> asked.to < size)
  }

  /** The bytes asked for; none where the end of a range lies before its beginning. */
  function Wanted(data: string, asked: Asked): string
    requires Inside(asked, |data|)
  {
    if asked.Open? then data[asked.from..]
    else if asked.to < asked.from then []
    else data[asked.from..asked.to + 1]
  }

  lemma RangeValueFits(asked: Asked)
    requires Numbers(asked)
    ensures CR !in RangeValue(asked) && |RangeValue(asked)| + 1 < RBUFFER
    ensures 'I' !in RangeValue(asked)
  {
    LongSize(asked.from);
    DigitsOfDecimal(asked.from);
    if asked.Closed? {
      LongSize(asked.to);
      DigitsOfDecimal(asked.to);
    }
  }

  lemma TagFits(tag: nat)
    requires tag <= LLONG_MAX
    ensures CR !in ETag(tag) && |ETag(tag)| + 1 < RBUFFER && '=' !in ETag(tag)
  {
    LongSize(tag);
    DigitsOfDecimal(tag);
  }

  /** A text does not occur where its first character does not. */
  lemma FreeByChar(s: string, pat: string)
    requires pat != [] && pat[0] !in s
    ensures Free(s, pat)
  {
    forall i
      ensures !OccursAt(s, pat, i)
    {
      if 0 <= i {
        Mismatch(s, pat, i, 0);
      }
    }
  }

  /** Where there is no Range, there is no If-Range. */
  lemma FreeOfIfRange(s: string)
    requires Free(s, "Range")
    ensures Free(s, "If-Range")
  {
    forall i
      ensures !OccursAt(s, "If-Range", i)
    {
      if OccursAt(s, "If-Range", i) {
        assert s[i + 3..i + 8] == s[i..i + 8][3..];
        assert OccursAt(s, "Range", i + 3);
      }
    }
  }

  /** No line in front of the If-Range field, the Range field included, holds its name. */
  lemma NoIfRangeYet(before: seq<string>, asked: Asked, between: seq<string>)
    requires Numbers(asked) && Without(before, "Range") && Without(between, "If-Range")
    ensures Without(before + ([Field("Range", RangeValue(asked))] + between), "If-Range")
  {
    var line := Field("Range", RangeValue(asked));
    RangeValueFits(asked);
    assert 'I' !in line;
    FreeByChar(line, "If-Range");
    forall l | l in before
      ensures Free(l, "If-Range")
    {
      FreeOfIfRange(l);
    }
  }

  /** The Range field of a written header is found. */
  lemma RangeIsFound(before: seq<string>, asked: Asked, between: seq<string>, tag: Option<nat>, after: seq<string>)
    requires Numbers(asked) && Around(before, between, tag, after)
    ensures ParamValue(Joined(RangeLines(before, asked, between, tag, after)), "Range", RBUFFER)
         == Some(RangeValue(asked))
  {
    var rest := between + (IfRangeLine(tag) + after);
    RangeValueFits(asked);
    FieldBetween(before, "Range", RangeValue(asked), rest);
    FieldRead(before, "Range", RangeValue(asked), Joined(rest), RBUFFER);
  }

  /** So is its If-Range field, and no other is. */
  lemma IfRangeIsFound(before: seq<string>, asked: Asked, between: seq<string>, tag: Option<nat>, after: seq<string>)
    requires Numbers(asked) && Around(before, between, tag, after)
    ensures ParamValue(Joined(RangeLines(before, asked, between, tag, after)), "If-Range", RBUFFER)
         == if tag.Some? then Some(ETag(tag.value)) else None
  {
    var lines := RangeLines(before, asked, between, tag, after);
    var front := before + ([Field("Range", RangeValue(asked))] + between);
    NoIfRangeYet(before, asked, between);
    assert lines == front + (IfRangeLine(tag) + after);
    if tag.Some? {
      TagFits(tag.value);
      FieldBetween(front, "If-Range", ETag(tag.value), after);
      FieldRead(front, "If-Range", ETag(tag.value), Joined(after), RBUFFER);
    } else {
      assert forall l :: l in lines ==> l in front || l in after;
      JoinedFree(lines, "If-Range");
      FieldMissing(Joined(lines), "If-Range", RBUFFER);
    }
  }

  /** The answer to a range that is written out as text. */
  lemma AskedIsDecided(asked: Asked, size: nat)
    requires Numbers(asked) && FileSize(size)
    ensures ParseRange(RangeValue(asked), size)
         == Decide(asked.from, if asked.Closed? then asked.to else U64(size - 1), size)
  {
    DecimalRoundTrip(asked.from);
    if asked.Closed? {
      RangeText(Decimal(asked.from), Decimal(asked.to), size);
      DecimalRoundTrip(asked.to);
    } else {
      RangeText(Decimal(asked.from), "", size);
      assert OpenRange(asked.from) + "" == OpenRange(asked.from);
      assert StrToL("") == 0;
    }
  }

  /** The part of a file between two ends inside it. */
  lemma DecidedPart(data: string, from: nat, to: nat)
    requires FileSize(|data|) && from < |data| && to < |data|
    ensures Decide(from, to, |data|).Send?
    ensures Part(data, Decide(from, to, |data|)) == if to < from then [] else data[from..to + 1]
  {
    Accepted(from, to, |data|);
    if to < from {
      assert U64(to - from + 1) == if to - from + 1 == 0 then 0 else to - from + 1 + 0x1_0000_0000_0000_0000;
    }
  }

  /** A range inside the file gets its bytes. */
  lemma InsideIsSent(data: string, asked: Asked)
    requires Numbers(asked) && FileSize(|data|) && Inside(asked, |data|)
    ensures ParseRange(RangeValue(asked), |data|).Send?
    ensures Part(data, ParseRange(RangeValue(asked), |data|)) == Wanted(data, asked)
  {
    AskedIsDecided(asked, |data|);
    DecidedPart(data, asked.from, if asked.Closed? then asked.to else |data| - 1);
  }

  /** A range that reaches past the file is refused. */
  lemma OutsideIsRefused(asked: Asked, size: nat)
    requires Numbers(asked) && FileSize(size) && !Inside(asked, size)
    ensures ParseRange(RangeValue(asked), size) == NotSatisfiable
  {
    AskedIsDecided(asked, size);
    Accepted(asked.from, if asked.Closed? then asked.to else U64(size - 1), size);
  }

  /** Whether the range of a written header is looked at. */
  lemma AskedIsRead(httpParam: string, size: nat, mtime: int, asked: Asked, tag: Option<nat>)
    requires Numbers(asked) && Asks(httpParam, asked, tag)
    ensures BytesToSend(httpParam, size, mtime)
         == if Current(tag, mtime) then ParseRange(RangeValue(asked), size) else Send(0, size, false)
  {
    var before, between, after :|
      && Around(before, between, tag, after)
      && httpParam == Joined(RangeLines(before, asked, between, tag, after));
    RangeIsFound(before, asked, between, tag, after);
    IfRangeIsFound(before, asked, between, tag, after);
    IfRangeDecides(httpParam, RangeValue(asked), size, mtime, if tag.Some? then tag.value else 0);
  }

  /** Which part of the file a written header gets. */
  lemma AskedIsAnswered(httpParam: string, data: string, mtime: int, asked: Asked, tag: Option<nat>)
    requires Numbers(asked) && FileSize(|data|) && Asks(httpParam, asked, tag)
    ensures var a := BytesToSend(httpParam, |data|, mtime);
      && (!Current(tag, mtime) ==> a == Send(0, |data|, false) && Part(data, a) == data)
      && (Current(tag, mtime) && Inside(asked, |data|) ==> a.Send? && Part(data, a) == Wanted(data, asked))
      && (Current(tag, mtime) && !Inside(asked, |data|) ==> a == NotSatisfiable)
  {
    AskedIsRead(httpParam, |data|, mtime, asked, tag);
    if Inside(asked, |data|) {
      InsideIsSent(data, asked);
    } else {
      OutsideIsRefused(asked, |data|);
    }
  }

  /** Without the name of the field the whole file is sent. */
  lemma NoRangeSendsAll(httpParam: string, data: string, mtime: int)
    requires Free(httpParam, "Range")
    ensures BytesToSend(httpParam, |data|, mtime) == Send(0, |data|, false)
    ensures Part(data, Send(0, |data|, false)) == data
  {
    FieldMissing(httpParam, "Range", RBUFFER);
  }

  /**
   The order of the two fields matters: an If-Range field in front of the first other line with
   `Range` in it is itself taken for the Range field, so that the request is refused exactly
   where the client's copy is current, and gets the whole file otherwise.
   */
  lemma IfRangeFirst(before: seq<string>, tag: nat, after: seq<string>, size: nat, mtime: int)
    requires before != [] && Without(before, "Range") && tag <= LLONG_MAX
    ensures BytesToSend(Joined(before + ([Field("If-Range", ETag(tag))] + after)), size, mtime)
         == if tag == mtime then BadRequest else Send(0, size, false)
  {
    var hp := Joined(before + ([Field("If-Range", ETag(tag))] + after));
    TagFits(tag);
    FieldBetween(before, "If-Range", ETag(tag), after);
    IfRangeRead(before, ETag(tag), Joined(after));
    IfRangeAsRange(before, ETag(tag), Joined(after));
    IfRangeDecides(hp, ETag(tag), size, mtime, tag);
    FreeByChar(ETag(tag), "=");
    FindNone(ETag(tag), "=");
  }

  lemma IfRangeRead(before: seq<string>, value: string, after: string)
    requires before != [] && Without(before, "Range") && CR !in value && |value| + 1 < RBUFFER
    ensures ParamValue(WithField(before, "If-Range", value, after), "If-Range", RBUFFER) == Some(value)
  {
    forall l | l in before
      ensures Free(l, "If-Range")
    {
      FreeOfIfRange(l);
    }
    FieldRead(before, "If-Range", value, after, RBUFFER);
  }

  /** Neither in the lines before nor across their end nor in `If-` does a Range begin. */
  lemma NotYet(front: string, tail: string, s: string, i: nat)
    requires s == front + tail && |tail| >= 3 && tail[..3] == "If-" && i < |front| + 3
    requires Free(front, "Range") && front != [] && front[|front| - 1] == LF
    ensures !OccursAt(s, "Range", i)
  {
    if i + 5 <= |front| {
      assert s[0..|front|] == front;
      OccursShift(s, 0, |front|, "Range", i);
    } else if i < |front| {
      Mismatch(s, "Range", i, |front| - 1 - i);
    } else {
      assert s[i] == tail[..3][i - |front|];
      Mismatch(s, "Range", i, 0);
    }
  }

  lemma IfRangeAsRange(before: seq<string>, value: string, after: string)
    requires before != [] && Without(before, "Range") && CR !in value && |value| + 1 < RBUFFER
    ensures ParamValue(WithField(before, "If-Range", value, after), "Range", RBUFFER) == Some(value)
  {
    var front := Joined(before);
    var hp := WithField(before, "If-Range", value, after);
    var tail := Field("If-Range", value) + (CRLF + after);
    JoinedFree(before, "Range");
    JoinedAppend(before, []);
    assert tail[..3] == "If-";
    forall i | 0 <= i < |front| + 3
      ensures !OccursAt(hp, "Range", i)
    {
      NotYet(front, tail, hp, i);
    }
    assert tail[3..8] == "Range";
    assert hp[|front| + 3..|front| + 8] == tail[3..8];
    FindIs(hp, "Range", |front| + 3);
    assert hp == (front + "If-") + "Range" + ": " + value + CRLF + after;
    ParamLayout(hp, front + "If-", "Range", value, after, RBUFFER);
  }

  // ---- The copy loop ----

  /** An open file; reads may come back short, and fail unless the file is `reliable`. */
  class OpenFile {
    const data: string
    const reliable: bool
    var pos: nat

    constructor (data: string, reliable: bool)
      ensures this.data == data && this.reliable == reliable && pos == 0
    {
      this.data := data;
      this.reliable := reliable;
      pos := 0;
    }

    method Read(n: nat) returns (r: int, bytes: string)
      requires n > 0 && pos <= |data|
      modifies this
      ensures old(pos) <= pos <= |data| && bytes == data[old(pos)..pos] && |bytes| <= n
      ensures r == |bytes| || (r < 0 && bytes == [] && !reliable)
      ensures reliable && old(pos) < |data| ==> r > 0
    {
      var fails: bool := *;
      if fails && !reliable {
        return -1, [];
      }
      var some: nat := *;
      var most := if n < |data| - pos then n else |data| - pos;
      r := if 0 < some <= most then some else most;
      bytes := data[pos..pos + r];
      pos := pos + r;
    }
  }

  /** The client's end; a write may be short or fail, unless it is `healthy`. */
  class Sink {
    const healthy: bool
    var out: string

    constructor (healthy: bool)
      ensures this.healthy == healthy && out == []
    {
      this.healthy := healthy;
      out := [];
    }

    method Write(bytes: string) returns (wrote: int)
      modifies this
      ensures exists k :: 0 <= k <= |bytes| && out == old(out) + bytes[..k] && (wrote == k || (wrote < 0 && k == 0))
      ensures wrote == |bytes| ==> out == old(out) + bytes
      ensures healthy ==> wrote == |bytes|
    {
      var k: int := *;
      var fails: bool := *;
      if healthy || k < 0 || k > |bytes| {
        k, fails := |bytes|, false;
      }
      if fails {
        assert out + bytes[..0] == out;
        return -1;
      }
      assert bytes[..|bytes|] == bytes;
      out := out + bytes[..k];
      wrote := k;
    }
  }

  /** The part of the file that may have been sent: a prefix of at most `count` bytes. */
  ghost predicate SentPrefix(data: string, pos: nat, count: int, sent: string) {
    pos <= |data| && sent <= data[pos..] && (|sent| <= count || sent == [])
  }

  /** What has been sent since the file stood at `start`: exactly what was read since then. */
  ghost predicate Copied(data: string, start: nat, pos: nat, before: string, out: string, sent: string) {
    start <= pos <= |data| && sent == data[start..pos] && out == before + sent
  }

  /** Sending the first k bytes of the next piece. */
  lemma CopiedOn(data: string, start: nat, pos: nat, before: string, out: string, sent: string, k: nat)
    requires Copied(data, start, pos, before, out, sent) && pos + k <= |data|
    ensures Copied(data, start, pos + k, before, out + data[pos..pos + k], sent + data[pos..pos + k])
  {
    assert data[start..pos + k] == data[start..pos] + data[pos..pos + k];
    AppendAssoc(before, sent, data[pos..pos + k]);
  }

  /** One round of fd_copy; `more` says that the loop goes on. */
  method CopyRound(from: OpenFile, to: Sink, left: nat, ghost start: nat, ghost before: string, ghost sent: string)
    returns (got: int, more: bool, ghost sent': string)
    requires left > 0 && Copied(from.data, start, from.pos, before, to.out, sent)
    modifies from, to
    ensures more ==> 0 < got <= left && |sent'| == |sent| + got
    ensures more ==> Copied(from.data, start, from.pos, before, to.out, sent')
    ensures !more ==> |sent'| <= |sent| + left
    ensures !more ==> exists pos :: Copied(from.data, start, pos, before, to.out, sent')
    ensures !more && from.reliable && to.healthy ==> start + |sent'| == |from.data|
  {
    sent', more := sent, false;
    ghost var at := from.pos;
    var buf;
    got, buf := from.Read(if FILEBUF < left then FILEBUF else left);
    if got <= 0 {
      assert Copied(from.data, start, at, before, to.out, sent');
      return;
    }
    ghost var out := to.out;
    var wrote := to.Write(buf);
    ghost var k: nat;
    if wrote == got {
      k := |buf|;
      more := true;
    } else {
      k :| 0 <= k <= |buf| && to.out == out + buf[..k];
    }
    assert buf[..k] == from.data[at..at + k] && buf[..|buf|] == buf;
    CopiedOn(from.data, start, at, before, out, sent, k);
    sent' := sent + buf[..k];
    assert Copied(from.data, start, at + k, before, to.out, sent');
  }

  /** fd_copy: at most `count` bytes from the file's position to the sink. */
  method FdCopy(from: OpenFile, to: Sink, count: int) returns (result: int, ghost sent: string)
    requires from.pos <= |from.data|
    modifies from, to
    ensures result == 0 || (result == ERR_NOMEM && sent == [])
    ensures from.reliable && to.healthy ==> result == 0
    ensures to.out == old(to.out) + sent && SentPrefix(from.data, old(from.pos), count, sent)
    ensures from.reliable && to.healthy && 0 <= count <= |from.data| - old(from.pos) ==>
      sent == from.data[old(from.pos)..old(from.pos) + count]
  {
    sent := [];
    var memory: bool := *;
    if !memory && !(from.reliable && to.healthy) {
      return ERR_NOMEM, sent;
    }
    var left := count;
    var more := true;
    ghost var start, before := from.pos, to.out;
    ghost var pos: nat := start;
    while left > 0 && more
      invariant Copied(from.data, start, pos, before, to.out, sent) && (more ==> pos == from.pos)
      invariant count >= 0 ==> 0 <= left && |sent| <= count && (more ==> left == count - |sent|)
      invariant count < 0 ==> left == count && sent == []
      invariant !more && from.reliable && to.healthy ==> start + |sent| == |from.data|
      decreases more, left
    {
      var got;
      got, more, sent := CopyRound(from, to, left, start, before, sent);
      if more {
        left := left - got;
        pos := from.pos;
      } else {
        pos :| Copied(from.data, start, pos, before, to.out, sent);
      }
    }
    assert sent == from.data[start..][..|sent|];
    result := 0;
  }

  /** Where a range reaches past the file, its wrapped count is not positive as an off_t. */
  lemma SendFits(from: nat, to: nat, size: nat)
    requires from < 0x1_0000_0000_0000_0000 && to < 0x1_0000_0000_0000_0000 && FileSize(size)
    requires Decide(from, to, size).Send?
    ensures var a := Decide(from, to, size);
      a.from <= size && a.count < 0x1_0000_0000_0000_0000
      && (a.from + a.count <= size || OffT(a.count) <= 0)
  {
    Accepted(from, to, size);
  }

  lemma AnswerFits(httpParam: string, size: nat, mtime: int)
    requires FileSize(size) && BytesToSend(httpParam, size, mtime).Send?
    ensures var a := BytesToSend(httpParam, size, mtime);
      a.from <= size && a.count < 0x1_0000_0000_0000_0000
      && (a.from + a.count <= size || OffT(a.count) <= 0)
  {
    var range := ParamValue(httpParam, "Range", RBUFFER);
    if range.Some? && ParseRange(range.value, size).Send? {
      RangeFits(range.value, size);
    }
  }

  lemma RangeFits(a: string, size: nat)
    requires FileSize(size) && ParseRange(a, size).Send?
    ensures var r := ParseRange(a, size);
      r.from <= size && r.count < 0x1_0000_0000_0000_0000
      && (r.from + r.count <= size || OffT(r.count) <= 0)
  {
    var from, to :| 0 <= from < 0x1_0000_0000_0000_0000 && 0 <= to < 0x1_0000_0000_0000_0000
                 && ParseRange(a, size) == Decide(from, to, size);
    SendFits(from, to, size);
  }

  /** What the two lemmas above say of every header at once. */
  lemma AnswersAsked(httpParam: string, data: string, mtime: int)
    requires FileSize(|data|)
    ensures Free(httpParam, "Range") ==>
      var a := BytesToSend(httpParam, |data|, mtime); a.Send? && Part(data, a) == data
    ensures forall asked, tag :: Asks(httpParam, asked, tag) && Numbers(asked) ==>
      var a := BytesToSend(httpParam, |data|, mtime);
      && (Current(tag, mtime) && !Inside(asked, |data|) ==> a == NotSatisfiable)
      && (Current(tag, mtime) && Inside(asked, |data|) ==> a.Send? && Part(data, a) == Wanted(data, asked))
      && (!Current(tag, mtime) ==> a.Send? && Part(data, a) == data)
  {
    if Free(httpParam, "Range") {
      NoRangeSendsAll(httpParam, data, mtime);
    }
    forall asked, tag | Asks(httpParam, asked, tag) && Numbers(asked)
      ensures var a := BytesToSend(httpParam, |data|, mtime);
        && (Current(tag, mtime) && !Inside(asked, |data|) ==> a == NotSatisfiable)
        && (Current(tag, mtime) && Inside(asked, |data|) ==> a.Send? && Part(data, a) == Wanted(data, asked))
        && (!Current(tag, mtime) ==> a.Send? && Part(data, a) == data)
    {
      AskedIsAnswered(httpParam, data, mtime, asked, tag);
    }
  }

  /**
   write_file after its ETag test, on a file just opened: the body that follows the header.
   Where all goes well it is exactly the part of the file that the answer names.
   */
  method WriteFile(httpParam: string, file: OpenFile, to: Sink, mtime: int) returns (result: int, ghost sent: string)
    requires file.pos == 0 && FileSize(|file.data|)
    modifies file, to
    ensures to.out == old(to.out) + sent
    ensures var a := BytesToSend(httpParam, |file.data|, mtime);
      && (a == BadRequest ==> result == ERR_NOTHTTP && sent == [])
      && (a == NotSatisfiable ==> result == ERR_RANGE_NOT_SATISFIABLE && sent == [])
      && (a.Send? ==> sent <= Part(file.data, a) && (result == 0 || result == ERR_NOMEM))
      && (a.Send? && file.reliable && to.healthy ==> result == 0 && sent == Part(file.data, a))
    ensures Free(httpParam, "Range") && file.reliable && to.healthy ==> result == 0 && sent == file.data
    ensures forall asked, tag :: Asks(httpParam, asked, tag) && Numbers(asked) ==>
      && (Current(tag, mtime) && !Inside(asked, |file.data|) ==> result == ERR_RANGE_NOT_SATISFIABLE && sent == [])
      && (Current(tag, mtime) && Inside(asked, |file.data|) && file.reliable && to.healthy ==>
            result == 0 && sent == Wanted(file.data, asked))
      && (!Current(tag, mtime) && file.reliable && to.healthy ==> result == 0 && sent == file.data)
  {
    AnswersAsked(httpParam, file.data, mtime);
    sent := [];
    assert to.out == to.out + sent;
    var a := BytesToSend(httpParam, |file.data|, mtime);
    if a.BadRequest? {
      return ERR_NOTHTTP, sent;
    }
    if a.NotSatisfiable? {
      return ERR_RANGE_NOT_SATISFIABLE, sent;
    }
    AnswerFits(httpParam, |file.data|, mtime);
    if a.from > 0 {
      file.pos := a.from;
    }
    result, sent := FdCopy(file, to, OffT(a.count));
    if a.from + a.count <= |file.data| {
      assert sent <= file.data[a.from..][..a.count];
    }
  }
}
