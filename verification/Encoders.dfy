/** The text encoders (utils.c, webdav.c) against the decoders that undo them. */
module Encoders {
  import opened CString
  import opened CNumber
  import opened InPlace

  // ---- Percent codes, section 2.1 of RFC 3986 ----

  /** Every percent sign starts two hexadecimal digits. */
  predicate WellFormed(s: string) {
    s == [] ||
    if s[0] != '%' then WellFormed(s[1..])
    else |s| >= 3 && DigitValue(s[1]) < 16 && DigitValue(s[2]) < 16 && WellFormed(s[3..])
  }

  /** The decoder of the standard. */
  function PctDecode(s: string): string
    requires WellFormed(s)
  {
    if s == [] then []
    else if s[0] != '%' then [s[0]] + PctDecode(s[1..])
    else [(16 * DigitValue(s[1]) + DigitValue(s[2])) as char] + PctDecode(s[3..])
  }

  /** On well-formed escapes, what replaceEscape leaves in the buffer is what the standard decodes. */
  lemma {:induction false} UnescapeIsPctDecode(s: string)
    requires WellFormed(s)
    ensures Unescape(s) == PctDecode(s)
  {
    if s != [] {
      if s[0] != '%' {
        UnescapeIsPctDecode(s[1..]);
      } else {
        UnescapeIsPctDecode(s[3..]);
      }
    }
  }

  /** "%%%02x" for a character below 256. */
  function PctCode(c: char): (s: string)
    requires c as int < 256
    ensures |s| == 3 && NUL !in s
  {
    ['%', DigitChar(c as int / 16), DigitChar(c as int % 16)]
  }

  /** The characters uri_encode escapes. */
  predicate Forbidden(c: char) {
    c in {'!', '*', '\'', '(', ')', ';', ':', '@', '&', '=', '+', '$', ',', '/', '?', '#', '[', ']', '%', '>', '<', '\"', ' ', '\\'}
  }

  /** x | ' ' for a 7-bit character. */
  function OrSpace(c: char): char
    requires c as int < 128
  {
    if c as int / 32 % 2 == 1 then c else (c as int + 32) as char
  }

  /** The characters escape_uri leaves alone. */
  predicate Plain(c: char)
    requires c as int < 128
  {
    'a' <= OrSpace(c) <= 'z' || '-' <= c <= '9'
  }

  predicate SevenBit(s: string) {
    forall i :: 0 <= i < |s| ==> s[i] as int < 128
  }

  function UriUnit(c: char): (u: string)
    ensures 1 <= |u| <= 3 && (c != NUL ==> NUL !in u)
  {
    if Forbidden(c) then PctCode(c) else [c]
  }

  function EscapeUnit(c: char): (u: string)
    requires c as int < 128
    ensures (|u| == 1 || |u| == 3) && NUL !in u
  {
    if Plain(c) then [c] else PctCode(c)
  }

  /** uri_encode of a name, with room to spare. */
  function UriEncoded(s: string): (e: string)
    ensures |e| <= 3 * |s| && (NUL !in s ==> NUL !in e)
  {
    if s == [] then [] else UriEncoded(s[..|s| - 1]) + UriUnit(s[|s| - 1])
  }

  /** escape_uri of a 7-bit string, with room to spare. */
  function UriEscaped(s: string): (e: string)
    requires SevenBit(s)
    ensures |e| <= 3 * |s| && NUL !in e
  {
    if s == [] then [] else UriEscaped(s[..|s| - 1]) + EscapeUnit(s[|s| - 1])
  }

  /** One step of the decoder does not look past the unit it decodes. */
  lemma DecodeStep(s: string, t: string)
    requires s != [] && WellFormed(s) && WellFormed(s + t)
    ensures var n := if s[0] != '%' then 1 else 3;
      n <= |s| && WellFormed(s[n..]) && (s + t)[n..] == s[n..] + t && WellFormed(s[n..] + t)
      && PctDecode(s)[..1] + PctDecode(s[n..]) == PctDecode(s)
      && PctDecode(s)[..1] + PctDecode(s[n..] + t) == PctDecode(s + t)
  {
    var n := if s[0] != '%' then 1 else 3;
    assert (s + t)[n..] == s[n..] + t;
    assert forall i :: 0 <= i < n ==> (s + t)[i] == s[i];
  }

  lemma {:induction false} WellFormedAppend(s: string, t: string)
    requires WellFormed(s) && WellFormed(t)
    ensures WellFormed(s + t)
  {
    if s == [] {
      assert s + t == t;
    } else {
      WellFormedAppend(s[if s[0] != '%' then 1 else 3..], t);
      WellFormedFirst(s, t);
    }
  }

  lemma {:induction false} WellFormedFirst(s: string, t: string)
    requires s != [] && WellFormed(s)
    requires var n := if s[0] != '%' then 1 else 3; WellFormed(s[n..] + t)
    ensures WellFormed(s + t)
  {
    var n := if s[0] != '%' then 1 else 3;
    assert (s + t)[n..] == s[n..] + t;
    assert forall i :: 0 <= i < n ==> (s + t)[i] == s[i];
  }

  lemma {:induction false} DecodeAppend(s: string, t: string)
    requires WellFormed(s) && WellFormed(t)
    ensures WellFormed(s + t)
    ensures PctDecode(s + t) == PctDecode(s) + PctDecode(t)
  {
    WellFormedAppend(s, t);
    if s == [] {
      assert s + t == t;
    } else {
      DecodeStep(s, t);
      var rest := s[if s[0] != '%' then 1 else 3..];
      DecodeAppend(rest, t);
      AppendAssoc(PctDecode(s)[..1], PctDecode(rest), PctDecode(t));
    }
  }

  lemma UnitDecodes(c: char, u: string)
    requires (u == [c] && c != '%') || (c as int < 256 && u == PctCode(c))
    ensures WellFormed(u) && PctDecode(u) == [c]
  {
    if c as int < 256 && u == PctCode(c) {
      assert u[3..] == [];
    } else {
      assert u[1..] == [];
    }
  }

  /** A unit behind a text that decodes to x. */
  lemma UnitBehind(before: string, unit: string, x: string, c: char)
    requires WellFormed(before) && PctDecode(before) == x
    requires (unit == [c] && c != '%') || (c as int < 256 && unit == PctCode(c))
    ensures WellFormed(before + unit) && PctDecode(before + unit) == x + [c]
  {
    UnitDecodes(c, unit);
    DecodeAppend(before, unit);
  }

  /** replaceEscape undoes uri_encode on every name, percent signs included. */
  lemma {:induction false} UriRoundTrip(s: string)
    ensures WellFormed(UriEncoded(s)) && PctDecode(UriEncoded(s)) == s
    ensures Unescape(UriEncoded(s)) == s
  {
    if s != [] {
      var n := |s| - 1;
      UriRoundTrip(s[..n]);
      UnitBehind(UriEncoded(s[..n]), UriUnit(s[n]), s[..n], s[n]);
      assert s == s[..n] + [s[n]];
    }
    UnescapeIsPctDecode(UriEncoded(s));
  }

  /** replaceEscape undoes escape_uri on every 7-bit string. */
  lemma {:induction false} EscapeRoundTrip(s: string)
    requires SevenBit(s)
    ensures WellFormed(UriEscaped(s)) && PctDecode(UriEscaped(s)) == s
    ensures Unescape(UriEscaped(s)) == s
  {
    if s != [] {
      var n := |s| - 1;
      EscapeRoundTrip(s[..n]);
      UnitBehind(UriEscaped(s[..n]), EscapeUnit(s[n]), s[..n], s[n]);
      assert s == s[..n] + [s[n]];
    }
    UnescapeIsPctDecode(UriEscaped(s));
  }

  // ---- HTML entities ----

  function HtmlUnit(c: char): (u: string)
    ensures 1 <= |u| <= 6 && (c != NUL ==> NUL !in u)
  {
    match c
    case '&' => "&amp;"
    case '<' => "&lt;"
    case '>' => "&gt;"
    case ' ' => "&nbsp;"
    case '\"' => "&quot;"
    case _ => [c]
  }

  function HtmlEncoded(s: string): (e: string)
    ensures NUL !in s ==> NUL !in e
  {
    if s == [] then [] else HtmlEncoded(s[..|s| - 1]) + HtmlUnit(s[|s| - 1])
  }

  /** s starts with this entity; the second character already tells the five apart. */
  predicate Starts(s: string, entity: string)
    requires |entity| > 1
  {
    |entity| <= |s| && s[0] == '&' && s[1] == entity[1] && s[..|entity|] == entity
  }

  /** Reads the five entities back; any other text stands for itself. */
  function HtmlDecoded(s: string): string {
    if s == [] then []
    else if Starts(s, "&amp;") then ['&'] + HtmlDecoded(s[5..])
    else if Starts(s, "&lt;") then ['<'] + HtmlDecoded(s[4..])
    else if Starts(s, "&gt;") then ['>'] + HtmlDecoded(s[4..])
    else if Starts(s, "&nbsp;") then [' '] + HtmlDecoded(s[6..])
    else if Starts(s, "&quot;") then ['\"'] + HtmlDecoded(s[6..])
    else [s[0]] + HtmlDecoded(s[1..])
  }

  lemma HtmlUnitDecodes(c: char, t: string)
    ensures HtmlDecoded(HtmlUnit(c) + t) == [c] + HtmlDecoded(t)
  {
    var u := HtmlUnit(c);
    var s := u + t;
    assert s[|u|..] == t && s[..|u|] == u && s[0] == u[0];
    if |u| > 1 {
      assert Starts(s, u) && s[1] == u[1];
    }
  }

  lemma {:induction false} HtmlDecodeAppend(s: string, t: string)
    ensures HtmlDecoded(HtmlEncoded(s) + t) == s + HtmlDecoded(t)
  {
    if s == [] {
      assert HtmlEncoded(s) + t == t;
    } else {
      var n := |s| - 1;
      AppendAssoc(HtmlEncoded(s[..n]), HtmlUnit(s[n]), t);
      HtmlDecodeAppend(s[..n], HtmlUnit(s[n]) + t);
      HtmlUnitDecodes(s[n], t);
      assert s == s[..n] + [s[n]];
      AppendAssoc(s[..n], [s[n]], HtmlDecoded(t));
    }
  }

  /** Decoding an encoded name gives the name. */
  lemma HtmlRoundTrip(s: string)
    ensures HtmlDecoded(HtmlEncoded(s)) == s
  {
    HtmlDecodeAppend(s, []);
    assert HtmlEncoded(s) + [] == HtmlEncoded(s);
  }

  // ---- What the encoded texts are free of ----

  /** No reserved character of section 2.2 of RFC 3986, and no space or markup. */
  predicate Unreserved(c: char) {
    c !in "!*'();:@&=+$,/?#[]<>\" \\"
  }

  predicate HexDigit(c: char) {
    '0' <= c <= '9' || 'a' <= c <= 'f'
  }

  lemma CodeIsHex(c: char)
    requires c as int < 256
    ensures PctCode(c)[0] == '%' && HexDigit(PctCode(c)[1]) && HexDigit(PctCode(c)[2])
  {
  }

  /** An encoded name holds none of them. */
  lemma {:induction false} UriIsUnreserved(s: string)
    ensures forall c :: c in UriEncoded(s) ==> Unreserved(c)
  {
    if s != [] {
      var n := |s| - 1;
      UriIsUnreserved(s[..n]);
      UnitIsUnreserved(s[n]);
    }
  }

  lemma UnitIsUnreserved(c: char)
    ensures forall d :: d in UriUnit(c) ==> Unreserved(d)
  {
    if Forbidden(c) {
      CodeIsHex(c);
    }
  }

  /** An escaped text holds letters, digits, `-`, `.`, `/` and percent signs only. */
  lemma {:induction false} EscapedIsPlain(s: string)
    requires SevenBit(s)
    ensures forall c :: c in UriEscaped(s) ==> 'a' <= c <= 'z' || 'A' <= c <= 'Z' || '-' <= c <= '9' || c == '%'
  {
    if s != [] {
      var n := |s| - 1;
      EscapedIsPlain(s[..n]);
      CodeIsHex(s[n]);
    }
  }

  /** An encoded name holds no angle bracket, double quote or space. */
  lemma {:induction false} HtmlIsText(s: string)
    ensures forall c :: c in HtmlEncoded(s) ==> c != '<' && c != '>' && c != '\"' && c != ' '
  {
    if s != [] {
      HtmlIsText(s[..|s| - 1]);
      UnitIsText(s[|s| - 1]);
    }
  }

  lemma UnitIsText(c: char)
    ensures forall d :: d in HtmlUnit(c) ==> d != '<' && d != '>' && d != '\"' && d != ' '
  {
  }

  // ---- The loops, writing into a bounded buffer ----

  /** The memory begins with this text and a NUL. */
  predicate Written(mem: string, text: string) {
    |text| < |mem| && mem[..|text|] == text && mem[|text|] == NUL
  }

  /** sprintf and strcpy: the text and its NUL at offset `at`. */
  method Write(dest: array<char>, at: nat, text: string, ghost before: string)
    requires at + |text| < dest.Length
    requires at == |before| && dest[..at] == before
    modifies dest
    ensures Written(dest[..], before + text)
    ensures forall k :: at + |text| < k < dest.Length ==> dest[k] == old(dest[k])
  {
    forall k | at <= k < at + |text| {
      dest[k] := text[k - at];
    }
    dest[at + |text|] := NUL;
    forall i | 0 <= i < |text|
      ensures dest[at..at + |text|][i] == text[i]
    {
      assert dest[at + i] == text[(at + i) - at];
    }
    assert dest[at..at + |text|] == text;
    assert dest[..at + |text|] == dest[..at] + dest[at..at + |text|];
  }

  /**
   No escape starts where only three of `size` bytes are left: it needs four with its NUL, but
   the size test of uri_encode asks for three.
   */
  predicate NeverTight(origin: string, size: int) {
    forall i :: 0 <= i < |origin| && Forbidden(origin[i]) ==> |UriEncoded(origin[..i])| + 3 != size
  }

  /** Three bytes a character and one for the NUL are always enough. */
  lemma ThreeBytesEach(origin: string, size: int)
    requires 3 * |origin| < size
    ensures NeverTight(origin, size)
  {
    forall i | 0 <= i < |origin|
      ensures |UriEncoded(origin[..i])| + 3 != size
    {
      assert |origin[..i]| == i;
    }
  }

  /** A single space is tight for three bytes: `%20` and its NUL take four. */
  lemma SpaceIsTight()
    ensures !NeverTight(" ", 3)
  {
    assert " "[..0] == [] && Forbidden(" "[0]) && |UriEncoded(" "[..0])| + 3 == 3;
  }

  const ESCAPED_FNAME_LEN := 256 * 3
  const NAME_MAX := 255

  /** The one caller never meets a tight name: file names are short for the buffer of list_dir. */
  lemma ListedNamesFit(name: string)
    requires |name| <= NAME_MAX
    ensures 3 * |name| < ESCAPED_FNAME_LEN && NeverTight(name, ESCAPED_FNAME_LEN)
  {
    ThreeBytesEach(name, ESCAPED_FNAME_LEN);
  }

  /**
   uri_encode into `size` bytes: stops as soon as no three are free. A name that is tight for
   this size takes one byte more than `size`, exactly then, so the caller must own it.
   */
  method UriEncode(dest: array<char>, size: nat, origin: string) returns (ghost done: nat)
    requires 0 < size <= dest.Length && NUL !in origin
    requires size < dest.Length || NeverTight(origin, size)
    modifies dest
    ensures UriResult(origin, size, done, dest[..])
    ensures NeverTight(origin, size) ==> dest[size..] == old(dest[size..])
    ensures forall k :: size < k < dest.Length ==> dest[k] == old(dest[k])
  {
    ghost var tight := !NeverTight(origin, size);
    dest[0] := NUL;
    var rlen := 0;
    done := 0;
    for i := 0 to |origin|
      invariant done == i && rlen == |UriEncoded(origin[..i])| <= size && rlen < dest.Length
      invariant !tight ==> dest[size..] == old(dest[size..])
      invariant forall k :: size < k < dest.Length ==> dest[k] == old(dest[k])
      invariant Written(dest[..], UriEncoded(origin[..i])) && RoomBefore(origin, size, i)
    {
      if size - rlen <= 2 {
        UriEnds(origin, size, i, dest[..]);
        return;
      }
      UriNext(origin, i);
      UnitFits(origin, size, i);
      RoomNext(origin, size, i);
      Write(dest, rlen, UriUnit(origin[i]), UriEncoded(origin[..i]));
      rlen := rlen + |UriUnit(origin[i])|;
      done := i + 1;
    }
    UriEnds(origin, size, |origin|, dest[..]);
  }

  /**
   What uri_encode leaves: whole units that decode to what was encoded, all of it given three
   bytes a character; and the size is kept exactly if the name is never tight for it, and
   otherwise the NUL stands in the cell behind.
   */
  ghost predicate UriResult(origin: string, size: int, done: nat, mem: string) {
    && done <= |origin| && CStr(mem) == UriEncoded(origin[..done]) && Unescape(CStr(mem)) == origin[..done]
    && (done < |origin| ==> |UriEncoded(origin[..done])| + 2 >= size)
    && (3 * |origin| < size ==> done == |origin|)
    && (NeverTight(origin, size) <==> |UriEncoded(origin[..done])| < size)
    && (!NeverTight(origin, size) ==> |UriEncoded(origin[..done])| == size < |mem| && mem[size] == NUL)
  }

  lemma UriEnds(origin: string, size: int, done: nat, mem: string)
    requires 0 < size && NUL !in origin && RoomBefore(origin, size, done)
    requires Written(mem, UriEncoded(origin[..done])) && |UriEncoded(origin[..done])| <= size
    requires done < |origin| ==> size - |UriEncoded(origin[..done])| <= 2
    ensures UriResult(origin, size, done, mem)
  {
    UriWritten(mem, origin[..done]);
    TightExactly(origin, size, done);
    assert |UriEncoded(origin[..done])| <= 3 * |origin[..done]|;
  }

  lemma RoomNext(s: string, size: int, n: nat)
    requires RoomBefore(s, size, n) && n < |s| && size - |UriEncoded(s[..n])| > 2
    ensures RoomBefore(s, size, n + 1)
  {
  }

  /** In front of each of the first n characters three bytes were free. */
  ghost predicate RoomBefore(s: string, size: int, n: nat) {
    n <= |s| && forall i :: 0 <= i < n ==> size - |UriEncoded(s[..i])| > 2
  }

  lemma {:induction false} EncodedGrows(s: string, i: nat, j: nat)
    requires i <= j <= |s|
    ensures |UriEncoded(s[..i])| <= |UriEncoded(s[..j])|
    decreases j
  {
    if i < j {
      EncodedGrows(s, i, j - 1);
      LastUnit(s, j);
    }
  }

  lemma LastUnit(s: string, j: nat)
    requires 0 < j <= |s|
    ensures |UriEncoded(s[..j])| == |UriEncoded(s[..j - 1])| + |UriUnit(s[j - 1])|
  {
    UriNext(s, j - 1);
  }

  /** Where the loop stops, the size has been kept exactly if the name is never tight. */
  lemma TightExactly(s: string, size: int, done: nat)
    requires 0 < size && RoomBefore(s, size, done) && |UriEncoded(s[..done])| <= size
    requires done < |s| ==> size - |UriEncoded(s[..done])| <= 2
    ensures NeverTight(s, size) <==> |UriEncoded(s[..done])| < size
  {
    if NeverTight(s, size) {
      if done > 0 {
        LastUnit(s, done);
        UnitFits(s, size, done - 1);
      }
    } else {
      var i :| 0 <= i < |s| && Forbidden(s[i]) && |UriEncoded(s[..i])| + 3 == size;
      TightIsReached(s, size, done, i);
    }
  }

  lemma TightIsReached(s: string, size: int, done: nat, i: nat)
    requires 0 < size && RoomBefore(s, size, done) && |UriEncoded(s[..done])| <= size
    requires done < |s| ==> size - |UriEncoded(s[..done])| <= 2
    requires i < |s| && Forbidden(s[i]) && |UriEncoded(s[..i])| + 3 == size
    ensures |UriEncoded(s[..done])| == size
  {
    UriNext(s, i);
    if done <= i {
      EncodedGrows(s, done, i);
    } else {
      EncodedGrows(s, i + 1, done);
    }
  }

  /** With three bytes free a unit takes at most those, and leaves one for the NUL unless it is tight. */
  lemma UnitFits(s: string, size: int, i: nat)
    requires i < |s| && size - |UriEncoded(s[..i])| > 2
    ensures |UriEncoded(s[..i])| + |UriUnit(s[i])| <= size
    ensures NeverTight(s, size) ==> |UriEncoded(s[..i])| + |UriUnit(s[i])| < size
  {
  }

  lemma UriNext(s: string, i: nat)
    requires i < |s|
    ensures UriEncoded(s[..i + 1]) == UriEncoded(s[..i]) + UriUnit(s[i])
  {
    assert s[..i + 1][..i] == s[..i];
  }

  lemma UriWritten(mem: string, s: string)
    requires NUL !in s && Written(mem, UriEncoded(s))
    ensures CStr(mem) == UriEncoded(s) && Unescape(CStr(mem)) == s
  {
    CStrIs(mem, UriEncoded(s));
    UriRoundTrip(s);
  }

  /** escape_uri: stops as soon as four bytes are no longer free. It may write nothing, not even a NUL. */
  method EscapeUri(source: string, dest: array<char>, destSize: int) returns (ghost done: nat)
    requires SevenBit(source) && NUL !in source && destSize <= dest.Length
    modifies dest
    ensures done <= |source| && (done == 0 <==> source == [] || destSize < 4)
    ensures done == 0 ==> dest[..] == old(dest[..])
    ensures forall k :: 0 <= k < dest.Length && destSize <= k ==> dest[k] == old(dest[k])
    ensures done > 0 ==> CStr(dest[..]) == UriEscaped(source[..done]) && Unescape(CStr(dest[..])) == source[..done]
    ensures done > 0 ==> |UriEscaped(source[..done])| < destSize
    ensures done < |source| ==> |UriEscaped(source[..done])| + 4 > destSize
    ensures source != [] && 3 * |source| < destSize ==> done == |source|
  {
    var at := 0; // how far `dest` has advanced
    var left := destSize;
    var i := 0;
    while i < |source| && left >= 4
      invariant i <= |source| && at == |UriEscaped(source[..i])| && at + left == destSize
      invariant i > 0 ==> destSize >= 4 && 1 <= left && Written(dest[..], UriEscaped(source[..i]))
      invariant forall k :: 0 <= k < dest.Length && (i == 0 || destSize <= k) ==> dest[k] == old(dest[k])
      decreases |source| - i
    {
      EscapedNext(source, i);
      Write(dest, at, EscapeUnit(source[i]), UriEscaped(source[..i]));
      at := at + |EscapeUnit(source[i])|;
      left := left - |EscapeUnit(source[i])|;
      i := i + 1;
    }
    done := i;
    EscapeEnds(source, destSize, i, dest[..]);
  }

  lemma EscapeEnds(s: string, destSize: int, done: nat, mem: string)
    requires SevenBit(s) && NUL !in s && done <= |s|
    requires done > 0 ==> Written(mem, UriEscaped(s[..done]))
    requires done < |s| ==> destSize - |UriEscaped(s[..done])| < 4
    ensures done > 0 ==> CStr(mem) == UriEscaped(s[..done]) && Unescape(CStr(mem)) == s[..done]
    ensures s != [] && 3 * |s| < destSize ==> done == |s|
  {
    if done > 0 {
      EscapedWritten(mem, s[..done]);
    }
    assert |UriEscaped(s[..done])| <= 3 * |s[..done]|;
  }

  lemma EscapedNext(s: string, i: nat)
    requires SevenBit(s) && i < |s|
    ensures UriEscaped(s[..i + 1]) == UriEscaped(s[..i]) + EscapeUnit(s[i])
    ensures i == 0 ==> UriEscaped(s[..i]) == []
  {
    assert s[..i + 1][..i] == s[..i];
  }

  lemma EscapedWritten(mem: string, s: string)
    requires SevenBit(s) && NUL !in s
    requires Written(mem, UriEscaped(s))
    ensures CStr(mem) == UriEscaped(s) && Unescape(CStr(mem)) == s
  {
    CStrIs(mem, UriEscaped(s));
    EscapeRoundTrip(s);
  }

  /** html_encode: copies whole units only, as many as fit with the NUL. */
  method HtmlEncode(dest: array<char>, size: nat, origin: string) returns (ghost done: nat)
    requires 0 < size <= dest.Length && NUL !in origin
    modifies dest
    ensures done <= |origin| && CStr(dest[..]) == HtmlEncoded(origin[..done])
    ensures |HtmlEncoded(origin[..done])| < size && dest[size..] == old(dest[size..])
    ensures done < |origin| ==> |HtmlEncoded(origin[..done + 1])| >= size
    ensures HtmlDecoded(CStr(dest[..])) == origin[..done]
  {
    dest[0] := NUL;
    var len := 0;
    done := 0;
    for i := 0 to |origin|
      invariant done == i && len == |HtmlEncoded(origin[..i])| < size
      invariant Written(dest[..], HtmlEncoded(origin[..i]))
      invariant dest[size..] == old(dest[size..])
    {
      HtmlNext(origin, i);
      var code := HtmlUnit(origin[i]);
      if len + |code| >= size {
        HtmlWritten(dest[..], origin[..i]);
        return;
      }
      Write(dest, len, code, HtmlEncoded(origin[..i]));
      len := len + |code|;
      done := i + 1;
    }
    assert origin[..|origin|] == origin;
    HtmlWritten(dest[..], origin);
  }

  lemma HtmlNext(s: string, i: nat)
    requires i < |s|
    ensures HtmlEncoded(s[..i + 1]) == HtmlEncoded(s[..i]) + HtmlUnit(s[i])
  {
    assert s[..i + 1][..i] == s[..i];
  }

  lemma HtmlWritten(mem: string, s: string)
    requires NUL !in s && Written(mem, HtmlEncoded(s))
    ensures CStr(mem) == HtmlEncoded(s) && HtmlDecoded(CStr(mem)) == s
  {
    CStrIs(mem, HtmlEncoded(s));
    HtmlRoundTrip(s);
  }
}
