/** The base64 decoder (base64.c) against the encoding of section 4 of RFC 4648. */
module Base64 {
  import opened CString

  /** getCode: every character outside the alphabet counts as zero. */
  function GetCode(c: char): (code: int)
    ensures 0 <= code < 64
  {
    if 'A' <= c <= 'Z' then c as int - 'A' as int
    else if 'a' <= c <= 'z' then c as int - 'a' as int + 26
    else if '0' <= c <= '9' then c as int - '0' as int + 52
    else if c == '+' then 62
    else if c == '/' then 63
    else 0
  }

  /** The base64 alphabet, table 1 of the RFC. */
  function Letter(code: int): (c: char)
    requires 0 <= code < 64
    ensures GetCode(c) == code
    ensures c != NUL && c != CR && c != '='
  {
    if code < 26 then ('A' as int + code) as char
    else if code < 52 then ('a' as int + code - 26) as char
    else if code < 62 then ('0' as int + code - 52) as char
    else if code == 62 then '+'
    else '/'
  }

  lemma Remainder(n: int, q: int, r: int)
    requires n == 256 * q + r && 0 <= r < 256
    ensures n % 256 == r
  {
  }

  /** Storing a shifted code in a char drops what is beyond eight bits. */
  lemma ShiftTruncates(c: int)
    requires 0 <= c < 64
    ensures c * 4 % 256 == c * 4
    ensures c * 16 % 256 == c % 16 * 16 <= 240
    ensures c * 64 % 256 == c % 4 * 64 <= 192
  {
    Remainder(c * 4, 0, c * 4);
    Remainder(c * 16, c / 16, c % 16 * 16);
    Remainder(c * 64, c / 4, c % 4 * 64);
  }

  /** A number stored in one cell. */
  function Byte(n: int): (c: char)
    requires 0 <= n < 256
    ensures c as int == n
  {
    n as char
  }

  /** Three bytes from four codes, as numbers. */
  function Join(c0: int, c1: int, c2: int, c3: int): (b: (int, int, int))
    requires 0 <= c0 < 64 && 0 <= c1 < 64 && 0 <= c2 < 64 && 0 <= c3 < 64
    ensures 0 <= b.0 < 256 && 0 <= b.1 < 256 && 0 <= b.2 < 256
  {
    (c0 * 4 + c1 / 16, c1 % 16 * 16 + c2 / 4, c2 % 4 * 64 + c3)
  }

  /**
   The three bytes of four codes. The shifted parts of each byte share no bit, so the `|`
   of the source is a sum here.
   */
  function Decode4(c0: char, c1: char, c2: char, c3: char): (b: string)
    ensures |b| == 3
  {
    var b := Join(GetCode(c0), GetCode(c1), GetCode(c2), GetCode(c3));
    [Byte(b.0), Byte(b.1), Byte(b.2)]
  }

  /** The bytes that decode64 writes before its final NUL. */
  function Decoded(encoded: string): (b: string)
    requires |encoded| % 4 == 0
    ensures |b| == |encoded| / 4 * 3
  {
    if encoded == [] then [] else
      Decode4(encoded[0], encoded[1], encoded[2], encoded[3]) + Decoded(encoded[4..])
  }

  predicate Bytes(s: string) {
    forall i :: 0 <= i < |s| ==> s[i] as int < 256
  }

  lemma Regroup(r0: int, q1: int, r1: int, q2: int)
    requires 0 <= r0 < 4 && 0 <= q1 < 16 && 0 <= r1 < 16 && 0 <= q2 < 4
    ensures (r0 * 16 + q1) / 16 == r0 && (r0 * 16 + q1) % 16 == q1
    ensures (r1 * 4 + q2) / 4 == r1 && (r1 * 4 + q2) % 4 == q2
  {
  }

  /** Four codes from three bytes, as numbers. */
  function Split(b0: int, b1: int, b2: int): (c: (int, int, int, int))
    requires 0 <= b0 < 256 && 0 <= b1 < 256 && 0 <= b2 < 256
    ensures 0 <= c.0 < 64 && 0 <= c.1 < 64 && 0 <= c.2 < 64 && 0 <= c.3 < 64
    ensures Join(c.0, c.1, c.2, c.3) == (b0, b1, b2)
    ensures b1 == b2 == 0 ==> c.2 == c.3 == 0
    ensures b2 == 0 ==> c.3 == 0
  {
    Regroup(b0 % 4, b1 / 16, b1 % 16, b2 / 64);
    (b0 / 4, b0 % 4 * 16 + b1 / 16, b1 % 16 * 4 + b2 / 64, b2 % 64)
  }

  /** The byte at k, or the zero bits that stand for it in a short quantum. */
  function ByteAt(b: string, k: nat): (n: int)
    requires Bytes(b)
    ensures 0 <= n < 256
  {
    if k < |b| then b[k] as int else 0
  }

  /** One quantum, padded with `=` when it is the last and short. */
  function Encode3(b: string): (g: string)
    requires 1 <= |b| <= 3 && Bytes(b)
    ensures |g| == 4 && NUL !in g && CR !in g
  {
    var c := Split(ByteAt(b, 0), ByteAt(b, 1), ByteAt(b, 2));
    [ Letter(c.0), Letter(c.1),
      if |b| > 1 then Letter(c.2) else '=',
      if |b| > 2 then Letter(c.3) else '=' ]
  }

  function Min3(n: nat): nat {
    if n < 3 then n else 3
  }

  /** A group in front of whole groups. */
  lemma GroupInFront(g: string, rest: string)
    requires |g| == 4 && |rest| % 4 == 0
    ensures |g + rest| % 4 == 0
  {
  }

  function Encoded(s: string): (e: string)
    requires Bytes(s)
    ensures |e| % 4 == 0 && NUL !in e && CR !in e
  {
    if s == [] then [] else
      var g, rest := Encode3(s[..Min3(|s|)]), Encoded(s[Min3(|s|)..]);
      GroupInFront(g, rest);
      g + rest
  }

  /** A padded group decodes to its bytes, and to NULs where the padding was. */
  lemma QuantumRoundTrip(b: string)
    requires 1 <= |b| <= 3 && Bytes(b)
    ensures var g := Encode3(b);
      Decode4(g[0], g[1], g[2], g[3]) == b + QuantumPadding(|b|)
  {
    var g := Encode3(b);
    var c := Split(ByteAt(b, 0), ByteAt(b, 1), ByteAt(b, 2));
    assert GetCode(g[0]) == c.0 && GetCode(g[1]) == c.1 && GetCode(g[2]) == c.2 && GetCode(g[3]) == c.3;
  }

  lemma DecodedFront(g: string, rest: string)
    requires |g| == 4 && |rest| % 4 == 0
    ensures Decoded(g + rest) == Decode4(g[0], g[1], g[2], g[3]) + Decoded(rest)
  {
    assert (g + rest)[4..] == rest;
  }

  /** What padding a quantum adds behind its bytes. */
  function QuantumPadding(n: nat): string {
    if n == 1 then [NUL, NUL] else if n == 2 then [NUL] else []
  }

  /** What padding adds behind the bytes. */
  function Padding(s: string): string {
    QuantumPadding(|s| % 3)
  }

  lemma {:induction false} DecodeEncode(s: string)
    requires Bytes(s)
    ensures Decoded(Encoded(s)) == s + Padding(s)
  {
    if s != [] {
      var first, rest := s[..Min3(|s|)], s[Min3(|s|)..];
      var g := Encode3(first);
      QuantumRoundTrip(first);
      DecodeEncode(rest);
      DecodedFront(g, Encoded(rest));
      PaddingOnlyLast(s);
      var pad := QuantumPadding(|first|);
      assert Decoded(Encoded(s)) == (first + pad) + (rest + Padding(rest));
      assert s == first + rest;
      if |s| >= 3 {
        assert first + pad == first;
        AppendAssoc(first, rest, Padding(s));
      } else {
        assert (first + pad) + (rest + []) == first + pad && s == first;
      }
    }
  }

  lemma PaddingOnlyLast(s: string)
    ensures |s| >= 3 ==> Padding(s[3..]) == Padding(s)
    ensures |s| < 3 ==> Padding(s) == QuantumPadding(|s|)
  {
  }

  /** decode4_64: writes three cells of the result. */
  method Decode4_64(res: array<char>, at: nat, group: array<char>, from: nat)
    requires at + 3 <= res.Length && from + 4 <= group.Length && res != group
    modifies res
    ensures res[..at] == old(res[..at])
    ensures res[at..at + 3] == Decode4(group[from], group[from + 1], group[from + 2], group[from + 3])
  {
    var t, t1 := GetCode(group[from]), GetCode(group[from + 1]);
    Char0(res, at, t, t1);
    t := GetCode(group[from + 2]);
    Char1(res, at + 1, t1, t);
    t1 := t;
    t := GetCode(group[from + 3]);
    Char2(res, at + 2, t1, t);
    assert res[at..at + 3] == [res[at], res[at + 1], res[at + 2]];
  }

  method Char0(res: array<char>, at: nat, t: int, t1: int)
    requires at < res.Length && 0 <= t < 64 && 0 <= t1 < 64
    modifies res
    ensures res[at] == Byte(Join(t, t1, 0, 0).0)
    ensures forall k :: 0 <= k < res.Length && k != at ==> res[k] == old(res[k])
  {
    ShiftTruncates(t);
    res[at] := Byte(t * 4 % 256);
    res[at] := Byte(res[at] as int + t1 / 16);
  }

  method Char1(res: array<char>, at: nat, t1: int, t: int)
    requires at < res.Length && 0 <= t < 64 && 0 <= t1 < 64
    modifies res
    ensures res[at] == Byte(Join(0, t1, t, 0).1)
    ensures forall k :: 0 <= k < res.Length && k != at ==> res[k] == old(res[k])
  {
    ShiftTruncates(t1);
    res[at] := Byte(t1 * 16 % 256);
    res[at] := Byte(res[at] as int + t / 4);
  }

  method Char2(res: array<char>, at: nat, t1: int, t: int)
    requires at < res.Length && 0 <= t < 64 && 0 <= t1 < 64
    modifies res
    ensures res[at] == Byte(Join(0, 0, t1, t).2)
    ensures forall k :: 0 <= k < res.Length && k != at ==> res[k] == old(res[k])
  {
    ShiftTruncates(t1);
    res[at] := Byte(t1 * 64 % 256);
    res[at] := Byte(res[at] as int + t);
  }

  /**
   decode64: the result buffer must hold three bytes for every four, and a NUL. Nothing at
   all is written for the empty string.
   */
  method Decode64(result: array<char>, encoded: array<char>, ghost e: string)
    requires result != encoded
    requires NUL !in e && |e| < encoded.Length && encoded[..|e|] == e && encoded[|e|] == NUL
    requires |e| % 4 == 0 && |e| / 4 * 3 < result.Length
    modifies result
    ensures e == [] ==> result[..] == old(result[..])
    ensures e != [] ==> var d := Decoded(e); result[..|d|] == d && result[|d|] == NUL
  {
    var res, i := 0, 0;
    ghost var k := 0; // groups decoded so far
    TerminatorAt(encoded[..], e, i);
    while encoded[i] != NUL
      invariant i == 4 * k && res == 3 * k && i <= |e| && i % 4 == 0
      invariant encoded[i] == NUL <==> i == |e|
      invariant k == 0 ==> result[..] == old(result[..])
      invariant k > 0 ==> result[res] == NUL
      invariant result[..res] + Decoded(e[i..]) == Decoded(e)
      decreases |e| - i
    {
      RoomLeft(|e|, k, result.Length);
      DecodeRound(result, res, encoded, i, e);
      i := i + 4;
      res := res + 3;
      k := k + 1;
      TerminatorAt(encoded[..], e, i);
    }
    AtEnd(result[..res], e, i);
  }

  lemma RoomLeft(length: nat, k: nat, size: nat)
    requires length % 4 == 0 && length / 4 * 3 < size && 4 * k < length
    ensures 4 * k + 4 <= length && 3 * k + 3 < size && (4 * k + 4) % 4 == 0
  {
  }

  /** The text ends where its NUL is. */
  lemma TerminatorAt(cells: string, e: string, i: nat)
    requires NUL !in e && i <= |e| < |cells| && cells[..|e|] == e && cells[|e|] == NUL
    ensures cells[i] == NUL <==> i == |e|
  {
    assert i < |e| ==> cells[i] == e[i];
  }

  lemma AtEnd(before: string, e: string, i: nat)
    requires i == |e| && |e| % 4 == 0 && before + Decoded(e[i..]) == Decoded(e)
    ensures before == Decoded(e)
  {
    assert e[i..] == [];
    assert before + [] == before;
  }

  /** One round of decode64. */
  method DecodeRound(result: array<char>, res: nat, encoded: array<char>, i: nat, ghost e: string)
    requires result != encoded && |e| < encoded.Length && encoded[..|e|] == e
    requires i % 4 == 0 && |e| % 4 == 0 && i < |e| && res + 3 < result.Length
    requires result[..res] + Decoded(e[i..]) == Decoded(e)
    modifies result
    ensures result[..res + 3] + Decoded(e[i + 4..]) == Decoded(e) && result[res + 3] == NUL
  {
    ghost var before := result[..res];
    DecodedNext(before, e, i);
    Decode4_64(result, res, encoded, i);
    assert encoded[..|e|][i..i + 4] == e[i..i + 4];
    assert result[..res + 3] == before + result[res..res + 3];
    result[res + 3] := NUL;
  }

  lemma DecodedNext(before: string, e: string, i: nat)
    requires i + 4 <= |e| && i % 4 == 0 && |e| % 4 == 0
    ensures before + Decoded(e[i..]) == before + Decode4(e[i], e[i + 1], e[i + 2], e[i + 3]) + Decoded(e[i + 4..])
  {
    assert e[i..][4..] == e[i + 4..];
    AppendAssoc(before, Decode4(e[i], e[i + 1], e[i + 2], e[i + 3]), Decoded(e[i + 4..]));
  }
}
