/** In-place edits of a C string (mystring.c) and the URL clean-up built on them (instance.c). */
module InPlace {
  import opened CString
  import opened CNumber

  /** A buffer seen from one of its strings: what comes before it, the string, what follows its NUL. */
  datatype Layout = Layout(pre: string, s: string, post: string) {
    function Bytes(): string {
      pre + (s + ([NUL] + post))
    }

    predicate Valid() {
      NUL !in s
    }
  }

  /** The C string at offset p of a memory ends inside it. */
  predicate Terminated(mem: string, p: nat) {
    p <= |mem| && p + |CStr(mem[p..])| < |mem|
  }

  /** The layout of a memory around the string at offset p. */
  function LayoutAt(mem: string, p: nat): (m: Layout)
    requires Terminated(mem, p)
    ensures m.Valid() && m.Bytes() == mem && |m.pre| == p && m.s == CStr(mem[p..])
  {
    var s := CStr(mem[p..]);
    var m := Layout(mem[..p], s, mem[p + |s| + 1..]);
    assert mem[p..] == s + ([NUL] + m.post);
    m
  }

  /** Reading a laid-out memory at its string gives that string. */
  lemma ReadsBack(m: Layout)
    requires m.Valid()
    ensures m.Bytes()[|m.pre|..] == m.s + ([NUL] + m.post)
    ensures CStr(m.Bytes()[|m.pre|..]) == m.s
    ensures Terminated(m.Bytes(), |m.pre|)
    ensures LayoutAt(m.Bytes(), |m.pre|) == m
  {
    CStrIs(m.s + ([NUL] + m.post), m.s);
  }

  /** The string at the offset where its layout says it is. */
  lemma StringAt(m: Layout, mem: string, p: nat)
    requires m.Valid() && mem == m.Bytes() && p == |m.pre|
    ensures p <= |mem| && CStr(mem[p..]) == m.s
  {
    ReadsBack(m);
  }

  /** From the end of its string on, a memory holds the NUL and what follows. */
  lemma WholeEnd(m: Layout)
    ensures m.Bytes()[|m.pre| + |m.s|..] == [NUL] + m.post
  {
    AppendAssoc(m.pre, m.s, [NUL] + m.post);
  }

  lemma TailsAgree(x: string, y: string, from: nat, later: nat, tail: string)
    requires from <= later <= |x| == |y| && x[from..] == tail == y[from..]
    ensures x[later..] == y[later..]
  {
    assert x[later..] == x[from..][later - from..];
    assert y[later..] == y[from..][later - from..];
  }

  /** What deleting the first n characters of the string makes of the memory. */
  function Deleted(m: Layout, n: nat): Layout
    requires n <= |m.s|
  {
    Layout(m.pre, m.s[n..], (m.s + [NUL])[|m.s| - n + 1..] + m.post)
  }

  lemma DeletedIs(m: Layout, n: nat, was: string, now: string)
    requires n <= |m.s| && was == m.Bytes() && |now| == |was|
    requires forall k :: |m.pre| <= k < |m.pre| + |m.s| - n ==> now[k] == was[k + n]
    requires now[|m.pre| + |m.s| - n] == NUL
    requires forall k :: 0 <= k < |m.pre| || |m.pre| + |m.s| - n < k < |now| ==> now[k] == was[k]
    ensures now == Deleted(m, n).Bytes()
  {
    var p, l := |m.pre|, |m.s| - n;
    var x := (m.s + [NUL]) + m.post;
    AppendAssoc(m.s, [NUL], m.post);
    assert was == m.pre + x && x[l + 1..] == Deleted(m, n).post;
    ShiftedDown(was, now, p, n, l);
    assert was[..p] == m.pre;
    assert was[p + n..p + n + l] == x[n..n + l] == m.s[n..];
    assert was[p + l + 1..] == x[l + 1..];
  }

  lemma ShiftedDown(was: string, now: string, p: nat, n: nat, l: nat)
    requires p + n + l < |now| == |was| && now[p + l] == NUL
    requires forall k :: p <= k < p + l ==> now[k] == was[k + n]
    requires forall k :: 0 <= k < p || p + l < k < |now| ==> now[k] == was[k]
    ensures now == was[..p] + (was[p + n..p + n + l] + ([NUL] + was[p + l + 1..]))
  {
    assert now[..p] == was[..p];
    assert now[p..p + l] == was[p + n..p + n + l];
    assert now[p + l + 1..] == was[p + l + 1..];
    Reassembled(now, p, p + l);
  }

  lemma Reassembled(s: string, p: nat, q: nat)
    requires p <= q < |s|
    ensures s == s[..p] + (s[p..q] + ([s[q]] + s[q + 1..]))
  {
  }

  /** memmove of l cells from n cells further on. */
  method MoveDown(a: array<char>, p: nat, n: nat, l: nat)
    requires p + n + l <= a.Length
    modifies a
    ensures forall k :: p <= k < p + l ==> a[k] == old(a[k + n])
    ensures forall k :: 0 <= k < p || p + l <= k < a.Length ==> a[k] == old(a[k])
  {
    forall k | p <= k < p + l {
      a[k] := a[k + n];
    }
  }

  /**
   delChar with pos 0, as both of its callers use it: drops the first n characters of the
   string, if it has as many. The cells it leaves behind the new NUL keep their contents.
   */
  method DelChar(a: array<char>, p: nat, n: nat, ghost m: Layout)
    requires m.Valid() && a[..] == m.Bytes() && p == |m.pre|
    modifies a
    ensures |m.s| < n ==> a[..] == m.Bytes()
    ensures |m.s| >= n ==> a[..] == Deleted(m, n).Bytes()
  {
    ReadsBack(m);
    var l := |CStr(a[p..])|;
    if l < n {
      return;
    }
    ghost var was := a[..];
    l := l - n;
    MoveDown(a, p, n, l);
    a[p + l] := NUL;
    DeletedIs(m, n, was, a[..]);
  }

  /**
   The char that strtol with base 16 makes of two characters: leading space and a sign are
   accepted, anything else that is no digit ends the number.
   */
  function HexByte(c1: char, c2: char): char {
    var d1, d2 := DigitValue(c1), DigitValue(c2);
    if d1 < 16 then (if d2 < 16 then (16 * d1 + d2) as char else d1 as char)
    else if (IsSpace(c1) || c1 == '+') && d2 < 16 then d2 as char
    else if c1 == '-' && d2 < 16 then ((256 - d2) % 256) as char
    else NUL
  }

  /**
   All the characters that replaceEscape leaves for the C string s. A decoded NUL ends the
   result as a C string, but the rest is still decoded behind it. A `%` with fewer than two
   characters behind it does not consume them.
   */
  function Unescape(s: string): (u: string)
    ensures |u| <= |s|
  {
    if s == [] then []
    else if s[0] != '%' then [s[0]] + Unescape(s[1..])
    else if |s| == 1 then [NUL]
    else if |s| == 2 then [HexByte(s[1], NUL)] + Unescape(s[1..])
    else [HexByte(s[1], s[2])] + Unescape(s[3..])
  }

  lemma {:induction false} UnescapeFrom(s: string, k: nat)
    requires k <= |s|
    requires forall i :: 0 <= i < k ==> s[i] != '%'
    ensures Unescape(s) == s[..k] + Unescape(s[k..])
  {
    if k > 0 {
      UnescapeFrom(s[1..], k - 1);
      assert s[1..][k - 1..] == s[k..];
      assert s[..k] == [s[0]] + s[1..][..k - 1];
    } else {
      assert s[0..] == s;
    }
  }

  lemma UnescapeUpTo(s: string, k: nat)
    requires k <= |s|
    requires forall i :: 0 <= i < k ==> !OccursAt(s, "%", i)
    ensures Unescape(s) == s[..k] + Unescape(s[k..])
    ensures k == |s| ==> Unescape(s) == s
  {
    forall i | 0 <= i < k
      ensures s[i] != '%'
    {
      OccursChar(s, '%', i);
    }
    UnescapeFrom(s, k);
  }

  /** What an edit leaves between the new NUL of a string and its old end still ends in the old NUL. */
  predicate NulEnded(junk: string) {
    junk == [] || junk[|junk| - 1] == NUL
  }

  lemma NulEndedAppend(a: string, b: string)
    requires NulEnded(a) && NulEnded(b)
    ensures NulEnded(a + b)
  {
  }

  /** So from its old end on the memory is as it was, NUL included. */
  lemma EndKept(pre: string, s: string, junk: string, post: string)
    requires NulEnded(junk)
    ensures Layout(pre, s, junk + post).Bytes()[|pre| + |s| + |junk|..] == [NUL] + post
  {
    var x := [NUL] + junk;
    var init := x[..|junk|];
    assert x == init + [NUL];
    AppendAssoc([NUL], junk, post);
    AppendAssoc(init, [NUL], post);
    AppendAssoc(s, init, [NUL] + post);
    AppendAssoc(pre, s + init, [NUL] + post);
    assert |pre + (s + init)| == |pre| + |s| + |junk|;
  }

  /** One round of replaceEscape's loop, at a `%`: decodes it and shifts the rest down. */
  method EscapeAt(a: array<char>, q: nat, ghost m: Layout) returns (ghost rest: string, ghost junk: string)
    requires m.Valid() && a[..] == m.Bytes() && q == |m.pre|
    requires m.s != [] && m.s[0] == '%'
    modifies a
    ensures NUL !in rest && 1 + |rest| + |junk| == |m.s| && NulEnded(junk)
    ensures q < a.Length && a[..] == Layout(m.pre + [a[q]], rest, junk + m.post).Bytes()
    ensures Unescape(m.s) == [a[q]] + Unescape(rest)
  {
    // e_seq; its second character does not matter when the first is NUL
    var c1 := a[q + 1];
    var c2 := if c1 == NUL then NUL else a[q + 2];
    DelChar(a, q, 2, m);
    ghost var cut := a[..];
    a[q] := HexByte(c1, c2);
    rest, junk := EscapeCells(m, cut, HexByte(c1, c2));
    assert a[..] == cut[q := a[q]];
  }

  lemma SetAfter(pre: string, c: char, tail: string, w: char)
    ensures (pre + ([c] + tail))[|pre| := w] == pre + ([w] + tail)
  {
  }

  /** The cells after one round, whether or not two characters could be deleted. */
  lemma EscapeCells(m: Layout, cut: string, byte: char) returns (rest: string, junk: string)
    requires m.Valid() && m.s != []
    requires cut == if |m.s| < 2 then m.Bytes() else Deleted(m, 2).Bytes()
    ensures |m.pre| < |cut|
    ensures cut[|m.pre| := byte] == Layout(m.pre + [byte], rest, junk + m.post).Bytes()
    ensures rest == if |m.s| >= 3 then m.s[3..] else m.s[1..]
    ensures 1 + |rest| + |junk| == |m.s| && NulEnded(junk)
  {
    ghost var c: char;
    if |m.s| >= 3 {
      rest, junk, c := m.s[3..], [m.s[|m.s| - 1], NUL], m.s[2];
      assert (m.s + [NUL])[|m.s| - 1..] == junk;
      assert m.s[2..] == [c] + rest;
      AppendAssoc([c], rest, [NUL] + (junk + m.post));
    } else if |m.s| == 2 {
      rest, junk, c := m.s[1..], [], NUL;
      assert (m.s + [NUL])[1..] == rest + [NUL];
      AppendAssoc(rest, [NUL], m.post);
      assert m.s[2..] == [] && [] + ([NUL] + Deleted(m, 2).post) == [NUL] + Deleted(m, 2).post;
      assert junk + m.post == m.post;
    } else {
      rest, junk, c := m.s[1..], [], m.s[0];
      assert m.s == [c] && rest == [] && rest + ([NUL] + m.post) == [NUL] + m.post;
      assert junk + m.post == m.post;
    }
    var behind := rest + ([NUL] + (junk + m.post));
    assert cut == m.pre + ([c] + behind);
    SetAfter(m.pre, c, behind, byte);
    AppendAssoc(m.pre, [byte], behind);
  }

  /** Half-way: `out` is decoded, `cur` is the buffer seen from what is left, `junk` lies behind its NUL. */
  ghost predicate Decoding(m: Layout, out: string, cur: Layout, junk: string) {
    && cur.Valid()
    && cur.pre == m.pre + out && cur.post == junk + m.post
    && |out| + |cur.s| + |junk| == |m.s| && NulEnded(junk)
    && out + Unescape(cur.s) == Unescape(m.s)
  }

  /** The same buffer, seen k characters further on. */
  function Advanced(m: Layout, k: nat): (m': Layout)
    requires k <= |m.s|
    ensures m'.Bytes() == m.Bytes()
    ensures m.Valid() ==> m'.Valid()
  {
    assert m.s == m.s[..k] + m.s[k..];
    Layout(m.pre + m.s[..k], m.s[k..], m.post)
  }

  lemma DecodingStep(m: Layout, out: string, cur: Layout, junk: string, k: nat, byte: char, rest: string, junk': string)
    requires Decoding(m, out, cur, junk) && Find(cur.s, "%") == Some(k)
    requires Unescape(cur.s[k..]) == [byte] + Unescape(rest)
    requires NUL !in rest && 1 + |rest| + |junk'| == |cur.s[k..]| && NulEnded(junk')
    ensures Decoding(m, out + (cur.s[..k] + [byte]),
                     Layout(Advanced(cur, k).pre + [byte], rest, junk' + cur.post), junk' + junk)
  {
    var x, y, u := cur.s[..k], cur.s[..k] + [byte], Unescape(rest);
    NulEndedAppend(junk', junk);
    AppendAssoc(junk', junk, m.post);
    AppendAssoc(m.pre + out, x, [byte]);
    AppendAssoc(m.pre, out, y);
    assert out + Unescape(cur.s) == (out + y) + u by {
      UnescapeUpTo(cur.s, k);
      AppendAssoc(x, [byte], u);
      AppendAssoc(out, y, u);
    }
  }

  lemma DecodingDone(m: Layout, out: string, cur: Layout, junk: string)
    requires Decoding(m, out, cur, junk) && Find(cur.s, "%").None?
    ensures cur.Bytes() == Layout(m.pre, Unescape(m.s), junk + m.post).Bytes()
    ensures |Unescape(m.s)| + |junk| == |m.s| && NulEnded(junk)
  {
    UnescapeUpTo(cur.s, |cur.s|);
    AppendAssoc(out, cur.s, [NUL] + cur.post);
    AppendAssoc(m.pre, out, cur.s + ([NUL] + cur.post));
  }

  /** replaceEscape on the string at offset `start`; `m` is the buffer before the call. */
  method ReplaceEscape(a: array<char>, start: nat, ghost m: Layout) returns (ghost junk: string)
    requires m.Valid() && a[..] == m.Bytes() && start == |m.pre|
    modifies a
    ensures a[..] == Layout(m.pre, Unescape(m.s), junk + m.post).Bytes()
    ensures |Unescape(m.s)| + |junk| == |m.s| && NulEnded(junk)
  {
    ghost var cur, out: string := m, [];
    junk := [];
    assert junk + m.post == m.post && m.pre + out == m.pre && out + Unescape(m.s) == Unescape(m.s);
    var p := start;
    ReadsBack(cur);
    var at := Find(CStr(a[p..]), "%");
    while at.Some?
      invariant Decoding(m, out, cur, junk)
      invariant a[..] == cur.Bytes() && p == |cur.pre|
      invariant at == Find(cur.s, "%")
      decreases |cur.s|
    {
      ghost var k := at.value;
      var q := p + at.value;
      OccursChar(cur.s, '%', k);
      ghost var rest, junk' := EscapeAt(a, q, Advanced(cur, k));
      DecodingStep(m, out, cur, junk, k, a[q], rest, junk');
      out := out + (cur.s[..k] + [a[q]]);
      cur := Layout(Advanced(cur, k).pre + [a[q]], rest, junk' + cur.post);
      junk := junk' + junk;
      p := q + 1;
      ReadsBack(cur);
      at := Find(CStr(a[p..]), "%");
    }
    DecodingDone(m, out, cur, junk);
  }
}
