/** strReplace (mystring.c): what it makes of a string, when it ends, and its in-place loop. */
module StringReplace {
  import opened CString
  import opened InPlace

  /**
   What strReplace makes of s: from the left, every occurrence of sub becomes the character w,
   and the search goes on at that character, so it may begin a further occurrence. A NUL cuts
   s there. For an empty sub, and for the very character w, there is nothing to state.
   */
  function Replaced(s: string, sub: string, w: char): string
    decreases |s|
  {
    if s == [] || sub == [] || sub == [w] then s
    else if !(sub <= s) then [s[0]] + Replaced(s[1..], sub, w)
    else if w == NUL then []
    else if |sub| == 1 then [w] + Replaced(s[1..], sub, w)
    else Replaced([w] + s[|sub|..], sub, w)
  }

  lemma OccursFront(s: string, sub: string)
    ensures OccursAt(s, sub, 0) <==> sub <= s
  {
  }

  /** Leaving the first character out shifts the occurrences by one. */
  lemma OccursNext(s: string, sub: string, k: nat)
    requires 0 < k <= |s| && forall i :: 0 <= i < k ==> !OccursAt(s, sub, i)
    ensures !(sub <= s)
    ensures forall i :: 0 <= i < k - 1 ==> !OccursAt(s[1..], sub, i)
  {
    OccursFront(s, sub);
    assert s[1..|s|] == s[1..];
    forall i | 0 <= i < k - 1
      ensures !OccursAt(s[1..], sub, i)
    {
      OccursShift(s, 1, |s|, sub, i);
    }
  }

  /** In front of the first occurrence nothing changes. */
  lemma {:induction false} ReplacedFrom(s: string, sub: string, w: char, k: nat)
    requires sub != [] && k <= |s|
    requires forall i :: 0 <= i < k ==> !OccursAt(s, sub, i)
    ensures Replaced(s, sub, w) == s[..k] + Replaced(s[k..], sub, w)
  {
    if k > 0 {
      OccursNext(s, sub, k);
      ReplacedFrom(s[1..], sub, w, k - 1);
      assert s[1..][k - 1..] == s[k..];
      assert s[..k] == [s[0]] + s[1..][..k - 1];
      AppendAssoc([s[0]], s[1..][..k - 1], Replaced(s[k..], sub, w));
    } else {
      assert s[0..] == s;
    }
  }

  /** A character that sub does not contain cannot begin an occurrence. */
  lemma ReplacedAfterMark(t: string, sub: string, w: char)
    requires sub != [] && w !in sub
    ensures Replaced([w] + t, sub, w) == [w] + Replaced(t, sub, w)
  {
    var s := [w] + t;
    assert s[1..] == t;
    OccursFront(s, sub);
    Mismatch(s, sub, 0, 0);
  }

  lemma ReplacedFront(s: string, sub: string, w: char)
    requires sub != [] && sub != [w] && sub <= s
    ensures Replaced(s, sub, w) == if w == NUL then [] else Replaced([w] + s[|sub|..], sub, w)
  {
    if |sub| == 1 && w != NUL {
      ReplacedAfterMark(s[1..], sub, w);
    }
  }

  /** At the first occurrence: what stands before it, and the replacement of the mark and the rest. */
  lemma {:induction false} ReplacedAt(s: string, sub: string, w: char, k: nat)
    requires sub != [] && sub != [w] && Find(s, sub) == Some(k)
    ensures Replaced(s, sub, w) == s[..k] + if w == NUL then [] else Replaced([w] + s[k + |sub|..], sub, w)
  {
    ReplacedFrom(s, sub, w, k);
    assert sub <= s[k..] by {
      assert s[k..][..|sub|] == s[k..k + |sub|];
    }
    assert s[k..][|sub|..] == s[k + |sub|..];
    ReplacedFront(s[k..], sub, w);
  }

  lemma ReplacedNone(s: string, sub: string, w: char)
    requires sub != [] && Find(s, sub) == None
    ensures Replaced(s, sub, w) == s
  {
    ReplacedFrom(s, sub, w, |s|);
  }

  /** A mark in front stays in front, also where it begins further occurrences. */
  lemma {:induction false} MarkFirst(t: string, sub: string, w: char)
    requires sub != [] && sub != [w] && w != NUL
    ensures Replaced([w] + t, sub, w) != [] && Replaced([w] + t, sub, w)[0] == w
    decreases |t|
  {
    var s := [w] + t;
    if sub <= s {
      assert sub[0] == w && |sub| > 1;
      ReplacedFront(s, sub, w);
      MarkFirst(s[|sub|..], sub, w);
    }
  }

  /** What the result begins with, if it has no mark in it, the string begins with. */
  lemma {:induction false} PrefixKept(s: string, sub: string, w: char, p: string)
    requires sub != [] && sub != [w] && p <= Replaced(s, sub, w) && w !in p
    ensures p <= s
  {
    if p != [] {
      assert p[0] == Replaced(s, sub, w)[0];
      if sub <= s {
        ReplacedFront(s, sub, w);
        if w != NUL {
          MarkFirst(s[|sub|..], sub, w);
        }
      } else {
        assert p[1..] <= Replaced(s, sub, w)[1..];
        PrefixKept(s[1..], sub, w, p[1..]);
      }
    }
  }

  /** The character stands at most at the beginning of sub, and is not all of it. */
  predicate OnlyFirst(sub: string, w: char) {
    sub != [] && sub != [w] && w !in sub[1..]
  }

  /** Nothing is left to replace, and the string has not grown. */
  lemma {:induction false} ReplacedLeavesNone(s: string, sub: string, w: char)
    requires OnlyFirst(sub, w)
    ensures forall i :: !OccursAt(Replaced(s, sub, w), sub, i)
    ensures |Replaced(s, sub, w)| <= |s|
    decreases Left(s, w)
  {
    if s != [] {
      if sub <= s {
        ReplacedFront(s, sub, w);
        if w != NUL {
          ReplacedLeavesNone([w] + s[|sub|..], sub, w);
        }
      } else {
        ReplacedLeavesNone(s[1..], sub, w);
        NoneFromFront(s, sub, w);
      }
    }
  }

  /** With w further back in sub an occurrence may be left: the mark can complete one that began before it. */
  lemma MarkMayCompleteAnother()
    ensures Replaced("aab", "ab", 'b') == "ab"
  {
    assert "aab"[1..] == "ab" && ['b'] + "ab"[2..] == "b" && "b"[1..] == [];
  }

  lemma NotInFront(s: string, sub: string, w: char)
    requires OnlyFirst(sub, w) && s != [] && !(sub <= s)
    ensures !(sub <= Replaced(s, sub, w))
  {
    var r := Replaced(s, sub, w);
    assert r == [s[0]] + Replaced(s[1..], sub, w);
    assert sub == [sub[0]] + sub[1..] && s == [s[0]] + s[1..];
    if sub <= r {
      assert sub[1..] <= r[1..] == Replaced(s[1..], sub, w);
      PrefixKept(s[1..], sub, w, sub[1..]);
    }
  }

  /** No occurrence begins at the front, and those behind it are the tail's. */
  lemma NoneFromFront(s: string, sub: string, w: char)
    requires OnlyFirst(sub, w) && s != [] && !(sub <= s)
    requires forall i :: !OccursAt(Replaced(s[1..], sub, w), sub, i)
    ensures forall i :: !OccursAt(Replaced(s, sub, w), sub, i)
  {
    var r := Replaced(s, sub, w);
    assert r[1..|r|] == r[1..] == Replaced(s[1..], sub, w);
    forall i: nat
      ensures !OccursAt(r, sub, i)
    {
      if i > 0 {
        OccursShift(r, 1, |r|, sub, i - 1);
      } else {
        NotInFront(s, sub, w);
        OccursFront(r, sub);
      }
    }
  }

  lemma {:induction false} ReplacedHasNoNul(s: string, sub: string)
    requires sub != [] && NUL !in sub && NUL !in s
    ensures NUL !in Replaced(s, sub, NUL)
  {
    if s != [] && !(sub <= s) {
      ReplacedHasNoNul(s[1..], sub);
    }
  }

  // ---- When the loop ends ----

  /** sub is not empty, and does not occur if it is the very character w. */
  predicate Replaceable(s: string, sub: string, w: char) {
    sub != [] && (sub == [w] ==> Find(s, sub).None?)
  }

  /**
   What strReplace searches after one more round, None when it is done. An empty sub is found
   at once, no character is deleted for it, and the one that stands there is overwritten.
   */
  function Round(s: string, sub: string, w: char): Option<string> {
    match Find(s, sub)
    case None => None
    case Some(k) => Some(if w == NUL then [] else [w] + if sub != [] then s[k + |sub|..] else if s != [] then s[1..] else [])
  }

  function Searched(s: string, sub: string, w: char, n: nat): Option<string> {
    if n == 0 then Some(s)
    else match Searched(s, sub, w, n - 1)
      case None => None
      case Some(t) => Round(t, sub, w)
  }

  lemma SearchedLast(s: string, sub: string, w: char, n: nat)
    ensures Searched(s, sub, w, 0) == Some(s)
    ensures Searched(s, sub, w, n + 1)
         == match Searched(s, sub, w, n) case None => None case Some(t) => Round(t, sub, w)
  {
  }

  lemma {:induction false} SearchedFirst(s: string, sub: string, w: char, n: nat)
    ensures Searched(s, sub, w, n + 1)
         == match Round(s, sub, w) case None => None case Some(t) => Searched(t, sub, w, n)
  {
    SearchedLast(s, sub, w, n);
    if n > 0 {
      SearchedFirst(s, sub, w, n - 1);
      var t := Round(s, sub, w);
      if t.Some? {
        SearchedLast(t.value, sub, w, n - 1);
      }
    }
  }

  /** Every round shortens what is searched, or puts a mark in front of it that is no occurrence. */
  function Left(s: string, w: char): nat {
    2 * |s| + if s != [] && s[0] == w then 0 else 1
  }

  lemma RoundShrinks(s: string, sub: string, w: char)
    requires sub != [] && sub != [w] && Find(s, sub).Some?
    ensures Left(Round(s, sub, w).value, w) < Left(s, w)
  {
    var k := Find(s, sub).value;
    assert s[k..k + |sub|][0] == s[k];
  }

  lemma {:induction false} LoopEnds(s: string, sub: string, w: char) returns (n: nat)
    requires Replaceable(s, sub, w)
    ensures Searched(s, sub, w, n).None?
    decreases Left(s, w)
  {
    n := 0;
    if Find(s, sub).Some? {
      RoundShrinks(s, sub, w);
      n := LoopEnds(Round(s, sub, w).value, sub, w);
    }
    SearchedFirst(s, sub, w, n);
    n := n + 1;
  }

  lemma {:induction false} LoopGoesOn(s: string, sub: string, w: char, n: nat)
    requires NUL !in sub && (sub == [] || (sub == [w] && Find(s, sub).Some?))
    ensures Searched(s, sub, w, n).Some? && Find(Searched(s, sub, w, n).value, sub).Some?
  {
    if n == 0 {
      OccursFront(s, sub);
    } else {
      LoopGoesOn(s, sub, w, n - 1);
      var t := Searched(s, sub, w, n).value;
      OccursFront(t, sub);
    }
  }

  /**
   strReplace ends exactly if sub is not empty and, where it is the very character w, does not
   occur: otherwise each round finds again what the last one wrote.
   */
  lemma StrReplaceEnds(s: string, sub: string, w: char)
    requires NUL !in sub
    ensures (exists n :: Searched(s, sub, w, n).None?) <==> Replaceable(s, sub, w)
  {
    if Replaceable(s, sub, w) {
      var n := LoopEnds(s, sub, w);
    } else {
      forall n: nat
        ensures Searched(s, sub, w, n).Some?
      {
        LoopGoesOn(s, sub, w, n);
      }
    }
  }

  // ---- The loop ----

  /** strReplace half-way, like Decoding. */
  ghost predicate Replacing(m: Layout, sub: string, w: char, out: string, cur: Layout, junk: string) {
    && cur.Valid()
    && cur.pre == m.pre + out && cur.post == junk + m.post
    && |out| + |cur.s| + |junk| == |m.s| && NulEnded(junk)
    && out + Replaced(cur.s, sub, w) == Replaced(m.s, sub, w)
  }

  /** The buffer after one round of strReplace at its string: what is left, and what lies behind. */
  function Marked(m: Layout, sub: string, w: char): Layout
    requires sub != [] && |sub| <= |m.s|
  {
    var rest := m.s[|sub|..];
    var junk := (m.s + [NUL])[|m.s| - |sub| + 2..];
    if w == NUL then Layout(m.pre, [], rest + ([NUL] + junk) + m.post)
    else Layout(m.pre, [w] + rest, junk + m.post)
  }

  lemma MarkedIs(m: Layout, sub: string, w: char)
    requires sub != [] && |sub| <= |m.s|
    ensures var cut := Deleted(m, |sub| - 1).Bytes();
      |m.pre| < |cut| && cut[|m.pre| := w] == Marked(m, sub, w).Bytes()
    ensures Marked(m, sub, w).pre == m.pre
    ensures w == NUL ==> Marked(m, sub, w).s == []
    ensures w != NUL ==> Marked(m, sub, w).s == [w] + m.s[|sub|..]
  {
    var rest := m.s[|sub|..];
    var junk := (m.s + [NUL])[|m.s| - |sub| + 2..];
    var last := m.s[|sub| - 1];
    var behind := [NUL] + (junk + m.post);
    assert m.s[|sub| - 1..] == [last] + rest;
    assert Deleted(m, |sub| - 1).Bytes() == m.pre + ([last] + (rest + behind)) by {
      AppendAssoc([last], rest, behind);
    }
    SetAfter(m.pre, last, rest + behind, w);
    AppendAssoc([w], rest, behind);
    AppendAssoc(rest, [NUL] + junk, m.post);
    AppendAssoc([NUL], junk, m.post);
  }

  lemma ReplacingCut(m: Layout, sub: string, out: string, cur: Layout, junk: string, k: nat)
    returns (junk': string)
    requires sub != [] && NUL !in sub && Replacing(m, sub, NUL, out, cur, junk) && Find(cur.s, sub) == Some(k)
    ensures Replacing(m, sub, NUL, out + cur.s[..k], Marked(Advanced(cur, k), sub, NUL), junk')
  {
    var seen := Advanced(cur, k);
    var behind := seen.s[|sub|..] + ([NUL] + (seen.s + [NUL])[|seen.s| - |sub| + 2..]);
    junk' := behind + junk;
    NulEndedAppend(behind, junk);
    AppendAssoc(m.pre, out, cur.s[..k]);
    AppendAssoc(behind, junk, m.post);
    ReplacedAt(cur.s, sub, NUL, k);
    assert Replaced([], sub, NUL) == [];
    assert out + cur.s[..k] == (out + cur.s[..k]) + [];
  }

  lemma ReplacingMark(m: Layout, sub: string, w: char, out: string, cur: Layout, junk: string, k: nat)
    returns (junk': string)
    requires sub != [] && sub != [w] && w != NUL && Replacing(m, sub, w, out, cur, junk)
    requires Find(cur.s, sub) == Some(k)
    ensures Replacing(m, sub, w, out + cur.s[..k], Marked(Advanced(cur, k), sub, w), junk')
  {
    var seen := Advanced(cur, k);
    var behind := (seen.s + [NUL])[|seen.s| - |sub| + 2..];
    junk' := behind + junk;
    NulEndedAppend(behind, junk);
    assert seen.s[|sub|..] == cur.s[k + |sub|..];
    AppendAssoc(m.pre, out, cur.s[..k]);
    AppendAssoc(behind, junk, m.post);
    var s' := [w] + cur.s[k + |sub|..];
    ReplacedAt(cur.s, sub, w, k);
    AppendAssoc(out, cur.s[..k], Replaced(s', sub, w));
    assert Marked(seen, sub, w) == Layout(m.pre + (out + cur.s[..k]), s', junk' + m.post);
    assert |out + cur.s[..k]| + |s'| + |junk'| == |m.s|;
    assert NUL !in s';
  }

  /** One round keeps the text that strReplace makes. */
  lemma ReplacingStep(m: Layout, sub: string, w: char, out: string, cur: Layout, junk: string, k: nat)
    returns (junk': string)
    requires NUL !in sub && sub != [] && sub != [w] && Replacing(m, sub, w, out, cur, junk)
    requires Find(cur.s, sub) == Some(k)
    ensures Replacing(m, sub, w, out + cur.s[..k], Marked(Advanced(cur, k), sub, w), junk')
  {
    if w == NUL {
      junk' := ReplacingCut(m, sub, out, cur, junk, k);
    } else {
      junk' := ReplacingMark(m, sub, w, out, cur, junk, k);
    }
  }

  lemma MarkedIsRound(cur: Layout, sub: string, w: char, k: nat)
    requires NUL !in sub && sub != [] && sub != [w] && Find(cur.s, sub) == Some(k)
    ensures Round(cur.s, sub, w) == Some(Marked(Advanced(cur, k), sub, w).s)
  {
    assert cur.s[k..][|sub|..] == cur.s[k + |sub|..];
  }

  lemma ReplacingDone(m: Layout, sub: string, w: char, out: string, cur: Layout, junk: string)
    requires sub != [] && Replacing(m, sub, w, out, cur, junk) && Find(cur.s, sub).None?
    ensures cur.Bytes() == Layout(m.pre, Replaced(m.s, sub, w), junk + m.post).Bytes()
    ensures |Replaced(m.s, sub, w)| + |junk| == |m.s| && NulEnded(junk)
  {
    ReplacedNone(cur.s, sub, w);
    AppendAssoc(m.pre, out, cur.s);
    AppendAssoc(m.pre + out, cur.s, [NUL] + cur.post);
    AppendAssoc(m.pre, out + cur.s, [NUL] + cur.post);
  }

  /** One round of strReplace, at an occurrence. */
  method ReplaceAt(a: array<char>, p: nat, sub: string, w: char, ghost m: Layout)
    requires m.Valid() && a[..] == m.Bytes() && p == |m.pre|
    requires sub != [] && |sub| <= |m.s|
    modifies a
    ensures a[..] == Marked(m, sub, w).Bytes()
    ensures Marked(m, sub, w).pre == m.pre
    ensures Marked(m, sub, w).s == if w == NUL then [] else [w] + m.s[|sub|..]
  {
    DelChar(a, p, |sub| - 1, m);
    MarkedIs(m, sub, w);
    a[p] := w;
  }

  /** The loop before a round: the search has come this far in so many rounds. */
  ghost predicate Underway(m: Layout, sub: string, w: char, out: string, cur: Layout, junk: string, rounds: nat, left: nat) {
    && Replacing(m, sub, w, out, cur, junk)
    && Searched(m.s, sub, w, rounds) == Some(cur.s)
    && Replaceable(cur.s, sub, w)
    && left == Left(cur.s, w)
  }

  lemma Begun(m: Layout, sub: string, w: char)
    returns (out: string, junk: string, rounds: nat, left: nat)
    requires m.Valid() && Replaceable(m.s, sub, w)
    ensures Underway(m, sub, w, out, m, junk, rounds, left)
  {
    out, junk, rounds, left := [], [], 0, Left(m.s, w);
    SearchedLast(m.s, sub, w, 0);
    assert m.pre + [] == m.pre && [] + m.post == m.post && [] + Replaced(m.s, sub, w) == Replaced(m.s, sub, w);
  }

  /** The memory holds the replaced string and, up to its old end, junk; it took so many rounds and no more. */
  ghost predicate Finished(m: Layout, sub: string, w: char, mem: string, junk: string, rounds: nat) {
    && mem == Layout(m.pre, Replaced(m.s, sub, w), junk + m.post).Bytes()
    && |Replaced(m.s, sub, w)| + |junk| == |m.s| && NulEnded(junk)
    && Searched(m.s, sub, w, rounds).Some? && Searched(m.s, sub, w, rounds + 1).None?
  }

  lemma Ended(m: Layout, sub: string, w: char, out: string, cur: Layout, junk: string, rounds: nat, left: nat)
    requires sub != [] && Underway(m, sub, w, out, cur, junk, rounds, left) && Find(cur.s, sub).None?
    ensures Finished(m, sub, w, cur.Bytes(), junk, rounds)
  {
    ReplacingDone(m, sub, w, out, cur, junk);
    SearchedLast(m.s, sub, w, rounds);
  }

  lemma Stepped(m: Layout, sub: string, w: char, out: string, cur: Layout, junk: string, rounds: nat, left: nat, k: nat)
    returns (junk': string, left': nat)
    requires NUL !in sub && sub != [] && Underway(m, sub, w, out, cur, junk, rounds, left) && Find(cur.s, sub) == Some(k)
    ensures left' < left
    ensures Underway(m, sub, w, out + cur.s[..k], Marked(Advanced(cur, k), sub, w), junk', rounds + 1, left')
  {
    junk' := ReplacingStep(m, sub, w, out, cur, junk, k);
    MarkedIsRound(cur, sub, w, k);
    RoundShrinks(cur.s, sub, w);
    SearchedLast(m.s, sub, w, rounds);
    left' := Left(Marked(Advanced(cur, k), sub, w).s, w);
  }

  /** The body of the loop of strReplace. */
  method ReplaceRound(a: array<char>, p: nat, sub: string, w: char, ghost m: Layout,
                      ghost out: string, ghost cur: Layout, ghost junk: string, ghost rounds: nat, ghost left: nat)
    returns (ghost out': string, ghost cur': Layout, ghost junk': string, ghost left': nat)
    requires NUL !in sub && sub != [] && Underway(m, sub, w, out, cur, junk, rounds, left)
    requires a[..] == cur.Bytes() && |cur.pre| <= p && Find(cur.s, sub) == Some(p - |cur.pre|)
    modifies a
    ensures Underway(m, sub, w, out', cur', junk', rounds + 1, left') && left' < left
    ensures a[..] == cur'.Bytes() && p == |cur'.pre|
  {
    ghost var k := p - |cur.pre|;
    out', cur' := out + cur.s[..k], Marked(Advanced(cur, k), sub, w);
    junk', left' := Stepped(m, sub, w, out, cur, junk, rounds, left, k);
    ReplaceAt(a, p, sub, w, Advanced(cur, k));
  }

  /** strReplace on the string at offset `start`, under the condition on which its loop ends. */
  method StrReplace(a: array<char>, start: nat, sub: string, w: char, ghost m: Layout)
    returns (ghost junk: string, ghost rounds: nat)
    requires m.Valid() && a[..] == m.Bytes() && start == |m.pre|
    requires NUL !in sub && Replaceable(m.s, sub, w)
    modifies a
    ensures Finished(m, sub, w, a[..], junk, rounds)
  {
    ghost var cur, out, left := m, "", 0;
    out, junk, rounds, left := Begun(m, sub, w);
    var p := start;
    StringAt(cur, a[..], p);
    var pointer := Find(CStr(a[p..]), sub);
    while pointer.Some?
      invariant Underway(m, sub, w, out, cur, junk, rounds, left)
      invariant a[..] == cur.Bytes() && p == |cur.pre|
      invariant pointer == Find(cur.s, sub)
      decreases left
    {
      p := p + pointer.value;
      out, cur, junk, left := ReplaceRound(a, p, sub, w, m, out, cur, junk, rounds, left);
      rounds := rounds + 1;
      StringAt(cur, a[..], p);
      pointer := Find(CStr(a[p..]), sub);
    }
    Ended(m, sub, w, out, cur, junk, rounds, left);
  }
}
