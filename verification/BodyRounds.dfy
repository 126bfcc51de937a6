/** The reads with which read_file takes the body of a PUT off the connection (instance.c). */
module BodyRounds {
  import opened BufferedReader
  import opened Options
  import opened CString

  /** Bytes and gaps left. */
  function Size(s: Stream): nat {
    |Flat(s)| + |s|
  }

  lemma TakeSize(s: Stream, count: int)
    ensures Size(Take(s, count).1) + |Take(s, count).0| <= Size(s)
  {
    TakeConserves(s, count);
  }

  function Step(left: int): int {
    if left > FILEBUF then FILEBUF else left
  }

  /**
   k rounds of the loop from a stream, with so much of the body already read. Only the stream
   decides how far they come.
   */
  function Rounds(s: Stream, done: string, length: int, k: nat): (r: (string, Stream))
    ensures Size(r.1) <= Size(s)
    decreases k
  {
    if k == 0 || |done| >= length then (done, s)
    else
      var (out, s') := Take(s, Step(length - |done|));
      TakeSize(s, Step(length - |done|));
      Rounds(s', done + out, length, k - 1)
  }

  lemma RoundsFirst(s: Stream, done: string, length: int, k: nat, out: string, next: Stream)
    requires k > 0 && |done| < length && Take(s, Step(length - |done|)) == (out, next)
    ensures Rounds(s, done, length, k) == Rounds(next, done + out, length, k - 1)
  {
  }

  /** One more round at the end. */
  lemma {:induction false} RoundsLast(s: Stream, done: string, length: int, k: nat)
    ensures var (b, r) := Rounds(s, done, length, k);
      Rounds(s, done, length, k + 1)
      == if |b| >= length then (b, r) else (b + Take(r, Step(length - |b|)).0, Take(r, Step(length - |b|)).1)
    decreases k
  {
    if |done| < length {
      var (out, next) := Take(s, Step(length - |done|));
      RoundsFirst(s, done, length, k + 1, out, next);
      if k > 0 {
        RoundsFirst(s, done, length, k, out, next);
        RoundsLast(next, done + out, length, k - 1);
      }
    }
  }

  /** From one run of bytes that begins with the body, enough rounds read exactly the body. */
  lemma {:induction false} RoundsReadBody(done: string, rest: string, more: string, length: int, k: nat)
    requires length == |done| + |rest| && k >= |rest|
    ensures Rounds(OneRun(rest + more), done, length, k) == (done + rest, OneRun(more))
    decreases k
  {
    if rest == [] {
      assert done + rest == done && rest + more == more;
    } else {
      var n := Step(|rest|);
      var next := OneRun(rest[n..] + more);
      TakePart(rest, more, n, OneRun(rest + more));
      RoundsFirst(OneRun(rest + more), done, length, k, rest[..n], next);
      RoundsReadBody(done + rest[..n], rest[n..], more, length, k - 1);
      AppendAssoc(done, rest[..n], rest[n..]);
      assert rest[..n] + rest[n..] == rest;
    }
  }

  lemma TakePart(rest: string, more: string, n: nat, s: Stream)
    requires 0 < n <= |rest| && s == [rest + more]
    ensures Take(s, n) == (rest[..n], OneRun(rest[n..] + more))
  {
    assert (rest + more)[..n] == rest[..n] && (rest + more)[n..] == rest[n..] + more;
    assert s[1..] == [] && [rest[n..] + more] + [] == [rest[n..] + more];
  }
}
