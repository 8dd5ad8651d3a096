/**
 * The cursor comparison at the heart of CPcp::Read (procon/pcp.cpp:183-207).
 *
 * A reader and the producer keep positions modulo the ring size n.  The history that the positions
 * stand for is a pair of absolute record numbers: `begin` is the next record the reader wants, `end` is
 * how many records had been written when it last looked, and `written` is how many there are now.
 */
module PcpCursor {
  import opened Common

  datatype Verdict = Empty | Take | Resync

  /** What Read decides from the three wrapped positions. */
  function Decide(readBegin: nat, readEnd: nat, writePos: nat): Verdict {
    if readBegin == readEnd && readEnd == writePos then Empty
    else if (readBegin <= readEnd && readEnd <= writePos)
         || (readEnd <= writePos && writePos <= readBegin)
         || (writePos <= readBegin && readBegin <= readEnd) then Take
    else Resync
  }

  /** What Read ought to decide from the history: a record survives in the ring while at most n records
      have been written from it on. */
  function Intended(begin: nat, written: nat, n: nat): Verdict
    requires begin <= written
  {
    if begin == written then Empty
    else if written - begin <= n then Take
    else Resync
  }

  /** The wrapped comparison is the intended one exactly when fewer than n records were written since the
      reader last looked, or (by luck) when its backlog and the wrapped overrun together exceed n. */
  lemma DecideExact(begin: nat, end: nat, written: nat, n: nat)
    requires begin <= end <= written && end - begin < n
    ensures Decide(begin % n, end % n, written % n) == Intended(begin, written, n)
       <==> (written - end < n || (end - begin) + (written - end) % n > n)
  {
    hide Decide, Intended;
    var k, r := (written - end) / n, (written - end) % n;
    assert written == begin + (end - begin) + (k * n + r);
    DecideParts(begin, end - begin, k, k * n, r, n);
  }

  lemma DecideParts(begin: nat, d: nat, k: nat, turns: nat, r: nat, n: nat)
    requires d < n && r < n && turns == k * n
    ensures Decide(begin % n, (begin + d) % n, (begin + d + (turns + r)) % n)
         == Intended(begin, begin + d + (turns + r), n)
       <==> (turns + r < n || d + r > n)
  {
    hide Decide, Intended, Linear, Wrap;
    WrappedPositions(begin, d, k, r, n);
    MulMagnitude(n, k);
    DecideWrapped(begin % n, d, r, n);
    DecideLinear(d, turns, r, n, begin, begin + d + turns + r);
  }

  /** Where the three positions lie after a backlog of d, k whole turns and r further records. */
  lemma WrappedPositions(begin: nat, d: nat, k: nat, r: nat, n: nat)
    requires d < n && r < n
    ensures (begin + d) % n == Wrap(begin % n + d, n)
    ensures (begin + d + (k * n + r)) % n == Wrap(Wrap(begin % n + d, n) + r, n)
  {
    CyclicAdd(begin, d, n);
    TurnsAfter(begin + d, k, k * n, r, n);
  }

  lemma TurnsAfter(x: nat, k: nat, turns: nat, r: nat, n: nat)
    requires r < n && turns == k * n
    ensures (x + (turns + r)) % n == Wrap(x % n + r, n)
  {
    CyclicAdd(x, r, n);
    CyclicTurns(x + r, k, n);
  }

  function Wrap(x: nat, n: nat): nat
    requires n <= x ==> x - n < n
  {
    if x < n then x else x - n
  }

  /** The comparison in linear form: a backlog of d records, then whole turns and r further records. */
  function Linear(d: nat, r: nat, n: nat): Verdict {
    if d == 0 && r == 0 then Empty else if d + r <= n then Take else Resync
  }

  lemma DecideWrapped(b: nat, d: nat, r: nat, n: nat)
    requires b < n && d < n && r < n
    ensures Decide(b, Wrap(b + d, n), Wrap(Wrap(b + d, n) + r, n)) == Linear(d, r, n)
  {
  }

  lemma DecideLinear(d: nat, turns: int, r: nat, n: nat, begin: nat, written: nat)
    requires d < n && r < n && (turns == 0 || turns >= n) && written == begin + d + turns + r
    ensures Linear(d, r, n) == Intended(begin, written, n) <==> turns + r < n || d + r > n
  {
  }

  /** The record a reader's wrapped position really stands for by now: the one it wants, moved on by every whole
      turn that passed since it last looked. */
  function Anchor(begin: nat, end: nat, written: nat, n: nat): (a: nat)
    requires 0 < n
    ensures begin <= a
  {
    var turns := (written - end) / n;
    if turns > 0 then
      MulMagnitude(n, turns);
      begin + n * turns
    else begin
  }

  /** Whatever passed unseen, the comparison is the intended one for that record: a reader only ever loses whole
      turns. */
  lemma AnchorExact(begin: nat, end: nat, written: nat, n: nat)
    requires begin <= end <= written && end - begin < n
    ensures var a := Anchor(begin, end, written, n);
            && a <= written && a % n == begin % n && (written - end < n <==> a == begin)
            && a + (end - begin) <= written < a + (end - begin) + n
            && Decide(begin % n, end % n, written % n) == Intended(a, written, n)
  {
    hide Decide, Intended, Anchor;
    var k, r := (written - end) / n, (written - end) % n;
    AnchorTurns(begin, end, written, n, k, k * n, r);
    AnchorParts(begin, end - begin, k, k * n, r, n);
  }

  lemma AnchorParts(begin: nat, d: nat, k: nat, turns: nat, r: nat, n: nat)
    requires d < n && r < n && turns == k * n
    ensures (begin + turns) % n == begin % n
    ensures Decide(begin % n, (begin + d) % n, (begin + d + (turns + r)) % n)
         == Intended(begin + turns, begin + turns + d + r, n)
  {
    hide Decide, Intended, Linear, Wrap;
    WrappedPositions(begin, d, k, r, n);
    DecideWrapped(begin % n, d, r, n);
    CyclicTurns(begin, k, n);
    LinearIntended(begin + turns, d, r, n);
  }

  lemma AnchorTurns(begin: nat, end: nat, written: nat, n: nat, k: int, turns: int, r: nat)
    requires 0 < n && end <= written && k == (written - end) / n && r == (written - end) % n && turns == k * n
    ensures k >= 0 && turns >= 0 && r < n && Anchor(begin, end, written, n) == begin + turns
    ensures written - end == turns + r && (written - end < n <==> turns == 0)
  {
    assert written - end == k * n + r;
    MulMagnitude(n, k);
  }

  lemma LinearIntended(a: nat, d: nat, r: nat, n: nat)
    requires d < n && r < n
    ensures Linear(d, r, n) == Intended(a, a + d + r, n)
  {
  }

  /** The failing family in its simplest form: a reader with no backlog sees "empty" after exactly n
      writes, although n records are waiting. */
  lemma FullTurnLooksEmpty(seen: nat, n: nat)
    requires 0 < n
    ensures Decide(seen % n, seen % n, (seen + n) % n) == Empty
    ensures Intended(seen, seen + n, n) == Take
  {
    CyclicTurns(seen, 1, n);
  }
}
