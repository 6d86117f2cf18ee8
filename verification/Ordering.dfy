/** Sorted sequences of words, and the priority queue that A6/radix.c stands for. */
module Ordering {
  import opened Arithmetic
  import opened Words

  predicate Sorted(s: seq<Word>) {
    forall i, j :: 0 <= i < j < |s| ==> AtMost(s[i], s[j])
  }

  lemma SortedTail(s: seq<Word>)
    requires Sorted(s) && s != []
    ensures Sorted(s[1..]) && forall x :: x in s[1..] ==> AtMost(s[0], x)
  {}

  lemma SameHead(s: seq<Word>, t: seq<Word>)
    requires Sorted(s) && Sorted(t) && multiset(s) == multiset(t) && s != []
    ensures t != [] && s[0] == t[0]
  {
    hide AtMost, Sorted;
    assert s[0] in multiset(t);
    assert t[0] in multiset(s);
    SortedTail(s);
    SortedTail(t);
    if s[0] != t[0] {
      AtMostAntisymmetric(s[0], t[0]);
    }
  }

  /** A multiset of words has only one sorted arrangement. */
  lemma {:induction false} SortedUnique(s: seq<Word>, t: seq<Word>)
    requires Sorted(s) && Sorted(t) && multiset(s) == multiset(t)
    ensures s == t
  {
    hide AtMost, Sorted;
    if s == [] {
      assert |multiset(t)| == 0;
    } else {
      SameHead(s, t);
      SortedTail(s);
      SortedTail(t);
      assert s == [s[0]] + s[1..] && t == [t[0]] + t[1..];
      assert multiset(s[1..]) == multiset(s) - multiset{s[0]} && multiset(t[1..]) == multiset(t) - multiset{t[0]};
      SortedUnique(s[1..], t[1..]);
    }
  }

  // ----- The queue

  /** Adding to a sorted queue in front of the first number that is not smaller. */
  function AddTo(q: seq<Word>, n: Word): seq<Word> {
    if q == [] then [n]
    else if AtMost(n, q[0]) then [n] + q
    else [q[0]] + AddTo(q[1..], n)
  }

  lemma {:induction false} AddToContents(q: seq<Word>, n: Word)
    ensures multiset(AddTo(q, n)) == multiset(q) + multiset{n}
  {
    hide AtMost;
    if q != [] && !AtMost(n, q[0]) {
      AddToContents(q[1..], n);
      assert q == [q[0]] + q[1..];
      assert multiset(AddTo(q, n)) == multiset{q[0]} + multiset(AddTo(q[1..], n));
    }
  }

  lemma ConsSorted(x: Word, s: seq<Word>)
    requires Sorted(s) && forall y :: y in multiset(s) ==> AtMost(x, y)
    ensures Sorted([x] + s)
  {
    hide AtMost;
    forall i | 0 <= i < |s| ensures AtMost(x, s[i]) { assert s[i] in multiset(s); }
  }

  lemma {:induction false} AddToSorted(q: seq<Word>, n: Word)
    requires Sorted(q)
    ensures Sorted(AddTo(q, n))
  {
    hide AtMost, Sorted, Less;
    if q == [] {
      SingleSorted(n);
    } else {
      SortedTail(q);
      if AtMost(n, q[0]) {
        forall y | y in multiset(q) ensures AtMost(n, y) {
          if y != q[0] {
            assert q == [q[0]] + q[1..];
            AtMostTransitive(n, q[0], y);
          }
        }
        ConsSorted(n, q);
      } else {
        AddToSorted(q[1..], n);
        AddToContents(q[1..], n);
        NotBothWays(n, q[0]);
        LessIsAtMost(q[0], n);
        ConsSorted(q[0], AddTo(q[1..], n));
      }
    }
  }

  lemma SingleSorted(n: Word)
    ensures Sorted([n])
  {}

  /** Whatever holds one more n than q and is sorted is q with n added. */
  lemma AddToUnique(q: seq<Word>, n: Word, r: seq<Word>)
    requires Sorted(q) && Sorted(r) && multiset(r) == multiset(q) + multiset{n}
    ensures r == AddTo(q, n)
  {
    AddToSorted(q, n);
    AddToContents(q, n);
    SortedUnique(r, AddTo(q, n));
  }

  /**
   * How many numbers a negative word asks for. Negating the least int leaves the 32-bit range;
   * the processor the program is written for wraps it back to itself, which asks for none.
   */
  function Limit(w: Word): int {
    if w == SIGN then -0x8000_0000 else 0x1_0000_0000 - w.bits as int
  }

  /** One command: a word with its sign clear is added, -N takes the N smallest numbers. */
  function Serve(q: seq<Word>, w: Word): (r: (seq<Word>, seq<Word>)) {
    if !Has(w, SIGN) then (AddTo(q, w), [])
    else
      var k := if Limit(w) < 0 then 0 else Min(Limit(w), |q|);
      (q[k..], q[..k])
  }

  /** The queue after a stream of commands, and everything taken along the way. */
  function ServeAll(q: seq<Word>, commands: seq<Word>): (seq<Word>, seq<Word>) {
    if commands == [] then (q, [])
    else
      var (q1, out) := ServeAll(q, commands[..|commands| - 1]);
      var (q2, more) := Serve(q1, commands[|commands| - 1]);
      (q2, out + more)
  }

  /** Commands are served in turn, and what they yield comes out in that order. */
  lemma {:induction false} ServeInTurn(q: seq<Word>, first: seq<Word>, second: seq<Word>)
    ensures var (q1, out) := ServeAll(q, first); var (q2, more) := ServeAll(q1, second);
      ServeAll(q, first + second) == (q2, out + more)
    decreases |second|
  {
    hide Serve;
    if second == [] {
      assert first + second == first;
      var (q1, out) := ServeAll(q, first);
      assert out + [] == out;
    } else {
      var k := |second| - 1;
      ServeInTurn(q, first, second[..k]);
      ServeNext(q, first + second[..k], second[k]);
      assert first + second == (first + second[..k]) + [second[k]];
      var (q1, out) := ServeAll(q, first);
      var (q2, more) := ServeAll(q1, second[..k]);
      var (q3, last) := Serve(q2, second[k]);
      assert (out + more) + last == out + (more + last);
    }
  }

  lemma ServeOne(q: seq<Word>, w: Word)
    ensures ServeAll(q, []) == (q, []) && ServeAll(q, [w]) == Serve(q, w)
  {
    hide Serve;
    ServeNext(q, [], w);
    assert [] + [w] == [w];
    var (q1, out) := Serve(q, w);
    assert [] + out == out;
  }

  lemma ServeNext(q: seq<Word>, done: seq<Word>, w: Word)
    ensures ServeAll(q, done + [w])
         == (var (q1, out) := ServeAll(q, done); var (q2, more) := Serve(q1, w); (q2, out + more))
  {
    assert (done + [w])[..|done|] == done;
  }

  lemma {:induction false} ServeAllSorted(q: seq<Word>, commands: seq<Word>)
    requires Sorted(q)
    ensures Sorted(ServeAll(q, commands).0)
  {
    hide AtMost, Limit;
    if commands != [] {
      ServeAllSorted(q, commands[..|commands| - 1]);
      var q1, w := ServeAll(q, commands[..|commands| - 1]).0, commands[|commands| - 1];
      if !Has(w, SIGN) { AddToSorted(q1, w); }
    }
  }

  /** The numbers added by a stream of commands. */
  function Added(commands: seq<Word>): seq<Word> {
    if commands == [] then []
    else
      var last := commands[|commands| - 1];
      Added(commands[..|commands| - 1]) + (if Has(last, SIGN) then [] else [last])
  }

  /** Every number added is either taken once or still waiting. */
  lemma {:induction false} NothingLost(q: seq<Word>, commands: seq<Word>)
    ensures var (r, out) := ServeAll(q, commands);
      multiset(r) + multiset(out) == multiset(q) + multiset(Added(commands))
  {
    hide AtMost, Has, Limit, Serve;
    if commands != [] {
      var before, w := commands[..|commands| - 1], commands[|commands| - 1];
      NothingLost(q, before);
      var (q1, out) := ServeAll(q, before);
      var (q2, more) := Serve(q1, w);
      ServeKeeps(q1, w);
      var extra := if Has(w, SIGN) then [] else [w];
      Rearrange(multiset(q2), multiset(out), multiset(more), multiset(q1), multiset(extra),
                multiset(q), multiset(Added(before)));
      assert multiset(out + more) == multiset(out) + multiset(more);
      assert multiset(Added(before) + extra) == multiset(Added(before)) + multiset(extra);
    }
  }

  lemma Rearrange(r: multiset<Word>, out: multiset<Word>, more: multiset<Word>, q1: multiset<Word>,
                  extra: multiset<Word>, q: multiset<Word>, added: multiset<Word>)
    requires r + more == q1 + extra && q1 + out == q + added
    ensures r + (out + more) == q + (added + extra)
  {
    assert r + (out + more) == (r + more) + out;
    assert (q1 + extra) + out == (q1 + out) + extra;
  }

  lemma ServeKeeps(q: seq<Word>, w: Word)
    ensures var (r, more) := Serve(q, w);
      multiset(r) + multiset(more) == multiset(q) + multiset(if Has(w, SIGN) then [] else [w])
  {
    hide AtMost, Has, Limit;
    if Has(w, SIGN) {
      var k := if Limit(w) < 0 then 0 else Min(Limit(w), |q|);
      assert q == q[..k] + q[k..];
    } else {
      AddToContents(q, w);
    }
  }

  /** A take gets the smallest numbers, in ascending order: as many as asked for, or all. */
  lemma TakeGetsSmallest(q: seq<Word>, w: Word)
    requires Sorted(q) && Has(w, SIGN) && Limit(w) >= 0
    ensures var (rest, taken) := Serve(q, w);
      && |taken| == Min(Limit(w), |q|) && Sorted(taken) && q == taken + rest
      && (forall x, y :: x in taken && y in rest ==> AtMost(x, y))
  {
    hide AtMost, Has, Limit;
  }

  lemma SignIsNegative(w: Word)
    ensures Has(w, SIGN) <==> w.bits as int >= 0x8000_0000
  {}

  /** A word below 2^31 is that number, and is added. */
  lemma AddMeaning(q: seq<Word>, w: Word)
    requires w.bits as int < 0x8000_0000 && Sorted(q)
    ensures var (rest, taken) := Serve(q, w);
      taken == [] && Sorted(rest) && multiset(rest) == multiset(q) + multiset{w}
  {
    hide AtMost, Has, Sorted, AddTo;
    SignIsNegative(w);
    AddToSorted(q, w);
    AddToContents(q, w);
  }

  /** The two's complement of n takes the n smallest numbers, in ascending order, or all there are. */
  lemma TakeMeaning(q: seq<Word>, w: Word, n: int)
    requires 1 <= n <= 0x7fff_ffff && w.bits as int == 0x1_0000_0000 - n && Sorted(q)
    ensures Has(w, SIGN)
    ensures var (rest, taken) := Serve(q, w);
      && |taken| == (if n < |q| then n else |q|) && q == taken + rest && Sorted(taken)
      && (forall x, y :: x in taken && y in rest ==> AtMost(x, y))
  {
    hide AtMost, Has, Limit;
    SignIsNegative(w);
    LimitIs(w, n);
    hide Serve, Sorted;
    TakeGetsSmallest(q, w);
  }

  lemma LimitIs(w: Word, n: int)
    requires 1 <= n <= 0x7fff_ffff && w.bits as int == 0x1_0000_0000 - n
    ensures Limit(w) == n
  {
    assert SIGN.bits as int == 0x8000_0000;
  }

  /** The least int takes nothing. */
  lemma LeastTakesNothing(q: seq<Word>)
    ensures Serve(q, Word(0x8000_0000)) == (q, [])
  {
    hide AtMost, Has;
    SignIsNegative(SIGN);
    assert SIGN.bits as int == 0x8000_0000;
  }
}
