/**
 * The dialogue backlog (`dialogue_backlog`): the recent messages that are
 * shown to the oracle, oldest first. Appending first drops messages from the
 * front while more than `MAX_BACKLOG_AMOUNT` are held, and only then pushes,
 * so the backlog settles at `MAX_BACKLOG_AMOUNT + 1` messages.
 */
module Backlog {

  const MAX_BACKLOG_AMOUNT: nat := 10

  /** An incoming protocol message: its sender id (`from`) and its payload. */
  datatype Message = Message(from: string, name: string, content: string)

  /** The last `n` elements of `s`, or all of them when there are fewer. */
  function Last<T>(s: seq<T>, n: nat): (r: seq<T>)
    ensures |r| == if |s| < n then |s| else n
  {
    if |s| <= n then s else s[|s| - n..]
  }

  /** The backlog after `appendToBacklog(m)`. */
  function Appended(b: seq<Message>, m: Message): (r: seq<Message>)
    ensures |r| <= MAX_BACKLOG_AMOUNT + 1
  {
    var kept := if |b| > MAX_BACKLOG_AMOUNT then b[|b| - MAX_BACKLOG_AMOUNT..] else b;
    kept + [m]
  }

  /** An append keeps the newest `MAX_BACKLOG_AMOUNT` messages, or all of
      them when there are no more, and puts the new message last. */
  lemma AppendedKeepsNewest(b: seq<Message>, m: Message)
    ensures var r := Appended(b, m);
            |r| == (if |b| > MAX_BACKLOG_AMOUNT then MAX_BACKLOG_AMOUNT else |b|) + 1
            && r[|r| - 1] == m
            && r[..|r| - 1] == b[|b| - (|r| - 1)..]
  {
    var r := Appended(b, m);
    var kept := if |b| > MAX_BACKLOG_AMOUNT then b[|b| - MAX_BACKLOG_AMOUNT..] else b;
    assert kept == b[|b| - |kept|..];
    assert r[..|r| - 1] == kept;
  }

  /** The backlog after appending `ms` one after another. */
  function AppendAll(b: seq<Message>, ms: seq<Message>): seq<Message>
    decreases |ms|
  {
    if ms == [] then b else Appended(AppendAll(b, ms[..|ms| - 1]), ms[|ms| - 1])
  }

  /** From a backlog of at most `MAX_BACKLOG_AMOUNT + 1` messages, one append
      keeps the newest `MAX_BACKLOG_AMOUNT + 1` messages of old and new. */
  lemma AppendedWindow(b: seq<Message>, m: Message)
    requires |b| <= MAX_BACKLOG_AMOUNT + 1
    ensures Appended(b, m) == Last(b + [m], MAX_BACKLOG_AMOUNT + 1)
  {
    if |b| > MAX_BACKLOG_AMOUNT {
      assert (b + [m])[|b| + 1 - (MAX_BACKLOG_AMOUNT + 1)..] == b[|b| - MAX_BACKLOG_AMOUNT..] + [m];
    }
  }

  lemma AppendAllSnoc(b: seq<Message>, init: seq<Message>, m: Message)
    ensures AppendAll(b, init + [m]) == Appended(AppendAll(b, init), m)
  {
    assert (init + [m])[..|init|] == init;
  }

  /** Any run of appends to such a backlog holds exactly the newest
      `MAX_BACKLOG_AMOUNT + 1` messages seen. */
  lemma {:induction false} AppendAllWindow(b: seq<Message>, ms: seq<Message>)
    requires |b| <= MAX_BACKLOG_AMOUNT + 1
    ensures AppendAll(b, ms) == Last(b + ms, MAX_BACKLOG_AMOUNT + 1)
    decreases |ms|
  {
    if ms != [] {
      var init, m := ms[..|ms| - 1], ms[|ms| - 1];
      assert ms == init + [m];
      AppendAllSnoc(b, init, m);
      AppendAllWindow(b, init);
      AppendedWindow(AppendAll(b, init), m);
      LastSnoc(b + init, m, MAX_BACKLOG_AMOUNT + 1);
      assert (b + init) + [m] == b + ms;
    }
  }

  lemma LastSnoc<T>(s: seq<T>, x: T, n: nat)
    requires n > 0
    ensures Last(Last(s, n) + [x], n) == Last(s + [x], n)
  {
    if |s| >= n {
      assert Last(s, n) + [x] == s[|s| - n..] + [x];
      assert (s[|s| - n..] + [x])[1..] == (s + [x])[|s| + 1 - n..];
    }
  }

  /** Starting empty, after `N` appends the oldest message held is the
      `(N - MAX_BACKLOG_AMOUNT)`-th appended (counting from 1), once `N`
      exceeds `MAX_BACKLOG_AMOUNT + 1`. */
  lemma OldestSurvivor(ms: seq<Message>)
    requires |ms| > MAX_BACKLOG_AMOUNT + 1
    ensures AppendAll([], ms)[0] == ms[|ms| - MAX_BACKLOG_AMOUNT - 1]
  {
    AppendAllWindow([], ms);
    assert [] + ms == ms;
  }
}
