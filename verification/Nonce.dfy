/** The bounded window of nonces seen: the replay defence of control frames. */
module Nonce {
  import opened Base

  /** The last `n` of `s`, or all of it when it is shorter. */
  function Last<T>(s: seq<T>, n: nat): seq<T> {
    if |s| <= n then s else s[|s| - n..]
  }

  /** Where in a history of `total` slot `i` of a full ring of `n` was written. */
  function WrittenAt(total: nat, n: nat, next: nat, i: nat): int {
    if i < next then total - next + i else total - next - n + i
  }

  /** `seen` holds the last of `history`, oldest at `next` once it is full. */
  ghost predicate Ring(seen: seq<Bytes32>, len: nat, next: nat, history: seq<Bytes32>) {
    && len == (if |history| < |seen| then |history| else |seen|)
    && (|seen| == 0 ==> next == 0)
    && (|seen| > 0 ==> next < |seen|)
    && (|history| < |seen| ==> next == |history|)
    && (forall i :: 0 <= i < len ==>
          var at := WrittenAt(|history|, |seen|, next, i); 0 <= at < |history| && seen[i] == history[at])
  }

  lemma SlotInWindow(seen: seq<Bytes32>, len: nat, next: nat, history: seq<Bytes32>, i: nat)
    requires Ring(seen, len, next, history) && i < len
    ensures seen[i] in Last(history, |seen|)
  {
    var window := Last(history, |seen|);
    var at := WrittenAt(|history|, |seen|, next, i);
    assert window[at - (|history| - |window|)] == history[at];
  }

  lemma WindowInSlot(seen: seq<Bytes32>, len: nat, next: nat, history: seq<Bytes32>, j: nat)
    requires Ring(seen, len, next, history) && j < |Last(history, |seen|)|
    ensures Last(history, |seen|)[j] in seen[..len]
  {
    var window := Last(history, |seen|);
    var at := |history| - |window| + j;
    var i := if at >= |history| - next then at - (|history| - next) else at - (|history| - next - |seen|);
    assert WrittenAt(|history|, |seen|, next, i) == at;
    assert seen[..len][i] == window[j];
  }

  lemma Wraps(next: nat, n: nat)
    requires next < n
    ensures (next + 1) % n == if next + 1 == n then 0 else next + 1
  {
  }

  lemma RingInsert(seen: seq<Bytes32>, len: nat, next: nat, history: seq<Bytes32>, nonce: Bytes32, after: nat)
    requires Ring(seen, len, next, history) && |seen| > 0
    requires after == if next + 1 == |seen| then 0 else next + 1
    ensures next < |seen|
    ensures Ring(seen[next := nonce], if len < |seen| then len + 1 else len, after, history + [nonce])
  {
    var n, total := |seen|, |history| + 1;
    forall i | 0 <= i < (if len < n then len + 1 else len)
      ensures var at := WrittenAt(total, n, after, i);
        0 <= at < total && seen[next := nonce][i] == (history + [nonce])[at]
    {
      if i != next {
        assert WrittenAt(total, n, after, i) == WrittenAt(|history|, n, next, i);
      }
    }
  }

  /** A ring of the last `seen.Length` nonces accepted since it was cleared;
      `history` is all of them, oldest first. */
  class NonceWindow {
    const seen: array<Bytes32>
    var len: nat
    var next: nat
    ghost var history: seq<Bytes32>

    ghost predicate Valid()
      reads this, seen
    {
      Ring(seen[..], len, next, history) && Spaced(history, seen.Length)
    }

    constructor (n: nat)
      ensures Valid() && fresh(seen) && seen.Length == n && history == [] && len == 0
    {
      seen := new Bytes32[n](_ => Fill(32, 0));
      len, next, history := 0, 0, [];
    }

    /** Exactly the last accepted nonces, as many as the window holds. */
    method Contains(nonce: Bytes32) returns (found: bool)
      requires Valid()
      ensures found <==> nonce in Last(history, seen.Length)
    {
      hide Spaced;
      ghost var window := Last(history, seen.Length);
      for i := 0 to len
        invariant forall k :: 0 <= k < i ==> seen[k] != nonce
      {
        if seen[i] == nonce {
          SlotInWindow(seen[..], len, next, history, i);
          return true;
        }
      }
      forall j | 0 <= j < |window|
        ensures window[j] != nonce
      {
        WindowInSlot(seen[..], len, next, history, j);
      }
      return false;
    }

    /** Record `nonce` unless it is in the window. */
    method CheckAndInsert(nonce: Bytes32) returns (accepted: bool)
      requires Valid()
      modifies this`len, this`next, this`history, seen
      ensures Valid()
      ensures accepted <==> Accepts(old(history), seen.Length, nonce)
      ensures history == if accepted then old(history) + [nonce] else old(history)
    {
      hide Ring, Spaced;
      if seen.Length == 0 {
        return false;
      }
      var known := Contains(nonce);
      if known {
        return false;
      }
      SpacedGrows(history, seen.Length, nonce);
      RingInsert(seen[..], len, next, history, nonce, if next + 1 == seen.Length then 0 else next + 1);
      Wraps(next, seen.Length);
      seen[next] := nonce;
      next := (next + 1) % seen.Length;
      if len < seen.Length {
        len := len + 1;
      }
      history := history + [nonce];
      return true;
    }

    method Clear()
      requires Valid()
      modifies this`len, this`next, this`history
      ensures Valid() && history == []
    {
      len, next, history := 0, 0, [];
    }
  }

  // ----- what the window promises -----

  /** A window of `n` accepts a nonce that is not among the last `n`. */
  predicate Accepts(history: seq<Bytes32>, n: nat, nonce: Bytes32) {
    n > 0 && nonce !in Last(history, n)
  }

  /** Equal nonces in the history are more than `n` apart. */
  predicate Spaced(history: seq<Bytes32>, n: nat) {
    forall i, j :: 0 <= i < j < |history| && history[i] == history[j] ==> j - i > n
  }

  lemma SpacedGrows(history: seq<Bytes32>, n: nat, nonce: Bytes32)
    requires Spaced(history, n) && Accepts(history, n, nonce)
    ensures Spaced(history + [nonce], n)
  {
    var window, after := Last(history, n), history + [nonce];
    forall i | 0 <= i < |history| && |history| - i <= n
      ensures history[i] != nonce
    {
      assert window[i - (|history| - |window|)] == history[i];
    }
  }

  datatype Op = Insert(nonce: Bytes32) | Clear

  /** The history a run of operations leaves. */
  function Run(n: nat, ops: seq<Op>): seq<Bytes32> {
    if ops == [] then []
    else
      var before, op := Run(n, ops[..|ops| - 1]), ops[|ops| - 1];
      match op
      case Clear => []
      case Insert(nonce) => if Accepts(before, n, nonce) then before + [nonce] else before
  }

  /** Was operation `k` of the run an accepted insertion? */
  predicate Accepted(n: nat, ops: seq<Op>, k: nat)
    requires k < |ops|
  {
    ops[k].Insert? && Accepts(Run(n, ops[..k]), n, ops[k].nonce)
  }

  /** The accepted insertions among operations `from` to `to`. */
  function CountAccepted(n: nat, ops: seq<Op>, from: nat, to: nat): nat
    requires from <= to <= |ops|
  {
    if from == to then 0
    else CountAccepted(n, ops, from, to - 1) + if Accepted(n, ops, to - 1) then 1 else 0
  }

  lemma {:induction false} RunIsSpaced(n: nat, ops: seq<Op>)
    ensures Spaced(Run(n, ops), n)
  {
    if ops != [] {
      var before, op := ops[..|ops| - 1], ops[|ops| - 1];
      RunIsSpaced(n, before);
      if op.Insert? && Accepts(Run(n, before), n, op.nonce) {
        SpacedGrows(Run(n, before), n, op.nonce);
      }
    }
  }

  /** With no clear from `i` to `k` the history grows by the acceptances. */
  lemma {:induction false} HistoryGrows(n: nat, ops: seq<Op>, i: nat, k: nat)
    requires i <= k <= |ops|
    requires forall m :: i <= m < k ==> ops[m].Insert?
    ensures Run(n, ops[..i]) <= Run(n, ops[..k])
    ensures |Run(n, ops[..k])| == |Run(n, ops[..i])| + CountAccepted(n, ops, i, k)
    decreases k - i
  {
    hide Accepts;
    if i < k {
      HistoryGrows(n, ops, i, k - 1);
      assert ops[..k][k - 1] == ops[k - 1];
      assert ops[..k][..k - 1] == ops[..k - 1];
    }
  }

  /** Replays are bounded over every run: between two acceptances of one nonce,
      with no clear between, at least `n` others were accepted. */
  lemma ReplayNeedsNOthers(n: nat, ops: seq<Op>, i: nat, k: nat)
    requires i < k < |ops| && ops[i] == ops[k]
    requires Accepted(n, ops, i) && Accepted(n, ops, k)
    requires forall m :: i <= m <= k ==> ops[m].Insert?
    ensures CountAccepted(n, ops, i + 1, k) >= n
  {
    var before, after := Run(n, ops[..i]), Run(n, ops[..i + 1]);
    assert ops[..i + 1][..i] == ops[..i];
    assert after == before + [ops[i].nonce];
    HistoryGrows(n, ops, i + 1, k);
    var now := Run(n, ops[..k]);
    RunIsSpaced(n, ops[..k]);
    SpacedGrows(now, n, ops[k].nonce);
    var end := now + [ops[k].nonce];
    assert end[|before|] == after[|before|] == ops[i].nonce && end[|now|] == ops[i].nonce;
  }

  /** And `n` others are enough: after an accepted nonce, with no clear and no
      other acceptance of it since, it is accepted again exactly when at least
      `n` others have been. */
  lemma NOthersSuffice(n: nat, ops: seq<Op>, i: nat, k: nat)
    requires n > 0 && i < k < |ops| && ops[i] == ops[k] && Accepted(n, ops, i)
    requires forall m :: i <= m <= k ==> ops[m].Insert?
    requires forall m :: i < m < k && ops[m] == ops[i] ==> !Accepted(n, ops, m)
    ensures Accepted(n, ops, k) <==> CountAccepted(n, ops, i + 1, k) >= n
  {
    hide Accepts;
    if Accepted(n, ops, k) {
      ReplayNeedsNOthers(n, ops, i, k);
    }
    if CountAccepted(n, ops, i + 1, k) >= n {
      var nonce, from := ops[i].nonce, |Run(n, ops[..i + 1])|;
      HistoryGrows(n, ops, i + 1, k);
      NotSince(n, ops, i + 1, k, nonce);
      var now := Run(n, ops[..k]);
      AcceptsOutside(now, n, nonce);
    }
  }

  lemma AcceptsOutside(history: seq<Bytes32>, n: nat, nonce: Bytes32)
    ensures Accepts(history, n, nonce) <==> n > 0 && nonce !in Last(history, n)
  {
  }

  /** `nonce` is not in `history` from `start` on. */
  predicate NotFrom(history: seq<Bytes32>, start: nat, nonce: Bytes32) {
    forall j :: start <= j < |history| ==> history[j] != nonce
  }

  lemma NotFromGrows(history: seq<Bytes32>, start: nat, nonce: Bytes32, next: Bytes32)
    requires NotFrom(history, start, nonce) && next != nonce
    ensures NotFrom(history + [next], start, nonce)
  {
  }

  /** A nonce not accepted from `i` to `k` is not in what the history gained. */
  lemma {:induction false} NotSince(n: nat, ops: seq<Op>, i: nat, k: nat, nonce: Bytes32)
    requires i <= k <= |ops|
    requires forall m :: i <= m < k ==> ops[m].Insert?
    requires forall m :: i <= m < k && ops[m].nonce == nonce ==> !Accepted(n, ops, m)
    ensures NotFrom(Run(n, ops[..k]), |Run(n, ops[..i])|, nonce)
    decreases k - i
  {
    hide Accepts;
    if i < k {
      NotSince(n, ops, i, k - 1, nonce);
      assert ops[..k][k - 1] == ops[k - 1];
      assert ops[..k][..k - 1] == ops[..k - 1];
      if Accepted(n, ops, k - 1) {
        NotFromGrows(Run(n, ops[..k - 1]), |Run(n, ops[..i])|, nonce, ops[k - 1].nonce);
      }
    }
  }

  /** A window performs a run as the history says. */
  method Perform(n: nat, ops: seq<Op>) returns (w: NonceWindow)
    ensures w.Valid() && w.seen.Length == n && w.history == Run(n, ops)
  {
    w := new NonceWindow(n);
    for i := 0 to |ops|
      invariant w.Valid() && w.seen.Length == n && fresh(w) && fresh(w.seen)
      invariant w.history == Run(n, ops[..i])
    {
      assert ops[..i + 1][..i] == ops[..i];
      match ops[i]
      case Clear => w.Clear();
      case Insert(nonce) => var _ := w.CheckAndInsert(nonce);
    }
    assert ops[..|ops|] == ops;
  }
}
