/**
 A list of endpoints of which one is current, and operations that move on to the next endpoint when a call
 fails in a way that another endpoint might not.
 */
module EndpointFallback {
  import opened Arith
  import opened Options

  /** What a call ends in: success, a failure that is final, or one that justifies another endpoint. */
  datatype Outcome = Succeeded | Failed | FailedOver

  /** The endpoint `offset` places after the current one. */
  function After(current: nat, offset: nat, n: nat): (i: nat)
    requires n > 0
    ensures i < n
  {
    DivNat(current + offset, n);
    (current + offset) % n
  }

  /** The least offset from `from` on whose endpoint can be constructed. */
  function NextOffset(current: nat, from: nat, n: nat, ok: nat -> bool): (r: Option<nat>)
    requires n > 0 && from <= n
    ensures r.Some? ==> from <= r.value < n && ok(After(current, r.value, n))
    ensures forall k | from <= k < if r.Some? then r.value else n :: !ok(After(current, k, n))
    decreases n - from
  {
    if from == n then None else if ok(After(current, from, n)) then Some(from) else NextOffset(current, from + 1, n, ok)
  }

  /** `i` is strictly between two endpoints in cyclic order. */
  predicate Between(current: nat, i: nat, next: nat) {
    if current < next then current < i < next else i > current || i < next
  }

  /** `next` is the first endpoint after `current`, in cyclic order, that can be constructed. */
  ghost predicate IsNext(current: nat, next: nat, n: nat, ok: nat -> bool) {
    next < n && next != current && ok(next) && forall i: nat | i < n && Between(current, i, next) :: !ok(i)
  }

  /** No endpoint but the current one can be constructed. */
  ghost predicate NoOther(current: nat, n: nat, ok: nat -> bool) {
    forall i: nat | i < n && i != current :: !ok(i)
  }

  lemma AfterIs(current: nat, k: nat, n: nat)
    requires current < n && k < n
    ensures After(current, k, n) == if current + k < n then current + k else current + k - n
  {
    if current + k < n { DivModUnique(current + k, n, 0, current + k); } else { DivModUnique(current + k, n, 1, current + k - n); }
  }

  lemma NextOffsetIs(current: nat, n: nat, ok: nat -> bool)
    requires current < n
    ensures var r := NextOffset(current, 1, n, ok);
            && (r.Some? ==> IsNext(current, After(current, r.value, n), n, ok))
            && (r.None? ==> NoOther(current, n, ok))
  {
    var r := NextOffset(current, 1, n, ok);
    forall i: nat | i < n && i != current && (r.Some? ==> Between(current, i, After(current, r.value, n)))
      ensures !ok(i)
    {
      var k := if i > current then i - current else i + n - current;
      AfterIs(current, k, n);
      if r.Some? { AfterIs(current, r.value, n); }
    }
    if r.Some? { AfterIs(current, r.value, n); }
  }

  class EndpointManager {
    const count: nat
    var current: nat

    ghost predicate Valid()
      reads this
    {
      current < count
    }

    constructor (count: nat)
      requires count > 0
      ensures Valid() && this.count == count && current == 0
    {
      this.count, current := count, 0;
    }

    method SwitchToPrimary()
      requires Valid()
      modifies this
      ensures Valid() && current == 0
    {
      if current == 0 { return; }
      current := 0;
    }

    /**
     `nextClient` and `nextConnection`: the first endpoint after the current one, in cyclic order, that can be
     constructed becomes the current one; if there is none, nothing changes.
     */
    method Next(ok: nat -> bool) returns (found: bool)
      requires Valid()
      modifies this
      ensures Valid()
      ensures found <==> NextOffset(old(current), 1, count, ok).Some?
      ensures found ==> IsNext(old(current), current, count, ok)
      ensures !found ==> current == old(current) && NoOther(current, count, ok)
      ensures current == if found then After(old(current), NextOffset(old(current), 1, count, ok).value, count) else old(current)
    {
      NextOffsetIs(current, count, ok);
      for offset := 1 to count
        invariant current == old(current)
        invariant NextOffset(current, 1, count, ok) == NextOffset(current, offset, count, ok)
      {
        var idx := After(current, offset, count);
        if ok(idx) {
          current := idx;
          return true;
        }
      }
      return false;
    }
  }

  ghost predicate AllConstructible(ok: (nat, nat) -> bool, n: nat) {
    forall round: nat, i: nat | i < n :: ok(round, i)
  }

  ghost predicate AllFailOver(outcome: nat -> Outcome, n: nat) {
    forall i: nat | i < n :: outcome(i) == FailedOver
  }

  /** An operation gives up before its last call only if no other endpoint can be constructed. */
  ghost predicate GivesUpLast(called: seq<nat>, current: nat, n: nat, ok: (nat, nat) -> bool, outcome: nat -> Outcome)
  {
    0 < |called| < n && outcome(|called| - 1) == FailedOver ==>
      NoOther(current, n, (i: nat) => ok(|called|, i))
  }

  /** The calls of an operation: each but the last one failed over. */
  ghost predicate Tried(called: seq<nat>, outcome: nat -> Outcome) {
    forall i | 0 <= i < |called| - 1 :: outcome(i) == FailedOver
  }

  /** Each call but the first is on the first constructible endpoint after that of the call before. */
  ghost predicate EachNext(called: seq<nat>, n: nat, ok: (nat, nat) -> bool) {
    forall i | 0 < i < |called| :: IsNext(called[i - 1], called[i], n, (k: nat) => ok(i, k))
  }

  /** The endpoints are taken in cyclic order, none left out. */
  ghost predicate InTurn(called: seq<nat>, start: nat, n: nat)
    requires n > 0
  {
    forall i :: 0 <= i < |called| ==> called[i] == After(start, i, n)
  }

  lemma {:induction false} NextInTurn(start: nat, i: nat, n: nat, ok: nat -> bool)
    requires n > 1 && forall k: nat | k < n :: ok(k)
    ensures NextOffset(After(start, i, n), 1, n, ok) == Some(1)
    ensures After(After(start, i, n), 1, n) == After(start, i + 1, n)
  {
    ModAbsorb(start + i, 1, n);
  }

  lemma OneCall(called: seq<nat>, n: nat, ok: (nat, nat) -> bool, outcome: nat -> Outcome)
    requires |called| == 1 && called[0] < n
    ensures EachNext(called, n, ok) && InTurn(called, called[0], n) && Tried(called, outcome)
  {
    After0(called[0], n);
  }

  /** What one more call, on the next endpoint after the last one, makes of the calls. */
  lemma AnotherCall(called: seq<nat>, next: nat, start: nat, n: nat, ok: (nat, nat) -> bool, outcome: nat -> Outcome)
    requires 0 < |called| < n && called[|called| - 1] < n && EachNext(called, n, ok)
    requires forall i | 0 <= i < |called| :: outcome(i) == FailedOver
    requires AllConstructible(ok, n) ==> InTurn(called, start, n)
    ensures Tried(called, outcome)
    ensures IsNext(called[|called| - 1], next, n, (k: nat) => ok(|called|, k)) ==>
              && EachNext(called + [next], n, ok) && Tried(called + [next], outcome)
              && (AllConstructible(ok, n) ==> InTurn(called + [next], start, n))
    ensures AllConstructible(ok, n) ==> !NoOther(called[|called| - 1], n, (k: nat) => ok(|called|, k))
  {
    var last := called[|called| - 1];
    if AllConstructible(ok, n) {
      assert last == After(start, |called| - 1, n);
      NextInTurn(start, |called| - 1, n, (k: nat) => ok(|called|, k));
      AfterIs(last, 1, n);
      var other := After(last, 1, n);
      assert ok(|called|, other);
      assert next != other && next != last && next < n ==> Between(last, other, next);
    }
  }

  /**
   The fallback loop: after a call failed over, every other endpoint is tried at most once more. `ok` tells by
   round which endpoints can be constructed, `outcome` how each call in turn ends.
   */
  method TryOthers(m: EndpointManager, called0: seq<nat>, ok: (nat, nat) -> bool, outcome: nat -> Outcome)
    returns (called: seq<nat>, success: bool)
    requires m.Valid() && |called0| == 1 && called0[0] == m.current && outcome(0) == FailedOver
    modifies m
    ensures m.Valid() && called0 <= called && |called| <= m.count && Tried(called, outcome)
    ensures success <==> outcome(|called| - 1) == Succeeded
    ensures called[|called| - 1] == m.current && forall i | i in called :: i < m.count
    ensures EachNext(called, m.count, ok) && GivesUpLast(called, m.current, m.count, ok, outcome)
    ensures AllConstructible(ok, m.count) ==> InTurn(called, called0[0], m.count)
    ensures AllConstructible(ok, m.count) && AllFailOver(outcome, m.count) ==>
              |called| == m.count
  {
    hide IsNext, NoOther, EachNext, InTurn, Tried, AllConstructible;
    called := called0;
    OneCall(called, m.count, ok, outcome);
    for attempt := 0 to m.count - 1
      invariant m.Valid() && called0 <= called && |called| == attempt + 1
      invariant called[|called| - 1] == m.current && forall i | i in called :: i < m.count
      invariant EachNext(called, m.count, ok) && Tried(called, outcome)
      invariant forall i | 0 <= i < |called| :: outcome(i) == FailedOver
      invariant AllConstructible(ok, m.count) ==> InTurn(called, called0[0], m.count)
    {
      var found := m.Next((i: nat) => ok(attempt + 1, i));
      AnotherCall(called, m.current, called0[0], m.count, ok, outcome);
      if !found { return called, false; }
      called := called + [m.current];
      if outcome(|called| - 1) == Succeeded { return called, true; }
      if outcome(|called| - 1) == Failed { return called, false; }
    }
    success := false;
  }

  lemma After0(current: nat, n: nat)
    requires current < n
    ensures After(current, 0, n) == current
  {
    DivModUnique(current, n, 0, current);
  }

  /**
   `withRPCFallback`, without other operations on the manager: at most as many calls as there are endpoints,
   each on the endpoint that is then current; it succeeds exactly if the last call does. If no client can be
   created at all, nothing is called.
   */
  method WithRPCFallback(m: EndpointManager, ok: (nat, nat) -> bool, outcome: nat -> Outcome)
    returns (called: seq<nat>, success: bool)
    requires m.Valid()
    modifies m
    ensures m.Valid() && |called| <= m.count && Tried(called, outcome) && forall i | i in called :: i < m.count
    ensures called == [] <==> !ok(0, old(m.current)) && NoOther(old(m.current), m.count, (i: nat) => ok(0, i))
    ensures success <==> called != [] && outcome(|called| - 1) == Succeeded
    ensures called != [] ==> called[|called| - 1] == m.current && EachNext(called, m.count, ok)
    ensures called != [] ==> if ok(0, old(m.current)) then called[0] == old(m.current)
                             else IsNext(old(m.current), called[0], m.count, (k: nat) => ok(0, k))
    ensures GivesUpLast(called, m.current, m.count, ok, outcome)
    ensures AllConstructible(ok, m.count) ==> called != [] && InTurn(called, old(m.current), m.count)
    ensures AllConstructible(ok, m.count) && AllFailOver(outcome, m.count) ==>
              |called| == m.count
  {
    After0(m.current, m.count);
    if !ok(0, m.current) {
      var found := m.Next((i: nat) => ok(0, i));
      if !found { return [], false; }
    }
    called := [m.current];
    if outcome(0) != FailedOver { return called, outcome(0) == Succeeded; }
    called, success := TryOthers(m, called, ok, outcome);
  }

  /** `withGRPCFallback`: the first call uses the connection there is, the others those made on the way. */
  method WithGRPCFallback(m: EndpointManager, ok: (nat, nat) -> bool, outcome: nat -> Outcome)
    returns (called: seq<nat>, success: bool)
    requires m.Valid()
    modifies m
    ensures m.Valid() && 0 < |called| <= m.count && Tried(called, outcome) && called[0] == old(m.current)
    ensures success <==> outcome(|called| - 1) == Succeeded
    ensures called[|called| - 1] == m.current && EachNext(called, m.count, ok)
    ensures GivesUpLast(called, m.current, m.count, ok, outcome)
    ensures AllConstructible(ok, m.count) ==> InTurn(called, old(m.current), m.count)
    ensures AllConstructible(ok, m.count) && AllFailOver(outcome, m.count) ==>
              |called| == m.count
  {
    After0(m.current, m.count);
    called := [m.current];
    if outcome(0) != FailedOver { return called, outcome(0) == Succeeded; }
    called, success := TryOthers(m, called, ok, outcome);
  }

  /** Calls in turn, one for each endpoint, reach every endpoint exactly once. */
  lemma EachEndpointOnce(called: seq<nat>, start: nat, n: nat, endpoint: nat)
    requires start < n && |called| == n && InTurn(called, start, n) && endpoint < n
    ensures exists i :: 0 <= i < n && called[i] == endpoint && forall j :: 0 <= j < n && j != i ==> called[j] != endpoint
  {
    var i := if endpoint >= start then endpoint - start else endpoint + n - start;
    forall j | 0 <= j < n ensures called[j] == (if start + j < n then start + j else start + j - n) {
      assert called[j] == After(start, j, n);
      if start + j < n {
        DivModUnique(start + j, n, 0, start + j);
      } else {
        DivModUnique(start + j, n, 1, start + j - n);
      }
    }
    assert called[i] == endpoint;
  }
}
