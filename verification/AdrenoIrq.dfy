/** adreno.c: the walk over the bits of the interrupt status. */
module AdrenoIrq {

  const STATUS_BITS: nat := 32

  function Pow2(n: nat): (p: nat)
    ensures p > 0
  {
    if n == 0 then 1 else 2 * Pow2(n - 1)
  }

  /** Bit `i` of a word. */
  predicate Bit(x: nat, i: nat) {
    if i == 0 then x % 2 == 1 else Bit(x / 2, i - 1)
  }

  /** fls: one more than the position of the highest set bit, 0 when none is set. */
  function Fls(x: nat): (n: nat)
    ensures x == 0 <==> n == 0
  {
    if x == 0 then 0 else 1 + Fls(x / 2)
  }

  lemma {:induction false} NoBits(i: nat)
    ensures !Bit(0, i)
  {
    if i > 0 {
      NoBits(i - 1);
    }
  }

  lemma {:induction false} FlsIsTheTop(x: nat, n: nat)
    requires x < Pow2(n)
    ensures Fls(x) <= n
    ensures x > 0 ==> Bit(x, Fls(x) - 1) && Pow2(Fls(x) - 1) <= x
    ensures forall i | i >= Fls(x) :: !Bit(x, i)
  {
    if x == 0 {
      forall i: nat | i >= 0 ensures !Bit(x, i) {
        NoBits(i);
      }
    } else {
      FlsIsTheTop(x / 2, n - 1);
      forall i | i >= Fls(x) ensures !Bit(x, i) {
        assert !Bit(x / 2, i - 1);
      }
    }
  }

  /** Taking the highest bit out leaves the others as they are. */
  lemma {:induction false} ClearTop(x: nat, n: nat, j: nat)
    requires 0 < x < Pow2(n)
    ensures Pow2(Fls(x) - 1) <= x
    ensures Bit(x - Pow2(Fls(x) - 1), j) <==> Bit(x, j) && j != Fls(x) - 1
  {
    FlsIsTheTop(x, n);
    if x == 1 {
      NoBits(j);
      assert Fls(0) == 0;
      if j > 0 {
        NoBits(j - 1);
      }
    } else {
      var p := Pow2(Fls(x / 2) - 1);
      assert Pow2(Fls(x) - 1) == 2 * p;
      assert (x - 2 * p) / 2 == x / 2 - p && (x - 2 * p) % 2 == x % 2;
      if j > 0 {
        ClearTop(x / 2, n - 1, j - 1);
      }
    }
  }

  datatype Result = IrqNone | IrqHandled

  /** The bits that are set, enabled and have a handler, from `top` - 1 down. */
  ghost function Due(status: nat, mask: nat, handlers: set<nat>, top: nat): seq<nat> {
    if top == 0 then []
    else (if Bit(status, top - 1) && Bit(mask, top - 1) && top - 1 in handlers then [top - 1] else [])
         + Due(status, mask, handlers, top - 1)
  }

  /** `Due` lists exactly those bits, in strictly descending order, so once each. */
  lemma {:induction false} DueIsExact(status: nat, mask: nat, handlers: set<nat>, top: nat)
    ensures var d := Due(status, mask, handlers, top);
      && (forall i :: i in d <==> 0 <= i < top && Bit(status, i) && Bit(mask, i) && i in handlers)
      && (forall j, k | 0 <= j < k < |d| :: d[j] > d[k])
  {
    if top > 0 {
      DueIsExact(status, mask, handlers, top - 1);
      var d := Due(status, mask, handlers, top - 1);
      assert forall k | 0 <= k < |d| :: d[k] in d;
    }
  }

  /** Bits above the highest one add nothing. */
  lemma {:induction false} DueFromTop(status: nat, mask: nat, handlers: set<nat>, n: nat)
    requires status < Pow2(n)
    ensures Fls(status) <= n && Due(status, mask, handlers, n) == Due(status, mask, handlers, Fls(status))
  {
    FlsIsTheTop(status, n);
    DueAbove(status, mask, handlers, n);
  }

  lemma {:induction false} DueAbove(status: nat, mask: nat, handlers: set<nat>, m: nat)
    requires m >= Fls(status) && forall i | i >= Fls(status) :: !Bit(status, i)
    ensures Due(status, mask, handlers, m) == Due(status, mask, handlers, Fls(status))
  {
    if m > Fls(status) {
      DueAbove(status, mask, handlers, m - 1);
    }
  }

  lemma {:induction false} SameDue(a: nat, b: nat, mask: nat, handlers: set<nat>, top: nat)
    requires forall j | 0 <= j < top :: Bit(a, j) == Bit(b, j)
    ensures Due(a, mask, handlers, top) == Due(b, mask, handlers, top)
  {
    if top > 0 {
      SameDue(a, b, mask, handlers, top - 1);
    }
  }

  /** adreno_irq_callbacks: `calls` are the bits whose handler was called, in order. */
  method IrqCallbacks(status: nat, mask: nat, handlers: set<nat>) returns (ret: Result, calls: seq<nat>)
    requires status < Pow2(STATUS_BITS)
    ensures calls == Due(status, mask, handlers, STATUS_BITS)
    ensures ret == IrqHandled <==> status != 0
  {
    hide Due, Bit, Pow2;
    ret, calls := IrqNone, [];
    var left: nat := status;
    assert [] + Due(left, mask, handlers, STATUS_BITS) == Due(status, mask, handlers, STATUS_BITS);
    while left != 0
      invariant left <= status && left < Pow2(STATUS_BITS)
      invariant calls + Due(left, mask, handlers, STATUS_BITS) == Due(status, mask, handlers, STATUS_BITS)
      invariant ret == IrqHandled <==> left < status
      decreases left
    {
      ghost var calls0 := calls;
      var i := Fls(left) - 1;
      if i in handlers && Bit(mask, i) {
        calls := calls + [i];
      }
      ret := IrqHandled;
      TopFirst(left, mask, handlers);
      ghost var first, rest := if i in handlers && Bit(mask, i) then [i] else [], Due(left - Pow2(i), mask, handlers, STATUS_BITS);
      assert calls0 + (first + rest) == calls0 + first + rest;
      left := left - Pow2(i);
    }
    NothingDue(mask, handlers, STATUS_BITS);
    assert calls + [] == calls;
  }

  lemma {:induction false} NothingDue(mask: nat, handlers: set<nat>, top: nat)
    ensures Due(0, mask, handlers, top) == []
  {
    if top > 0 {
      NothingDue(mask, handlers, top - 1);
      NoBits(top - 1);
    }
  }

  /** The highest bit is due first, and then the rest. */
  lemma {:induction false} TopFirst(x: nat, mask: nat, handlers: set<nat>)
    requires 0 < x < Pow2(STATUS_BITS)
    ensures Pow2(Fls(x) - 1) <= x
    ensures Due(x, mask, handlers, STATUS_BITS) ==
            (if Fls(x) - 1 in handlers && Bit(mask, Fls(x) - 1) then [Fls(x) - 1] else [])
            + Due(x - Pow2(Fls(x) - 1), mask, handlers, STATUS_BITS)
  {
    var i := Fls(x) - 1;
    FlsIsTheTop(x, STATUS_BITS);
    DueFromTop(x, mask, handlers, STATUS_BITS);
    var y := x - Pow2(i);
    forall j: nat ensures Bit(y, j) <==> Bit(x, j) && j != i {
      ClearTop(x, STATUS_BITS, j);
    }
    SameDue(x, y, mask, handlers, i);
    DueBelow(y, mask, handlers, i, STATUS_BITS);
  }

  lemma {:induction false} DueBelow(y: nat, mask: nat, handlers: set<nat>, i: nat, m: nat)
    requires i <= m && forall j | i <= j :: !Bit(y, j)
    ensures Due(y, mask, handlers, m) == Due(y, mask, handlers, i)
  {
    if i < m {
      DueBelow(y, mask, handlers, i, m - 1);
    }
  }
}
