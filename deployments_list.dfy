/** The hovered row of the compact deployments list
    (src/_components/deployments-list.tsx): `j`/down and `k`/up move it with
    wrap-around while the list has focus. */
module HoverCursor {

  /** The hovered index is a JavaScript number: an integer, or NaN once it
      was stepped over an empty list (`x % 0`). */
  datatype Index = Idx(i: int) | NaN

  function Abs(n: int): nat {
    if n < 0 then -n else n
  }

  /** JavaScript `a % n` on integers: the remainder takes the sign of `a`;
      a zero divisor gives NaN. */
  function JsRem(a: int, n: int): (r: Index)
    ensures n == 0 <==> r.NaN?
    ensures n != 0 && a >= 0 ==> r == Idx(a % Abs(n))
  {
    if n == 0 then NaN
    else if a >= 0 then Idx(a % Abs(n))
    else Idx(-((-a) % Abs(n)))
  }

  /** `i => (i + 1) % deployments.length`. */
  function Next(idx: Index, n: nat): Index {
    match idx
    case NaN => NaN
    case Idx(i) => JsRem(i + 1, n)
  }

  /** `i => (i - 1 + deployments.length) % deployments.length`. */
  function Prev(idx: Index, n: nat): Index {
    match idx
    case NaN => NaN
    case Idx(i) => JsRem(i - 1 + n, n)
  }

  predicate IsDown(key: string) {
    key == "down" || key == "j"
  }

  predicate IsUp(key: string) {
    key == "up" || key == "k"
  }

  lemma ModBelow(a: int, n: int)
    requires 0 <= a < n
    ensures a % n == a
  {
  }

  lemma ModSelf(n: int)
    requires 0 < n
    ensures n % n == 0
  {
  }

  /** One step down over a non-empty list: the next index, back to 0 after
      the last. */
  lemma NextWraps(i: int, n: nat)
    requires 0 <= i < n
    ensures Next(Idx(i), n) == Idx(if i == n - 1 then 0 else i + 1)
  {
    if i == n - 1 {
      ModSelf(n);
    } else {
      ModBelow(i + 1, n);
    }
  }

  /** One step up over a non-empty list: the previous index, round to the
      last from 0. */
  lemma PrevWraps(i: int, n: nat)
    requires 0 <= i < n
    ensures Prev(Idx(i), n) == Idx(if i == 0 then n - 1 else i - 1)
  {
    if i == 0 {
      ModBelow(n - 1, n);
    } else {
      ModAddDivisor(i - 1, n);
    }
  }

  lemma ModAddDivisor(a: int, n: int)
    requires 0 <= a < n
    ensures (a + n) % n == a
  {
  }

  /** Over a non-empty list an index in range stays in range either way, and
      up undoes down and down undoes up. */
  lemma StepsWrapAround(i: int, n: nat)
    requires 0 <= i < n
    ensures Next(Idx(i), n).Idx? && 0 <= Next(Idx(i), n).i < n
    ensures Prev(Idx(i), n).Idx? && 0 <= Prev(Idx(i), n).i < n
    ensures Prev(Next(Idx(i), n), n) == Idx(i)
    ensures Next(Prev(Idx(i), n), n) == Idx(i)
  {
    NextWraps(i, n);
    PrevWraps(i, n);
    var j := if i == n - 1 then 0 else i + 1;
    PrevWraps(j, n);
    var h := if i == 0 then n - 1 else i - 1;
    NextWraps(h, n);
  }

  /** Over an empty list either step gives NaN, and NaN never recovers. */
  lemma EmptyListLosesIndex(idx: Index, n: nat)
    ensures n == 0 ==> Next(idx, n) == NaN && Prev(idx, n) == NaN
    ensures idx.NaN? ==> Next(idx, n) == NaN && Prev(idx, n) == NaN
  {
  }

  /** The component's hovered-row state. */
  class DeploymentsList {
    var hoveredIdx: Index

    constructor ()
      ensures hoveredIdx == Idx(0)
    {
      hoveredIdx := Idx(0);
    }

    /** A key press with `n` deployments listed. Without focus nothing
        changes; `enter` only reads the hovered deployment. */
    method OnKey(focused: bool, key: string, n: nat)
      modifies this
      ensures !focused ==> hoveredIdx == old(hoveredIdx)
      ensures focused && IsDown(key) ==> hoveredIdx == Next(old(hoveredIdx), n)
      ensures focused && IsUp(key) ==> hoveredIdx == Prev(old(hoveredIdx), n)
      ensures !IsDown(key) && !IsUp(key) ==> hoveredIdx == old(hoveredIdx)
    {
      if !focused {
        return;
      }
      if IsDown(key) {
        hoveredIdx := Next(hoveredIdx, n);
      }
      if IsUp(key) {
        hoveredIdx := Prev(hoveredIdx, n);
      }
    }
  }
}
