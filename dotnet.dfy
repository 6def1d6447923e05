/** The parts of the .NET runtime the editor relies on: a resizable list
    that is changed in place, the exceptions it and the arithmetic can
    raise, and C#'s 32-bit integer remainder and wrap-around. */
module DotNet {

  /** The exceptions that the editor's loop body can raise. */
  datatype Exception = ArgumentOutOfRange | DivideByZero

  /** A computation that either yields a value or raises an exception. */
  datatype Outcome<T> = Ok(value: T) | Thrown(fault: Exception)

  function Abs(x: int): nat { if x < 0 then -x else x }

  /** C#'s `/` on integers: division truncated toward zero. */
  function Quotient(a: int, n: int): int
    requires n != 0
  {
    var q := Abs(a) / Abs(n);
    if (a < 0) == (n < 0) then q else -q
  }

  /** C#'s `%` on integers: the remainder of the division truncated toward
      zero, so the result takes the sign of the dividend (unlike Dafny's
      Euclidean `%`, whose result is never negative). */
  function Remainder(a: int, n: int): (r: int)
    requires n != 0
    ensures a == Quotient(a, n) * n + r
    ensures Abs(r) < Abs(n)
    ensures a >= 0 ==> r >= 0
    ensures a <= 0 ==> r <= 0
  {
    TruncatedDivision(a, n);
    var m := Abs(a) % Abs(n);
    if a < 0 then -m else m
  }

  /** Truncated quotient and remainder rebuild the dividend, for each
      combination of signs. */
  lemma TruncatedDivision(a: int, n: int)
    requires n != 0
    ensures a == Quotient(a, n) * n + (if a < 0 then -(Abs(a) % Abs(n)) else Abs(a) % Abs(n))
  {
    var q, m := Abs(a) / Abs(n), Abs(a) % Abs(n);
    assert Abs(a) == q * Abs(n) + m;
    if a >= 0 && n > 0 {
    } else if a >= 0 {
      assert q * Abs(n) == (-q) * n;
    } else if n > 0 {
      assert -(q * n) == (-q) * n;
    } else {
      assert q * Abs(n) == -(q * n);
    }
  }

  const Int32Min: int := -0x8000_0000
  const Int32Max: int := 0x7FFF_FFFF

  /** The value an unchecked C# `int` expression takes when the exact
      result `x` does not fit in 32 bits. */
  function WrapInt32(x: int): (r: int)
    ensures Int32Min <= r <= Int32Max
    ensures (x - r) % 0x1_0000_0000 == 0
    ensures Int32Min <= x <= Int32Max ==> r == x
  {
    (x - Int32Min) % 0x1_0000_0000 + Int32Min
  }

  /** `System.Collections.Generic.List<T>`: an ordered, resizable list
      changed in place. An index outside `[0, Count)` raises
      `ArgumentOutOfRangeException` and leaves the list as it was. */
  class ItemList<T> {
    var elems: seq<T>

    constructor (init: seq<T>)
      ensures elems == init
    {
      elems := init;
    }

    function Count(): nat
      reads this
    {
      |elems|
    }

    /** `list[i] = v` */
    method Set(i: int, v: T) returns (ok: bool)
      modifies this
      ensures ok <==> 0 <= i < |old(elems)|
      ensures elems == if ok then old(elems)[i := v] else old(elems)
    {
      ok := 0 <= i < |elems|;
      if ok {
        elems := elems[i := v];
      }
    }

    /** `list.Add(v)` */
    method Add(v: T)
      modifies this
      ensures elems == old(elems) + [v]
    {
      elems := elems + [v];
    }

    /** `list.RemoveAt(i)` */
    method RemoveAt(i: int) returns (ok: bool)
      modifies this
      ensures ok <==> 0 <= i < |old(elems)|
      ensures elems == if ok then old(elems)[..i] + old(elems)[i + 1..] else old(elems)
    {
      ok := 0 <= i < |elems|;
      if ok {
        elems := elems[..i] + elems[i + 1..];
      }
    }
  }
}
