/** Small value types shared by the models: an optional value, used where
    the programs return `None`, and integers extended with the two
    infinities the programs write as `float('inf')` and `float('-inf')`. */
module Common {

  datatype Option<T> = None | Some(value: T)

  /** An integer, or one of the two infinities. */
  datatype Ext = NegInf | Fin(n: int) | PosInf
  {
    /** The order of the extended integers. */
    predicate Le(other: Ext)
    {
      match (this, other)
      case (NegInf, _) => true
      case (_, PosInf) => true
      case (Fin(a), Fin(b)) => a <= b
      case _ => false
    }

    predicate Lt(other: Ext)
    {
      !other.Le(this)
    }
  }

  /** Below or equal, then strictly below, is strictly below. */
  lemma LeLtTrans(a: Ext, b: Ext, c: Ext)
    requires a.Le(b) && b.Lt(c)
    ensures a.Lt(c) && a.Le(c)
  {
  }

  /** The larger of two extended integers; on a tie the first. */
  function Max(a: Ext, b: Ext): (m: Ext)
    ensures a.Le(m) && b.Le(m) && (m == a || m == b)
  {
    if b.Le(a) then a else b
  }

  /** The smaller of two extended integers; on a tie the first. */
  function Min(a: Ext, b: Ext): (m: Ext)
    ensures m.Le(a) && m.Le(b) && (m == a || m == b)
  {
    if a.Le(b) then a else b
  }

  function Abs(x: int): (r: nat)
    ensures r == x || r == -x
  {
    if x < 0 then -x else x
  }

  /** `s` read backwards, as Python's `s[::-1]`. */
  function Reverse<T>(s: seq<T>): (r: seq<T>)
    ensures |r| == |s| && forall i :: 0 <= i < |s| ==> r[i] == s[|s| - 1 - i]
  {
    if |s| == 0 then [] else [s[|s| - 1]] + Reverse(s[..|s| - 1])
  }

  /** Appending an element puts it at the front of the reversal. */
  lemma ReverseSnoc<T>(s: seq<T>, x: T)
    ensures Reverse(s + [x]) == [x] + Reverse(s)
  {
    assert (s + [x])[..|s|] == s;
  }
}
