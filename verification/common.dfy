/** Failure-compatible wrappers and the two store lookups every module of the
    model shares. */
module Common {

  /** A value that may be absent: a C# `null` reference or a `??` fallback in TypeScript. */
  datatype Option<+T> = None | Some(value: T)

  /** The outcome of a service call that either produces a value or throws
      `InvalidOperationException` with a message. */
  datatype Result<+T> = Success(value: T) | Failure(message: string)

  /** The position of the first element satisfying `p`, as a lookup by key
      (`FindAsync`, `FirstOrDefaultAsync`) finds it. */
  function FirstIndex<T>(s: seq<T>, p: T -> bool): (r: Option<nat>)
    ensures r.Some? ==> r.value < |s| && p(s[r.value]) && forall j :: 0 <= j < r.value ==> !p(s[j])
    ensures r.None? <==> forall i :: 0 <= i < |s| ==> !p(s[i])
  {
    if |s| == 0 then None
    else if p(s[0]) then Some(0)
    else
      match FirstIndex(s[1..], p)
      case None => None
      case Some(k) => Some(k + 1)
  }

  /** An identity value the store may hand to the next inserted entity: one
      past the largest in use, so it never collides with an existing one. */
  function FreshId<T>(s: seq<T>, idOf: T -> int): (r: int)
    ensures forall i :: 0 <= i < |s| ==> idOf(s[i]) < r
    ensures r >= 1
  {
    if |s| == 0 then 1
    else
      var rest := FreshId(s[..|s| - 1], idOf);
      var last := idOf(s[|s| - 1]);
      assert forall i :: 0 <= i < |s| - 1 ==> s[i] == s[..|s| - 1][i];
      if last < rest then rest else last + 1
  }

  /** Concatenation is associative. */
  lemma AppendAssoc<T>(a: seq<T>, b: seq<T>, c: seq<T>)
    ensures (a + b) + c == a + (b + c)
  {
  }

  /** The largest C# `int`. */
  const Int32Max: int := 0x7FFF_FFFF

  /** A value that fits a C# `int`: a column, a parameter or a query-string value. */
  predicate IsInt32(x: int) {
    -Int32Max - 1 <= x <= Int32Max
  }

  /** Two's-complement wrap-around of a C# `int` result in an unchecked context. */
  function Wrap32(x: int): (r: int)
    ensures IsInt32(r)
    ensures (r - x) % 0x1_0000_0000 == 0
    ensures IsInt32(x) ==> r == x
  {
    var m := x % 0x1_0000_0000;
    if m <= Int32Max then m else m - 0x1_0000_0000
  }
}
