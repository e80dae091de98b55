/** Small shared vocabulary of the card battler: optional values, the card
    elements, and the integer helpers the C# code takes from Unity's Mathf
    and from C#'s own integer division. */
module Common {

  datatype Option<+T> = None | Some(value: T)

  /** The five card elements (CardData.Element). Defends compare their
      element against the one an incoming affliction carries. */
  datatype Element = Smog | Sludge | Radioactivity | Water | Oil

  /** Mathf.Min on integers. */
  function Min(a: int, b: int): (r: int)
    ensures r <= a && r <= b
    ensures r == a || r == b
  {
    if a <= b then a else b
  }

  /** Mathf.Max on integers. */
  function Max(a: int, b: int): (r: int)
    ensures r >= a && r >= b
    ensures r == a || r == b
  {
    if a >= b then a else b
  }

  /** C#'s `/` on int, which truncates toward zero (Dafny's `/` is Euclidean). */
  function TruncDiv(a: int, b: int): (q: int)
    requires b > 0
    ensures 0 <= a ==> 0 <= q && q * b <= a < q * b + b
    ensures a < 0 ==> q <= 0 && q * b - b < a <= q * b
  {
    if a >= 0 then a / b else -((-a) / b)
  }
}
