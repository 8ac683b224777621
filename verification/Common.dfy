/** Small definitions that several parts of the model share. */
module Common {

  const U16 := 0x1_0000
  const MAX_SKB_FRAGS := 17

  datatype Option<T> = None | Some(value: T)

  function Min(a: nat, b: nat): nat {
    if a <= b then a else b
  }

  function Max(a: nat, b: nat): nat {
    if a >= b then a else b
  }

  function DivRoundUp(a: nat, b: nat): nat
    requires b > 0
  {
    (a + b - 1) / b
  }

  function Sum(s: seq<nat>): nat {
    if s == [] then 0 else s[0] + Sum(s[1..])
  }

  lemma MulLe(a: int, b: int, c: nat)
    requires a <= b
    ensures a * c <= b * c
  {
  }
}
