/** The masked tensor writes the mixture model is built from: `a[mask] = c`, `a[mask] += b[mask]`
    and `a[mask] /= d`, each visiting the cells in order and touching only the masked ones. */
module Masked {
  import opened NumValues

  /** a[mask] = value. */
  method Fill(a: array<Num>, mask: seq<bool>, value: Num)
    requires |mask| == a.Length
    modifies a
    ensures forall i :: 0 <= i < a.Length ==> a[i] == if mask[i] then value else old(a[i])
  {
    for k := 0 to a.Length
      invariant forall i :: 0 <= i < a.Length ==> a[i] == if i < k && mask[i] then value else old(a[i])
    {
      if mask[k] {
        a[k] := value;
      }
    }
  }

  /** a[mask] += terms[mask]. */
  method AddWhere(a: array<Num>, mask: seq<bool>, terms: seq<Num>)
    requires |mask| == a.Length && |terms| == a.Length
    modifies a
    ensures forall i :: 0 <= i < a.Length ==> a[i] == if mask[i] then Add(old(a[i]), terms[i]) else old(a[i])
  {
    for k := 0 to a.Length
      invariant forall i :: 0 <= i < a.Length ==>
                  a[i] == if i < k && mask[i] then Add(old(a[i]), terms[i]) else old(a[i])
    {
      if mask[k] {
        a[k] := Add(a[k], terms[k]);
      }
    }
  }

  /** a[mask] /= divisor. */
  method DivWhere(a: array<Num>, mask: seq<bool>, divisor: Num)
    requires |mask| == a.Length
    modifies a
    ensures forall i :: 0 <= i < a.Length ==> a[i] == if mask[i] then Div(old(a[i]), divisor) else old(a[i])
  {
    for k := 0 to a.Length
      invariant forall i :: 0 <= i < a.Length ==>
                  a[i] == if i < k && mask[i] then Div(old(a[i]), divisor) else old(a[i])
    {
      if mask[k] {
        a[k] := Div(a[k], divisor);
      }
    }
  }
}
