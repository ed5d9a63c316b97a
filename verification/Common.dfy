// Datatypes and lemmas shared by the models of the individual components.
module Wrappers {

  datatype Option<+T> = None | Some(value: T)
}

module Sets {

  lemma {:induction false} SubsetSize<T>(a: set<T>, b: set<T>)
    requires a <= b
    ensures |a| <= |b|
  {
    if a != {} {
      var x :| x in a;
      SubsetSize(a - {x}, b - {x});
    }
  }
}

module Arithmetic {

  lemma {:induction false} DivideBounds(a: int, b: int)
    requires b > 0
    ensures b * (a / b) <= a < b * (a / b) + b
  {
  }

  lemma {:induction false} ProductStep(w: int, q: int, q': int)
    requires w > 0 && q > q'
    ensures w * q >= w * q' + w
  {
    assert w * (q - q' - 1) >= 0;
    assert w * q == w * q' + w + w * (q - q' - 1);
  }

  lemma {:induction false} FactorBounds(w: int, q: int, q': int)
    requires w > 0 && w * q < w * q' + w
    ensures q <= q'
  {
    if q > q' { ProductStep(w, q, q'); assert false; }
  }

  // Quotient and remainder are the only ones of their kind.
  lemma {:induction false} DivideUnique(x: int, n: int, q: int, r: int)
    requires n > 0 && 0 <= r < n && x == n * q + r
    ensures x / n == q && x % n == r
  {
    DivideBounds(x, n);
    FactorBounds(n, q, x / n);
    FactorBounds(n, x / n, q);
  }
}
