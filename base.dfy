/** Small shared definitions: an optional value and the C++ integer facts the model needs. */
module Base {

  /** A value that may be missing: a null pointer, an empty handle, an iterator at end. */
  datatype Option<+T> = None | Some(value: T)

  /** std::numeric_limits<int>::max() for the 32-bit int of the source. */
  const IntMax: int := 0x7fff_ffff

  /** C++ integer division, which truncates toward zero (Dafny's `/` is Euclidean). */
  function CDiv(a: int, b: int): (q: int)
    requires b > 0
    ensures a >= 0 ==> q * b <= a < q * b + b
    ensures a < 0 ==> q * b - b < a <= q * b
  {
    if a >= 0 then a / b else -((-a) / b)
  }

  /** div_ceil of the source's util.hpp: (a + b - 1) / b in C++ arithmetic. */
  function DivCeil(a: int, b: int): int
    requires b > 0
  {
    CDiv(a + b - 1, b)
  }

  /** For a non-negative dividend, DivCeil is the least multiple count covering it. */
  lemma DivCeilCovers(a: int, b: int)
    requires a >= 0 && b > 0
    ensures DivCeil(a, b) >= 0
    ensures DivCeil(a, b) * b >= a
    ensures DivCeil(a, b) * b < a + b
    ensures DivCeil(a, b) == 0 <==> a == 0
  {
    var q := DivCeil(a, b);
    assert q * b <= a + b - 1 < q * b + b;
  }

  /** Appending one element after a concatenation. */
  lemma AppendOne<T>(a: seq<T>, b: seq<T>, x: T)
    ensures a + (b + [x]) == (a + b) + [x]
  {
  }
}
