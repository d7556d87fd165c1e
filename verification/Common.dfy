/** Types and page arithmetic shared by the models of the kernel and of its bootloader. */
module Common {

  datatype Option<+T> = None | Some(value: T)

  datatype Result<+T, +E> = Ok(value: T) | Err(error: E) {
    predicate IsFailure() { Err? }

    function PropagateFailure<U>(): Result<U, E>
      requires Err?
    {
      Err(error)
    }

    function Extract(): T
      requires Ok?
    {
      value
    }
  }

  type Byte = x: int | 0 <= x < 256

  function Min(a: int, b: int): int { if a < b then a else b }

  function Max(a: int, b: int): int { if a < b then b else a }

  /** The start of the page that holds address `a`. */
  function PageDown(a: nat): (r: nat)
    ensures r <= a < r + 4096 && r % 4096 == 0
  {
    a - a % 4096
  }

  /** The first page start at or after address `a`. */
  function PageUp(a: nat): (r: nat)
    ensures a <= r < a + 4096 && r % 4096 == 0
  {
    if a % 4096 == 0 then a else a - a % 4096 + 4096
  }

  function Elements(fs: seq<nat>): set<nat> { set f | f in fs }

  predicate NoDuplicates(fs: seq<nat>) { forall i, j | 0 <= i < j < |fs| :: fs[i] != fs[j] }

  lemma SubsetSize<T>(a: set<T>, b: set<T>)
    requires a <= b
    ensures |a| <= |b| && (a != b ==> |a| < |b|)
  {
    assert b == a + (b - a);
    assert a != b ==> b - a != {};
  }

  lemma QuotientIs(v: nat, d: nat, q: nat, r: nat)
    requires v == d * q + r && r < d
    ensures v / d == q && v % d == r
  {
    var p := v / d;
    assert v == d * p + v % d && d * (p + 1) == d * p + d && d * (q + 1) == d * q + d;
    Monotone(d, p + 1, q);
    Monotone(d, q + 1, p);
  }

  lemma Monotone(d: nat, a: int, b: int)
    ensures a <= b ==> d * a <= d * b
  {
  }

  /** `s` with `bytes` at index `at`. */
  function Splice(s: seq<Byte>, at: nat, bytes: seq<Byte>): (r: seq<Byte>)
    requires at + |bytes| <= |s|
    ensures |r| == |s|
    ensures forall i | 0 <= i < |s| :: r[i] == if at <= i < at + |bytes| then bytes[i - at] else s[i]
  {
    s[..at] + bytes + s[at + |bytes|..]
  }
}
