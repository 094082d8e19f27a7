/** What all parts share: bytes, erased bytes, and the arithmetic of whole blocks. */
module FlashBytes {
  type byte = bv8

  datatype Option<T> = None | Some(value: T)

  /** Erased flash reads as 0xff. */
  function Ones(n: nat): (r: seq<byte>)
    ensures |r| == n && forall i :: 0 <= i < n ==> r[i] == 0xff
  {
    seq(n, _ => 0xff)
  }

  lemma MulMono(n: nat, a: nat, b: nat)
    requires a <= b
    ensures n * a <= n * b
  {
  }

  lemma Multiples(n: nat, a: nat, b: nat)
    requires n * a < n * b
    ensures n * a + n <= n * b
  {
    if a >= b {
      MulMono(n, b, a);
    } else {
      MulMono(n, a + 1, b);
    }
  }

  lemma QuotientIsUnique(q: nat, r: nat, p: nat, s: nat, m: nat)
    requires r < m && s < m && m * q + r == m * p + s
    ensures q == p && r == s
  {
    if q < p {
      LargerMultiple(m, q, p);
    } else if p < q {
      LargerMultiple(m, p, q);
    }
  }

  lemma LargerMultiple(n: nat, a: nat, b: nat)
    requires a < b
    ensures n * a + n <= n * b
  {
    MulMono(n, a + 1, b);
  }

  lemma ModOf(q: nat, r: nat, m: nat)
    requires r < m
    ensures (q * m + r) % m == r && (q * m + r) / m == q
  {
    var x := q * m + r;
    QuotientIsUnique(q, r, x / m, x % m, m);
  }

  lemma ModSum(a: nat, b: nat, m: nat)
    requires m > 0 && a % m == 0 && b % m == 0
    ensures (a + b) % m == 0
  {
    var q, p := a / m, b / m;
    assert a == q * m && b == p * m;
    assert a + b == (q + p) * m + 0;
    ModOf(q + p, 0, m);
  }

  /** Sectors that follow one another fill an area of whole sectors. */
  lemma SectorsFit(sector: nat, size: nat, at: nat)
    requires sector > 0 && size % sector == 0 && at % sector == 0 && at < size
    ensures at + sector <= size && (at + sector) % sector == 0
  {
    var a, b := at / sector, size / sector;
    assert at == sector * a && size == sector * b;
    Multiples(sector, a, b);
    assert at + sector == (a + 1) * sector + 0;
    ModOf(a + 1, 0, sector);
  }
}
