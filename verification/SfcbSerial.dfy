/** Comparison of 16-bit sector ids across wrap-around. */
module SfcbSerial {
  import opened SfcbRing

  /** sfcb_scmp: the difference as a signed 16-bit number. */
  function Scmp(a: nat, b: nat): (r: int)
    ensures -0x8000 <= r < 0x8000
  {
    var d := Id16(a - b);
    if d < 0x8000 then d else d - 0x1_0000
  }

  /** Ids at most 0x7fff apart compare as the number of sectors they lie behind `id`. */
  lemma ScmpBehind(id: nat, p: nat, q: nat)
    requires p < 0x8000 && q < 0x8000
    ensures Scmp(Id16(id - p), Id16(id - q)) == q - p
  {
    assert Id16(Id16(id - p) - Id16(id - q)) == Id16(q - p);
  }

  /** The comparison is no order, so the search rests on the ids being consecutive. */
  lemma ScmpNotTransitive()
    ensures exists a, b, c :: Scmp(a, b) > 0 && Scmp(b, c) > 0 && Scmp(a, c) < 0
  {
    assert Scmp(0x6000, 0x3000) > 0 && Scmp(0x3000, 0) > 0;
    assert Scmp(0x9000, 0x6000) > 0 && Scmp(0x6000, 0) > 0 && Scmp(0x9000, 0) < 0;
  }
}
