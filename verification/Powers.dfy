/** Powers of two, shared by the tree and codec modules. */
module Powers {
  function Pow2(d: nat): (r: nat)
    ensures r >= 1
  {
    if d == 0 then 1 else 2 * Pow2(d - 1)
  }

  lemma Pow2Ten(d: nat)
    ensures Pow2(d + 10) == 1024 * Pow2(d)
  {
    assert Pow2(d + 2) == 4 * Pow2(d);
    assert Pow2(d + 4) == 4 * Pow2(d + 2);
    assert Pow2(d + 6) == 4 * Pow2(d + 4);
    assert Pow2(d + 8) == 4 * Pow2(d + 6);
  }

  lemma Pow2Sixty(d: nat)
    ensures Pow2(d + 60) == 0x1000_0000_0000_0000 * Pow2(d)
  {
    Pow2Ten(d);
    Pow2Ten(d + 10);
    Pow2Ten(d + 20);
    Pow2Ten(d + 30);
    Pow2Ten(d + 40);
    Pow2Ten(d + 50);
  }

  lemma {:induction false} Pow2Grows(d: nat, e: nat)
    requires d < e
    ensures 2 * Pow2(d) <= Pow2(e)
    decreases e
  {
    if d < e - 1 {
      Pow2Grows(d, e - 1);
    }
  }
}
