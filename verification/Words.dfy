/** The machine word: 32 bits. */
module Words {

  const WORD: nat := 0x1_0000_0000

  function Pow2(k: nat): (p: nat)
    ensures p >= 1
  { if k == 0 then 1 else 2 * Pow2(k - 1) }

  lemma {:induction false} Pow2Double(k: nat)
    ensures Pow2(2 * k) == Pow2(k) * Pow2(k)
  {
    if k > 0 {
      Pow2Double(k - 1);
      assert Pow2(2 * k) == 4 * Pow2(2 * (k - 1));
      var p := Pow2(k - 1);
      assert (2 * p) * (2 * p) == 4 * (p * p);
    }
  }

  lemma WordIsPow2()
    ensures Pow2(32) == WORD
  {
    assert Pow2(2) == 4;
    Pow2Double(2);
    Pow2Double(4);
    Pow2Double(8);
    Pow2Double(16);
  }
}
