/** Arithmetic that several modules use. */
module Numbers {

  function Pow2(k: nat): (p: nat)
    ensures p > 0
  {
    if k == 0 then 1 else 2 * Pow2(k - 1)
  }

  function Abs(x: real): real { if x < 0.0 then -x else x }

  /** Conversion of a `float` to `int`. */
  function Truncate(f: real): int {
    if f >= 0.0 then f.Floor else -((-f).Floor)
  }

  // ---------------------------------------------------------------------------------------------
  // Numbers and bytes
  // ---------------------------------------------------------------------------------------------

  function ToByte(n: nat): bv8
    requires n < 256
  {
    if n == 0 then 0 else ToByte(n - 1) + 1
  }

  lemma NextByte(b: bv8)
    requires b as nat < 255
    ensures (b + 1) as nat == b as nat + 1
  {
  }

  lemma {:induction false} ByteBack(k: nat)
    requires k < 256
    ensures ToByte(k) as nat == k
  {
    if k > 0 {
      ByteBack(k - 1);
      NextByte(ToByte(k - 1));
    }
  }

  lemma ConvertedBack(b: bv8)
    ensures b as nat < 256 && (b as nat) as bv8 == b
  {
  }

  lemma ByteValue(n: nat)
    requires n < 256
    ensures (n as bv8) as nat == n
  {
    hide ToByte;
    ByteBack(n);
    ConvertedBack(ToByte(n));
  }
}
