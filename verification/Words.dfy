/** Little-endian machine words as bytes. */
module Words {
  import opened Common

  const WORD: nat := 0x1_0000_0000

  lemma NextByte(b: byte)
    requires b != 0xFF
    ensures (b + 1) as nat == b as nat + 1
  {
  }

  /** The byte with value `n`, counted up from zero. */
  function Byte(n: nat): (b: byte)
    requires n < 0x100
    ensures b as nat == n
  {
    if n == 0 then 0
    else
      var b := Byte(n - 1);
      NextByte(b);
      b + 1
  }

  lemma SameByte(b: byte, c: byte)
    requires b as nat == c as nat
    ensures b == c
  {
  }

  lemma ByteOfItself(b: byte)
    ensures b as nat < 0x100 && Byte(b as nat) == b
  {
    SameByte(Byte(b as nat), b);
  }

  /** `n` as `k` bytes, least significant first; what does not fit is dropped. */
  function Le(n: nat, k: nat): (b: Buffer)
    ensures |b| == k
  {
    if k == 0 then [] else [Byte(n % 0x100)] + Le(n / 0x100, k - 1)
  }

  function Value(b: Buffer): nat {
    if b == [] then 0 else b[0] as nat + 0x100 * Value(b[1..])
  }

  lemma ValueFour(b: Buffer)
    requires |b| == 4
    ensures Value(b) == b[0] as nat + 256 * b[1] as nat + 65536 * b[2] as nat + 16777216 * b[3] as nat
  {
    ValueStep(b);
    ValueStep(b[1..]);
    ValueStep(b[2..]);
    ValueStep(b[3..]);
    assert b[1..][1..] == b[2..] && b[2..][1..] == b[3..] && b[3..][1..] == [];
  }

  lemma ValueStep(b: Buffer)
    requires b != []
    ensures Value(b) == b[0] as nat + 256 * Value(b[1..])
  {
  }

  function Pow256(k: nat): (p: nat)
    ensures 0 < p
  {
    if k == 0 then 1 else 0x100 * Pow256(k - 1)
  }

  lemma {:induction false} ValueOfLe(n: nat, k: nat)
    requires n < Pow256(k)
    ensures Value(Le(n, k)) == n
  {
    if k > 0 {
      assert n / 0x100 < Pow256(k - 1);
      ValueOfLe(n / 0x100, k - 1);
      assert Le(n, k)[1..] == Le(n / 0x100, k - 1);
    }
  }

  lemma LowByte(low: nat, high: nat)
    requires low < 0x100
    ensures (low + 0x100 * high) % 0x100 == low && (low + 0x100 * high) / 0x100 == high
  {
  }

  lemma {:induction false} LeOfValue(b: Buffer)
    ensures Value(b) < Pow256(|b|) && Le(Value(b), |b|) == b
  {
    if b != [] {
      LeOfValue(b[1..]);
      ByteOfItself(b[0]);
      LowByte(b[0] as nat, Value(b[1..]));
    }
  }

  /** Two adjacent words read as one. */
  lemma {:induction false} ValueConcat(a: Buffer, b: Buffer)
    ensures Value(a + b) == Value(a) + Pow256(|a|) * Value(b)
  {
    if a == [] {
      assert a + b == b;
    } else {
      ValueConcat(a[1..], b);
      assert (a + b)[1..] == a[1..] + b;
      Distribute(a[0] as nat, Value(a[1..]), Pow256(|a| - 1), Value(b));
    }
  }

  lemma Distribute(low: nat, x: nat, p: nat, y: nat)
    ensures low + 0x100 * (x + p * y) == low + 0x100 * x + 0x100 * p * y
  {
  }

  /** A 32-bit word, byte by byte: the least significant first. */
  lemma LeFour(n: nat)
    requires n < WORD
    ensures var b := Le(n, 4);
      n == b[0] as nat + 256 * b[1] as nat + 65536 * b[2] as nat + 16777216 * b[3] as nat
  {
    WordSize();
    ValueOfLe(n, 4);
    ValueFour(Le(n, 4));
  }

  lemma WordSize()
    ensures Pow256(4) == WORD
  {
    assert Pow256(2) == 0x1_0000;
  }

  lemma FourZeros()
    ensures Value([0, 0, 0, 0]) == 0 && Le(0, 4) == [0, 0, 0, 0]
  {
    assert [0 as byte, 0, 0, 0][1..] == [0, 0, 0] && [0 as byte, 0, 0][1..] == [0, 0] && [0 as byte, 0][1..] == [0];
    assert Value([0]) == 0 && Value([0, 0]) == 0 && Value([0, 0, 0]) == 0;
    assert Le(0, 1) == [0] && Le(0, 2) == [0, 0] && Le(0, 3) == [0, 0, 0];
  }
}
