/** Little-endian integers of any width, and two's complement. */
module LittleEndian {
  type byte = b: nat | b < 256

  function Pow256(k: nat): nat
    ensures Pow256(k) > 0
  {
    if k == 0 then 1 else 256 * Pow256(k - 1)
  }

  /** The number with a low part of k bytes and a high part above it. */
  function Joined(low: nat, high: nat, k: nat): nat {
    low + Pow256(k) * high
  }

  function ToBytes(n: nat, k: nat): (bytes: seq<byte>)
    ensures |bytes| == k
  {
    if k == 0 then [] else [n % 256] + ToBytes(n / 256, k - 1)
  }

  function FromBytes(bytes: seq<byte>): nat {
    if bytes == [] then 0 else bytes[0] + 256 * FromBytes(bytes[1..])
  }

  lemma {:induction false} FromToBytes(n: nat, k: nat)
    requires n < Pow256(k)
    ensures FromBytes(ToBytes(n, k)) == n
  {
    if k > 0 {
      FromToBytes(n / 256, k - 1);
      assert ToBytes(n, k)[1..] == ToBytes(n / 256, k - 1);
    }
  }

  lemma {:induction false} ToFromBytes(bytes: seq<byte>)
    ensures FromBytes(bytes) < Pow256(|bytes|) && ToBytes(FromBytes(bytes), |bytes|) == bytes
  {
    if bytes != [] { ToFromBytes(bytes[1..]); }
  }

  /** The signed value of an unsigned one of k bytes. */
  function Signed(n: nat, k: nat): int {
    if 2 * n < Pow256(k) then n else n - Pow256(k)
  }

  function Unsigned(v: int, k: nat): nat
    requires 0 - Pow256(k) <= 2 * v < Pow256(k)
  {
    if v >= 0 then v else v + Pow256(k)
  }

  lemma SignedUnsigned(v: int, k: nat)
    requires 0 - Pow256(k) <= 2 * v < Pow256(k)
    ensures Unsigned(v, k) < Pow256(k) && Signed(Unsigned(v, k), k) == v
  {
  }

  lemma UnsignedSigned(n: nat, k: nat)
    requires n < Pow256(k)
    ensures 0 - Pow256(k) <= 2 * Signed(n, k) < Pow256(k) && Unsigned(Signed(n, k), k) == n
  {
  }
}
