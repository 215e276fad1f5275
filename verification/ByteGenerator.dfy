/** Bytes drawn from an engine that produces 32-bit words. */
module ByteGenerator {
  import opened Arithmetic

  const WORD := 0x1_0000_0000

  /** An engine is its stream of words and how many of them are used up. */
  class Engine {
    const stream: nat -> nat
    var used: nat

    constructor (stream: nat -> nat)
      ensures this.stream == stream && used == 0
    {
      this.stream, used := stream, 0;
    }

    method Draw() returns (v: nat)
      modifies this`used
      ensures v == stream(old(used)) && used == old(used) + 1
    {
      v := stream(used);
      used := used + 1;
    }
  }

  /** Byte `k` of a word, the lowest first. */
  function ByteOf(v: nat, k: nat): nat {
    if k == 0 then v % 256 else ByteOf(v / 256, k - 1)
  }

  function Shifted(v: nat, k: nat): nat {
    if k == 0 then v else Shifted(v / 256, k - 1)
  }

  lemma {:induction false} ShiftedByte(v: nat, k: nat)
    ensures Shifted(v, 0) == v
    ensures Shifted(v, k) % 256 == ByteOf(v, k) && Shifted(v, k) / 256 == Shifted(v, k + 1)
    decreases k
  {
    if k > 0 {
      ShiftedByte(v / 256, k - 1);
    }
  }

  lemma Position(i: nat)
    ensures i % 4 == 0 ==> (i + 3) / 4 == i / 4
    ensures (i + 4) / 4 == i / 4 + 1
    ensures i % 4 != 0 ==> (i + 3) / 4 == i / 4 + 1
    ensures (i + 1) % 4 == if i % 4 == 3 then 0 else i % 4 + 1
  {
  }

  method GenerateBytes(engine: Engine, n: nat) returns (result: array<nat>)
    modifies engine`used
    ensures fresh(result) && result.Length == n
    ensures forall i :: 0 <= i < n ==> result[i] == ByteOf(engine.stream(old(engine.used) + i / 4), i % 4)
    ensures engine.used == old(engine.used) + (n + 3) / 4
  {
    hide ByteOf, Shifted;
    result := new nat[n];
    var v, i := 0, 0;
    while i < n
      invariant i <= n && engine.used == old(engine.used) + (i + 3) / 4
      invariant i % 4 != 0 ==> v == Shifted(engine.stream(engine.used - 1), i % 4)
      invariant forall k :: 0 <= k < i ==> result[k] == ByteOf(engine.stream(old(engine.used) + k / 4), k % 4)
    {
      if i % 4 == 0 {
        v := engine.Draw();
      }
      ShiftedByte(engine.stream(engine.used - 1), i % 4);
      Position(i);
      result[i] := v % 256;
      v := v / 256;
      i := i + 1;
    }
  }

  function LittleEndian(bytes: seq<nat>): nat {
    if bytes == [] then 0 else bytes[0] + 256 * LittleEndian(bytes[1..])
  }

  function Pow256(m: nat): (p: nat)
    ensures p > 0
  {
    if m == 0 then 1 else 256 * Pow256(m - 1)
  }

  /** The first bytes of a word are the word without what lies above them. */
  lemma {:induction false} FirstBytes(v: nat, bytes: seq<nat>)
    requires forall i: nat :: i < |bytes| ==> bytes[i] == ByteOf(v, i)
    ensures LittleEndian(bytes) == v % Pow256(|bytes|)
    decreases |bytes|
  {
    if bytes != [] {
      var rest := bytes[1..];
      forall i: nat | i < |rest|
        ensures rest[i] == ByteOf(v / 256, i)
      {
        assert rest[i] == bytes[i + 1] == ByteOf(v, i + 1);
      }
      FirstBytes(v / 256, rest);
      LowByte(v, Pow256(|rest|));
    }
  }

  lemma LowByte(v: nat, p: nat)
    requires p > 0
    ensures v % (256 * p) == v % 256 + 256 * ((v / 256) % p)
  {
    var q, c := v / 256 / p, (v / 256) % p;
    assert v / 256 == q * p + c && q * (256 * p) == 256 * (q * p);
    RestIs(v, 256 * p, q, 256 * c + v % 256);
  }

  /**
   * Read back as little-endian words, the bytes are the words that were drawn;
   * of the last word, only as many bytes as are left.
   */
  lemma WordsRecovered(stream: nat -> nat, used: nat, bytes: seq<nat>, k: nat)
    requires forall i: nat :: i < |bytes| ==> bytes[i] == ByteOf(stream(used + i / 4), i % 4)
    requires 4 * k < |bytes| && stream(used + k) < WORD
    ensures var end := if 4 * k + 4 <= |bytes| then 4 * k + 4 else |bytes|;
            LittleEndian(bytes[4 * k..end]) == stream(used + k) % Pow256(end - 4 * k)
    ensures 4 * k + 4 <= |bytes| ==> LittleEndian(bytes[4 * k..4 * k + 4]) == stream(used + k)
  {
    var v := stream(used + k);
    var end := if 4 * k + 4 <= |bytes| then 4 * k + 4 else |bytes|;
    var word := bytes[4 * k..end];
    forall i: nat | i < |word|
      ensures word[i] == ByteOf(v, i)
    {
      assert word[i] == bytes[4 * k + i] && (4 * k + i) / 4 == k && (4 * k + i) % 4 == i;
    }
    FirstBytes(v, word);
    assert Pow256(4) == WORD;
  }
}
