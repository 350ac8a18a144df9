/** Bytes, 32-byte digests and the one hash primitive every artifact is built from.

    The hash itself stays abstract: it is a parameter `h`, any total function from
    byte strings to 32-byte values.  Nothing assumes it injective.  A claim that needs
    collision resistance names the finite set of messages that were really hashed and
    says "or two different ones of THESE messages have the same digest" (`Clash`).
    Over all byte strings that would say nothing, since some collision always exists. */
module Hashing {
  type Byte = b: int | 0 <= b < 256
  type Data = seq<Byte>

  function Pow256(n: nat): (r: nat)
    ensures r > 0
  {
    if n == 0 then 1 else 256 * Pow256(n - 1)
  }

  type Word256 = w: nat | w < 0x1_0000_0000_0000_0000_0000_0000_0000_0000_0000_0000_0000_0000_0000_0000_0000_0000

  /** A 0x-prefixed bytes32 value.  Every comparison in the source goes through BigInt or a
      case-insensitive hex compare, so the value is what matters. */
  datatype Digest = Digest(value: Word256)

  /** BigInt(a) <= BigInt(b). */
  predicate AtMost(a: Digest, b: Digest) { a.value <= b.value }

  lemma AtMostAntisymmetric(a: Digest, b: Digest)
    requires AtMost(a, b) && AtMost(b, a)
    ensures a == b
  {
  }

  type Hash = Data -> Digest

  /** The n low-order bytes of d, most significant first. */
  function BigEndian(d: nat, n: nat): (r: Data)
    ensures |r| == n
  {
    if n == 0 then [] else BigEndian(d / 256, n - 1) + [d % 256]
  }

  lemma {:induction false} BigEndianInjective(d: nat, e: nat, n: nat)
    requires d < Pow256(n) && e < Pow256(n)
    requires BigEndian(d, n) == BigEndian(e, n)
    ensures d == e
  {
    if n > 0 {
      var p, q := BigEndian(d / 256, n - 1), BigEndian(e / 256, n - 1);
      assert (p + [d % 256])[n - 1] == (q + [e % 256])[n - 1];
      assert (p + [d % 256])[..n - 1] == p && (q + [e % 256])[..n - 1] == q;
      BigEndianInjective(d / 256, e / 256, n - 1);
    }
  }

  /** The number a byte string stands for, most significant byte first. */
  function Number(d: Data): nat {
    if d == [] then 0 else 256 * Number(d[..|d| - 1]) + d[|d| - 1]
  }

  lemma {:induction false} BigEndianIsNumber(d: nat, n: nat)
    requires d < Pow256(n)
    ensures Number(BigEndian(d, n)) == d
  {
    if n > 0 {
      BigEndianIsNumber(d / 256, n - 1);
      assert BigEndian(d, n)[..n - 1] == BigEndian(d / 256, n - 1);
    }
  }

  /** A digest's 32 bytes are its value, big-endian. */
  lemma WordIsNumber(d: Digest)
    ensures Number(Word(d)) == d.value && Word(d)[31] == d.value % 256
  {
    DigestBound();
    BigEndianIsNumber(d.value, 32);
  }

  function Word(d: Digest): (r: Data)
    ensures |r| == 32
  {
    BigEndian(d.value, 32)
  }

  lemma Pow256Four(n: nat)
    ensures Pow256(n + 4) == 0x1_0000_0000 * Pow256(n)
  {
    assert Pow256(n + 4) == 256 * Pow256(n + 3);
    assert Pow256(n + 3) == 256 * Pow256(n + 2);
    assert Pow256(n + 2) == 256 * Pow256(n + 1);
  }

  /** The literal bound in `Word256` is 256 to the 32nd. */
  lemma DigestBound()
    ensures Pow256(32) == 0x1_0000_0000_0000_0000_0000_0000_0000_0000_0000_0000_0000_0000_0000_0000_0000_0000
  {
    Pow256Four(0); Pow256Four(4); Pow256Four(8); Pow256Four(12);
    Pow256Four(16); Pow256Four(20); Pow256Four(24); Pow256Four(28);
  }

  lemma WordInjective(d: Digest, e: Digest)
    requires Word(d) == Word(e)
    ensures d == e
  {
    DigestBound();
    BigEndianInjective(d.value, e.value, 32);
  }

  // The two domain tags shared by the sorted tree and the ordered log.
  const LEAF_TAG: Byte := 0
  const NODE_TAG: Byte := 1

  function LeafMessage(c: Digest): (r: Data)
    ensures |r| == 33
  {
    [LEAF_TAG] + Word(c)
  }

  function NodeMessage(left: Digest, right: Digest): (r: Data)
    ensures |r| == 65
  {
    [NODE_TAG] + Word(left) + Word(right)
  }

  lemma LeafMessageInjective(c: Digest, d: Digest)
    requires LeafMessage(c) == LeafMessage(d)
    ensures c == d
  {
    assert LeafMessage(c)[1..] == Word(c) && LeafMessage(d)[1..] == Word(d);
    WordInjective(c, d);
  }

  lemma NodeMessageInjective(a: Digest, b: Digest, c: Digest, d: Digest)
    requires NodeMessage(a, b) == NodeMessage(c, d)
    ensures a == c && b == d
  {
    assert NodeMessage(a, b)[1..33] == Word(a) && NodeMessage(c, d)[1..33] == Word(c);
    assert NodeMessage(a, b)[33..] == Word(b) && NodeMessage(c, d)[33..] == Word(d);
    WordInjective(a, c);
    WordInjective(b, d);
  }

  predicate Collide(h: Hash, x: Data, y: Data) { x != y && h(x) == h(y) }

  /** Two different messages of s have one digest. */
  ghost predicate Clash(h: Hash, s: set<Data>) {
    exists x, y {:trigger Collide(h, x, y)} :: x in s && y in s && Collide(h, x, y)
  }

  /** A clash is a failure of injectivity on s and nothing less: a hash that tells the messages of s
      apart has none, so every "or a clash" below is then the plain claim. */
  lemma ClashExactly(h: Hash, s: set<Data>)
    ensures Clash(h, s) <==> !(forall x, y :: x in s && y in s && h(x) == h(y) ==> x == y)
  {
    if Clash(h, s) { var x, y :| x in s && y in s && Collide(h, x, y); }
    if x, y :| x in s && y in s && h(x) == h(y) && x != y { assert Collide(h, x, y); }
  }

  lemma NoClash(h: Hash, s: set<Data>, x: Data, y: Data)
    requires !Clash(h, s) && x in s && y in s && h(x) == h(y)
    ensures x == y
  {
    assert !Collide(h, x, y);
  }

  lemma ClashMonotone(h: Hash, s: set<Data>, t: set<Data>)
    requires s <= t
    ensures Clash(h, s) ==> Clash(h, t)
  {
    if Clash(h, s) {
      var x, y :| x in s && y in s && Collide(h, x, y);
      assert x in t && y in t;
    }
  }
}
