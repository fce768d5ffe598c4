/** Handshake arithmetic shared by server and client (common.h): the 64-bit
    avalanche hash, its iteration, and the host/network byte-order swaps.
    All arithmetic is on `bv64`/`bv32`, so multiplication, addition, shifts
    and xor wrap exactly like the C++ unsigned types. */
module Common {

  /** `enum class side` of common.h: which joystick a `joy_l`/`joy_r` line drives. */
  datatype Side = Left | Right

  /** The 4-byte value a client opens the handshake with. */
  const Magic: bv32 := 0xDEAD_BEEF

  /** The challenge `x` is hashed `x mod ChallengeModulus` times. */
  const ChallengeModulus: bv64 := 69

  // ---------------------------------------------------------------------------
  // The hash, one stage per statement of the source, in source order.

  function MulAdd(u: bv64): bv64 { u * 3935559000370003845 + 2691343689449507681 }
  function XorRight21(v: bv64): bv64 { v ^ (v >> 21) }
  function XorLeft37(v: bv64): bv64 { v ^ (v << 37) }
  function XorRight4(v: bv64): bv64 { v ^ (v >> 4) }
  function Mul(v: bv64): bv64 { v * 4768777513237032717 }
  function XorLeft20(v: bv64): bv64 { v ^ (v << 20) }
  function XorRight41(v: bv64): bv64 { v ^ (v >> 41) }
  function XorLeft5(v: bv64): bv64 { v ^ (v << 5) }

  /** `hash(u)`: multiply-add, three xorshifts, multiply, three xorshifts. */
  function Hash(u: bv64): bv64 {
    XorLeft5(XorRight41(XorLeft20(Mul(XorRight4(XorLeft37(XorRight21(MulAdd(u))))))))
  }

  // Inverses of the stages. Both multipliers are odd, so each has an inverse
  // modulo 2^64; an xorshift by k is undone by xoring in the shifts by k, 2k, ...
  function UnMulAdd(v: bv64): bv64 { (v - 2691343689449507681) * 13700500150304694605 }
  function UnXorRight21(v: bv64): bv64 { v ^ (v >> 21) ^ (v >> 42) ^ (v >> 63) }
  function UnXorRight4(v: bv64): bv64 {
    v ^ (v >> 4) ^ (v >> 8) ^ (v >> 12) ^ (v >> 16) ^ (v >> 20) ^ (v >> 24) ^ (v >> 28)
      ^ (v >> 32) ^ (v >> 36) ^ (v >> 40) ^ (v >> 44) ^ (v >> 48) ^ (v >> 52) ^ (v >> 56) ^ (v >> 60)
  }
  function UnMul(v: bv64): bv64 { v * 1615231051170002885 }
  function UnXorLeft20(v: bv64): bv64 { v ^ (v << 20) ^ (v << 40) ^ (v << 60) }
  function UnXorLeft5(v: bv64): bv64 {
    v ^ (v << 5) ^ (v << 10) ^ (v << 15) ^ (v << 20) ^ (v << 25) ^ (v << 30)
      ^ (v << 35) ^ (v << 40) ^ (v << 45) ^ (v << 50) ^ (v << 55) ^ (v << 60)
  }

  /** The inverse permutation of `Hash` (stages undone in reverse order;
      xorshifts by 37 and 41 are their own inverses on 64 bits). */
  function Unhash(w: bv64): bv64 {
    UnMulAdd(UnXorRight21(XorLeft37(UnXorRight4(UnMul(UnXorLeft20(XorRight41(UnXorLeft5(w))))))))
  }

  // One round trip per stage. Each is split in two so that the solver sees the
  // stage body and its inverse as a single ground bit-vector term.
  lemma MulAddBody(x: bv64) ensures MulAdd(x) == x * 3935559000370003845 + 2691343689449507681 {}
  lemma UnMulAddOf(x: bv64) ensures UnMulAdd(x * 3935559000370003845 + 2691343689449507681) == x {
    assert ((x * 3935559000370003845 + 2691343689449507681) - 2691343689449507681) * 13700500150304694605 == x * 1;
  }
  lemma MulAddInverse(x: bv64) ensures UnMulAdd(MulAdd(x)) == x { MulAddBody(x); UnMulAddOf(x); }

  lemma XorRight21Body(x: bv64) ensures XorRight21(x) == x ^ (x >> 21) {}
  lemma UnXorRight21Of(x: bv64) ensures UnXorRight21(x ^ (x >> 21)) == x {}
  lemma XorRight21Inverse(x: bv64) ensures UnXorRight21(XorRight21(x)) == x { XorRight21Body(x); UnXorRight21Of(x); }

  lemma XorLeft37Body(x: bv64) ensures XorLeft37(x) == x ^ (x << 37) {}
  lemma XorLeft37Of(x: bv64) ensures XorLeft37(x ^ (x << 37)) == x {}
  lemma XorLeft37Inverse(x: bv64) ensures XorLeft37(XorLeft37(x)) == x { XorLeft37Body(x); XorLeft37Of(x); }

  lemma XorRight4Body(x: bv64) ensures XorRight4(x) == x ^ (x >> 4) {}
  lemma UnXorRight4Of(x: bv64) ensures UnXorRight4(x ^ (x >> 4)) == x {}
  lemma XorRight4Inverse(x: bv64) ensures UnXorRight4(XorRight4(x)) == x { XorRight4Body(x); UnXorRight4Of(x); }

  lemma MulBody(x: bv64) ensures Mul(x) == x * 4768777513237032717 {}
  lemma UnMulOf(x: bv64) ensures UnMul(x * 4768777513237032717) == x {
    assert (x * 4768777513237032717) * 1615231051170002885 == x * 1;
  }
  lemma MulInverse(x: bv64) ensures UnMul(Mul(x)) == x { MulBody(x); UnMulOf(x); }

  lemma XorLeft20Body(x: bv64) ensures XorLeft20(x) == x ^ (x << 20) {}
  lemma UnXorLeft20Of(x: bv64) ensures UnXorLeft20(x ^ (x << 20)) == x {}
  lemma XorLeft20Inverse(x: bv64) ensures UnXorLeft20(XorLeft20(x)) == x { XorLeft20Body(x); UnXorLeft20Of(x); }

  lemma XorRight41Body(x: bv64) ensures XorRight41(x) == x ^ (x >> 41) {}
  lemma XorRight41Of(x: bv64) ensures XorRight41(x ^ (x >> 41)) == x {}
  lemma XorRight41Inverse(x: bv64) ensures XorRight41(XorRight41(x)) == x { XorRight41Body(x); XorRight41Of(x); }

  lemma XorLeft5Body(x: bv64) ensures XorLeft5(x) == x ^ (x << 5) {}
  lemma UnXorLeft5Of(x: bv64) ensures UnXorLeft5(x ^ (x << 5)) == x {}
  lemma XorLeft5Inverse(x: bv64) ensures UnXorLeft5(XorLeft5(x)) == x { XorLeft5Body(x); UnXorLeft5Of(x); }

  /** `hash` is a bijection on 64-bit values: `Unhash` recovers its input. */
  lemma HashInverse(u: bv64)
    ensures Unhash(Hash(u)) == u
  {
    var v1 := MulAdd(u);
    var v2 := XorRight21(v1);
    var v3 := XorLeft37(v2);
    var v4 := XorRight4(v3);
    var v5 := Mul(v4);
    var v6 := XorLeft20(v5);
    var v7 := XorRight41(v6);
    XorLeft5Inverse(v7);
    XorRight41Inverse(v6);
    XorLeft20Inverse(v5);
    MulInverse(v4);
    XorRight4Inverse(v3);
    XorLeft37Inverse(v2);
    XorRight21Inverse(v1);
    MulAddInverse(u);
  }

  /** Distinct inputs never collide. */
  lemma HashInjective(a: bv64, b: bv64)
    ensures Hash(a) == Hash(b) <==> a == b
  {
    HashInverse(a);
    HashInverse(b);
  }

  // ---------------------------------------------------------------------------
  // Iteration, as in the `for (i = 0; i < n; ++i) result = hash(result);` loops.

  /** `hash` applied `n` times to `x`. */
  function HashPow(n: nat, x: bv64): bv64 {
    if n == 0 then x else Hash(HashPow(n - 1, x))
  }

  /** `Unhash` applied `n` times. */
  function UnhashPow(n: nat, y: bv64): bv64 {
    if n == 0 then y else UnhashPow(n - 1, Unhash(y))
  }

  lemma {:induction false} HashPowInverse(n: nat, x: bv64)
    ensures UnhashPow(n, HashPow(n, x)) == x
  {
    if n > 0 {
      HashInverse(HashPow(n - 1, x));
      HashPowInverse(n - 1, x);
    }
  }

  /** The number of rounds for challenge `x`: `x % 69` on the unsigned value. */
  function Rounds(x: bv64): nat {
    (x as int) % (ChallengeModulus as int)
  }

  /** The reply both sides expect for challenge `x`: `hash^(x mod 69)(x)`. */
  function Expected(x: bv64): bv64 {
    HashPow(Rounds(x), x)
  }

  /** Zero rounds leave the challenge itself; a round count never exceeds 68;
      and two challenges with the same round count have equal replies only
      if they are equal. */
  lemma ExpectedFacts(x: bv64, y: bv64)
    ensures Rounds(x) < 69
    ensures Rounds(x) == 0 ==> Expected(x) == x
    ensures Rounds(x) == Rounds(y) ==> (Expected(x) == Expected(y) <==> x == y)
  {
    if Rounds(x) == Rounds(y) {
      HashPowInverse(Rounds(x), x);
      HashPowInverse(Rounds(y), y);
    }
  }

  /** The round loop of both handshakes. */
  method ChallengeResponse(x: bv64) returns (result: bv64)
    ensures result == HashPow(Rounds(x), x)
    ensures Rounds(x) == 0 ==> result == x
    ensures UnhashPow(Rounds(x), result) == x
  {
    result := x;
    var n := Rounds(x);
    var i := 0;
    while i < n
      invariant i <= n
      invariant result == HashPow(i, x)
    {
      result := Hash(result);
      i := i + 1;
    }
    HashPowInverse(Rounds(x), x);
  }

  // ---------------------------------------------------------------------------
  // Byte order. `htonl`/`ntohl` are the platform's: a 32-bit byte reversal on a
  // little-endian host and the identity on a big-endian one.

  datatype Endian = Little | Big

  function Bswap32(x: bv32): bv32 {
    (x << 24) | ((x & 0xFF00) << 8) | ((x >> 8) & 0xFF00) | (x >> 24)
  }

  function Htonl(host: Endian, x: bv32): bv32 {
    if host == Big then x else Bswap32(x)
  }

  /** `ntohl` performs the same swap as `htonl`. */
  function Ntohl(host: Endian, x: bv32): bv32 {
    Htonl(host, x)
  }

  /** `htonll`: identity on big-endian hosts; otherwise the low word, swapped,
      moves to the high half and the high word, swapped, to the low half. */
  function Htonll(host: Endian, x: bv64): bv64 {
    if host == Big then x
    else ((Htonl(host, (x & 0xFFFF_FFFF) as bv32) as bv64) << 32) | (Htonl(host, (x >> 32) as bv32) as bv64)
  }

  /** `ntohll`: the source's macro is `htonll`'s with `ntohl` for `htonl`,
      which is the same swap, so it is the same function. */
  function Ntohll(host: Endian, x: bv64): bv64 {
    Htonll(host, x)
  }

  /** `htonll(e)` for an argument expression `e` that is evaluated at each
      use: the little-endian macro names its argument twice, so its low word
      comes from evaluation `lowFrom` and its high word from evaluation
      `highFrom`. The order of the two evaluations is unspecified. */
  function HtonllTwice(host: Endian, lowFrom: bv64, highFrom: bv64): bv64 {
    if host == Big then lowFrom
    else ((Htonl(host, (lowFrom & 0xFFFF_FFFF) as bv32) as bv64) << 32) | (Htonl(host, (highFrom >> 32) as bv32) as bv64)
  }

  /** The value a double evaluation converts: on a little-endian host, the
      high word of `highFrom` joined to the low word of `lowFrom`. */
  function Spliced(host: Endian, lowFrom: bv64, highFrom: bv64): bv64 {
    if host == Big then lowFrom else (highFrom & 0xFFFF_FFFF_0000_0000) | (lowFrom & 0xFFFF_FFFF)
  }

  /** A double evaluation is `htonll` of the spliced value; when both
      evaluations agree it is plain `htonll`. */
  lemma HtonllTwiceSpliced(host: Endian, lowFrom: bv64, highFrom: bv64)
    ensures HtonllTwice(host, lowFrom, highFrom) == Htonll(host, Spliced(host, lowFrom, highFrom))
    ensures Ntohll(host, HtonllTwice(host, lowFrom, highFrom)) == Spliced(host, lowFrom, highFrom)
    ensures Spliced(host, lowFrom, lowFrom) == lowFrom
  {
    HtonllRoundTrip(host, Spliced(host, lowFrom, highFrom));
  }

  /** The eight bytes of `x`, least significant first. */
  function LeBytes64(x: bv64): seq<bv8> {
    [(x & 0xFF) as bv8, ((x >> 8) & 0xFF) as bv8, ((x >> 16) & 0xFF) as bv8, ((x >> 24) & 0xFF) as bv8,
     ((x >> 32) & 0xFF) as bv8, ((x >> 40) & 0xFF) as bv8, ((x >> 48) & 0xFF) as bv8, (x >> 56) as bv8]
  }

  /** The eight bytes of `x`, most significant first (network byte order). */
  function BeBytes64(x: bv64): seq<bv8> {
    [(x >> 56) as bv8, ((x >> 48) & 0xFF) as bv8, ((x >> 40) & 0xFF) as bv8, ((x >> 32) & 0xFF) as bv8,
     ((x >> 24) & 0xFF) as bv8, ((x >> 16) & 0xFF) as bv8, ((x >> 8) & 0xFF) as bv8, (x & 0xFF) as bv8]
  }

  function LeBytes32(x: bv32): seq<bv8> {
    [(x & 0xFF) as bv8, ((x >> 8) & 0xFF) as bv8, ((x >> 16) & 0xFF) as bv8, (x >> 24) as bv8]
  }

  function BeBytes32(x: bv32): seq<bv8> {
    [(x >> 24) as bv8, ((x >> 16) & 0xFF) as bv8, ((x >> 8) & 0xFF) as bv8, (x & 0xFF) as bv8]
  }

  /** How a host lays a 64-bit value out in memory, i.e. the bytes `send` puts
      on the wire. */
  function Mem64(host: Endian, v: bv64): (b: seq<bv8>)
    ensures |b| == 8
  {
    if host == Little then LeBytes64(v) else BeBytes64(v)
  }

  function Mem32(host: Endian, v: bv32): (b: seq<bv8>)
    ensures |b| == 4
  {
    if host == Little then LeBytes32(v) else BeBytes32(v)
  }

  /** Eight bytes, least significant first, joined into a value. */
  function Join64(b0: bv8, b1: bv8, b2: bv8, b3: bv8, b4: bv8, b5: bv8, b6: bv8, b7: bv8): bv64 {
    (b0 as bv64) | ((b1 as bv64) << 8) | ((b2 as bv64) << 16) | ((b3 as bv64) << 24)
      | ((b4 as bv64) << 32) | ((b5 as bv64) << 40) | ((b6 as bv64) << 48) | ((b7 as bv64) << 56)
  }

  function Join32(b0: bv8, b1: bv8, b2: bv8, b3: bv8): bv32 {
    (b0 as bv32) | ((b1 as bv32) << 8) | ((b2 as bv32) << 16) | ((b3 as bv32) << 24)
  }

  /** The value a host reads from eight bytes `recv` stored in memory. */
  function FromMem64(host: Endian, b: seq<bv8>): bv64
    requires |b| == 8
  {
    if host == Little then Join64(b[0], b[1], b[2], b[3], b[4], b[5], b[6], b[7])
    else Join64(b[7], b[6], b[5], b[4], b[3], b[2], b[1], b[0])
  }

  function FromMem32(host: Endian, b: seq<bv8>): bv32
    requires |b| == 4
  {
    if host == Little then Join32(b[0], b[1], b[2], b[3]) else Join32(b[3], b[2], b[1], b[0])
  }

  lemma JoinBytes64(x: bv64)
    ensures Join64((x & 0xFF) as bv8, ((x >> 8) & 0xFF) as bv8, ((x >> 16) & 0xFF) as bv8, ((x >> 24) & 0xFF) as bv8,
                   ((x >> 32) & 0xFF) as bv8, ((x >> 40) & 0xFF) as bv8, ((x >> 48) & 0xFF) as bv8, (x >> 56) as bv8) == x
  {}

  lemma JoinBytes32(x: bv32)
    ensures Join32((x & 0xFF) as bv8, ((x >> 8) & 0xFF) as bv8, ((x >> 16) & 0xFF) as bv8, (x >> 24) as bv8) == x
  {}

  /** On a little-endian host `htonll` reverses the eight bytes; on a
      big-endian host it is the identity. */
  lemma HtonllBytes(x: bv64)
    ensures LeBytes64(Htonll(Little, x)) == BeBytes64(x)
    ensures Htonll(Big, x) == x
  {
  }

  /** The byte reversal of a 64-bit value, written out. */
  function Bswap64(x: bv64): bv64 {
    (x << 56) | ((x & 0xFF00) << 40) | ((x & 0xFF_0000) << 24) | ((x & 0xFF00_0000) << 8)
      | ((x >> 8) & 0xFF00_0000) | ((x >> 24) & 0xFF_0000) | ((x >> 40) & 0xFF00) | (x >> 56)
  }

  lemma HtonllLittle(x: bv64) ensures Htonll(Little, x) == Bswap64(x) {}
  lemma Bswap64Body(x: bv64)
    ensures Bswap64(x) == (x << 56) | ((x & 0xFF00) << 40) | ((x & 0xFF_0000) << 24) | ((x & 0xFF00_0000) << 8)
      | ((x >> 8) & 0xFF00_0000) | ((x >> 24) & 0xFF_0000) | ((x >> 40) & 0xFF00) | (x >> 56)
  {}
  lemma Bswap64Of(x: bv64)
    ensures Bswap64((x << 56) | ((x & 0xFF00) << 40) | ((x & 0xFF_0000) << 24) | ((x & 0xFF00_0000) << 8)
      | ((x >> 8) & 0xFF00_0000) | ((x >> 24) & 0xFF_0000) | ((x >> 40) & 0xFF00) | (x >> 56)) == x
  {}

  /** `htonll` is its own inverse, `ntohll` is the same function, so
      `ntohll` undoes `htonll`. */
  lemma HtonllRoundTrip(host: Endian, x: bv64)
    ensures Htonll(host, Htonll(host, x)) == x
    ensures Ntohll(host, Htonll(host, x)) == x
  {
    if host == Little {
      HtonllLittle(x);
      HtonllLittle(Htonll(Little, x));
      Bswap64Body(x);
      Bswap64Of(x);
    }
  }

  lemma HtonlRoundTrip(host: Endian, x: bv32)
    ensures Ntohl(host, Htonl(host, x)) == x
  {
  }

  /** A host reads back the bytes it laid out. */
  lemma FromMem64Mem64(host: Endian, v: bv64)
    ensures FromMem64(host, Mem64(host, v)) == v
  {
    hide Join64;
    JoinBytes64(v);
  }

  lemma FromMem32Mem32(host: Endian, v: bv32)
    ensures FromMem32(host, Mem32(host, v)) == v
  {
    JoinBytes32(v);
  }

  /** Whatever the host, the bytes of `htonll(x)` in memory are `x` in
      network (big-endian) order. */
  lemma HtonllIsNetworkOrder(host: Endian, x: bv64)
    ensures Mem64(host, Htonll(host, x)) == BeBytes64(x)
  {
    HtonllBytes(x);
  }

  lemma HtonlIsNetworkOrder(host: Endian, x: bv32)
    ensures Mem32(host, Htonl(host, x)) == BeBytes32(x)
  {
  }

  /** Reading network-order bytes and applying `ntohll` gives the value back,
      whatever the host. */
  lemma NtohllOfNetworkOrder(host: Endian, x: bv64)
    ensures Ntohll(host, FromMem64(host, BeBytes64(x))) == x
  {
    HtonllIsNetworkOrder(host, x);
    FromMem64Mem64(host, Htonll(host, x));
    HtonllRoundTrip(host, x);
  }

  lemma NtohlOfNetworkOrder(host: Endian, x: bv32)
    ensures Ntohl(host, FromMem32(host, BeBytes32(x))) == x
  {
    HtonlIsNetworkOrder(host, x);
    FromMem32Mem32(host, Htonl(host, x));
    HtonlRoundTrip(host, x);
  }

  /** A 64-bit value converted with `htonll` on one host, sent, received on a
      possibly different host and converted with `ntohll` arrives intact. */
  lemma Transfer64(sender: Endian, receiver: Endian, x: bv64)
    ensures Ntohll(receiver, FromMem64(receiver, Mem64(sender, Htonll(sender, x)))) == x
  {
    HtonllIsNetworkOrder(sender, x);
    NtohllOfNetworkOrder(receiver, x);
  }

  lemma Transfer32(sender: Endian, receiver: Endian, x: bv32)
    ensures Ntohl(receiver, FromMem32(receiver, Mem32(sender, Htonl(sender, x)))) == x
  {
    HtonlIsNetworkOrder(sender, x);
    NtohlOfNetworkOrder(receiver, x);
  }
}
