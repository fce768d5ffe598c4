/** Macro ids: the 32-byte SHA-256 digest of a macro's name, compared byte
    by byte with `memcmp`, and printed in base64 (section 4 of RFC 4648,
    with `=` padding). */
module MacroId {
  import opened Wrappers

  /** The `macro` struct: 32 raw bytes. */
  type MacroId = s: seq<bv8> | |s| == 32 witness seq(32, _ => 0)

  // ---------------------------------------------------------------------------
  // Byte-wise order.

  /** The sign of `memcmp(a, b, |a|)`: the first differing byte decides,
      compared as unsigned. */
  function Memcmp(a: seq<bv8>, b: seq<bv8>): (r: int)
    requires |a| == |b|
    ensures -1 <= r <= 1
  {
    if a == [] then 0
    else if a[0] < b[0] then -1
    else if a[0] > b[0] then 1
    else Memcmp(a[1..], b[1..])
  }

  /** `macro::operator<`. */
  predicate Less(a: MacroId, b: MacroId) {
    Memcmp(a, b) < 0
  }

  /** `macro::operator==`. */
  predicate Same(a: MacroId, b: MacroId) {
    Memcmp(a, b) == 0
  }

  /** `memcmp` reports equality exactly when every byte matches. */
  lemma {:induction false} MemcmpZero(a: seq<bv8>, b: seq<bv8>)
    requires |a| == |b|
    ensures Memcmp(a, b) == 0 <==> a == b
  {
    if a != [] {
      MemcmpZero(a[1..], b[1..]);
      if a[0] == b[0] && a[1..] == b[1..] {
        assert a == [a[0]] + a[1..] && b == [b[0]] + b[1..];
      }
    }
  }

  /** Swapping the arguments flips the sign. */
  lemma {:induction false} MemcmpSwap(a: seq<bv8>, b: seq<bv8>)
    requires |a| == |b|
    ensures Memcmp(b, a) == -Memcmp(a, b)
  {
    if a != [] && a[0] == b[0] {
      MemcmpSwap(a[1..], b[1..]);
    }
  }

  /** `a` and `b` agree on their first `k` bytes and differ at byte `k`,
      where `a` has the smaller one. */
  predicate SmallerAt(a: seq<bv8>, b: seq<bv8>, k: int)
    requires |a| == |b|
  {
    && 0 <= k < |a|
    && (forall j :: 0 <= j < k ==> a[j] == b[j])
    && a[k] < b[k]
  }

  lemma {:induction false} MemcmpNegativeHasDifference(a: seq<bv8>, b: seq<bv8>) returns (k: int)
    requires |a| == |b| && Memcmp(a, b) < 0
    ensures SmallerAt(a, b, k)
  {
    if a[0] < b[0] {
      k := 0;
    } else {
      var k' := MemcmpNegativeHasDifference(a[1..], b[1..]);
      k := k' + 1;
    }
  }

  lemma {:induction false} DifferenceMakesMemcmpNegative(a: seq<bv8>, b: seq<bv8>, k: int)
    requires |a| == |b| && SmallerAt(a, b, k)
    ensures Memcmp(a, b) < 0
  {
    if k > 0 {
      assert a[0] == b[0];
      DifferenceMakesMemcmpNegative(a[1..], b[1..], k - 1);
    }
  }

  /** `memcmp` is negative exactly when, at the first differing byte, `a`
      has the smaller one. */
  lemma MemcmpFirstDifference(a: seq<bv8>, b: seq<bv8>)
    requires |a| == |b|
    ensures Memcmp(a, b) < 0 <==> exists k :: SmallerAt(a, b, k)
  {
    if Memcmp(a, b) < 0 {
      var k := MemcmpNegativeHasDifference(a, b);
    }
    if exists k :: SmallerAt(a, b, k) {
      var k :| SmallerAt(a, b, k);
      DifferenceMakesMemcmpNegative(a, b, k);
    }
  }

  lemma {:induction false} MemcmpTransitive(a: seq<bv8>, b: seq<bv8>, c: seq<bv8>)
    requires |a| == |b| == |c|
    requires Memcmp(a, b) < 0 && Memcmp(b, c) < 0
    ensures Memcmp(a, c) < 0
  {
    if a[0] == b[0] && b[0] == c[0] {
      MemcmpTransitive(a[1..], b[1..], c[1..]);
    }
  }

  /** `operator<` is a strict total order and `operator==` is equality:
      irreflexive, transitive, and exactly one of `a < b`, `a == b`,
      `b < a` holds. */
  lemma IdOrder(a: MacroId, b: MacroId, c: MacroId)
    ensures Same(a, b) <==> a == b
    ensures !Less(a, a)
    ensures Less(a, b) && Less(b, c) ==> Less(a, c)
    ensures Less(a, b) <==> !Same(a, b) && !Less(b, a)
  {
    MemcmpZero(a, b);
    MemcmpZero(a, a);
    MemcmpSwap(a, b);
    if Less(a, b) && Less(b, c) {
      MemcmpTransitive(a, b, c);
    }
  }

  // ---------------------------------------------------------------------------
  // Base64 (section 4 of RFC 4648).

  /** `base64_chars`: the character for each 6-bit value, in value order. */
  const Alphabet: string := "ABCDEFGHIJKLMNOPQRSTUVWXYZabcdefghijklmnopqrstuvwxyz0123456789+/"

  /** A 64-character table, indexed by six-bit value. */
  type Table = s: string | |s| == 64 witness seq(64, _ => 'A')

  /** The character for the low six bits of `v`. */
  function Sextet(t: Table, v: bv32): char {
    t[v & 0x3F]
  }

  /** The four characters of a full 3-byte group. */
  function Group3(t: Table, x: bv8, y: bv8, z: bv8): string {
    var a, b, c := x as bv32, y as bv32, z as bv32;
    [Sextet(t, a >> 2), Sextet(t, ((a & 3) << 4) | (b >> 4)), Sextet(t, ((b & 15) << 2) | (c >> 6)), Sextet(t, c)]
  }

  /** The four characters of a final 2-byte group. */
  function Group2(t: Table, x: bv8, y: bv8): string {
    var a, b := x as bv32, y as bv32;
    [Sextet(t, a >> 2), Sextet(t, ((a & 3) << 4) | (b >> 4)), Sextet(t, (b & 15) << 2), '=']
  }

  /** The four characters of a final 1-byte group. */
  function Group1(t: Table, x: bv8): string {
    var a := x as bv32;
    [Sextet(t, a >> 2), Sextet(t, (a & 3) << 4), '=', '=']
  }

  /** The encoding of the complete groups among the first `n` bytes. */
  function Groups(t: Table, d: seq<bv8>, n: nat): string
    requires n <= |d|
  {
    if n < 3 then [] else Groups(t, d, n - 3) + Group3(t, d[n - 3], d[n - 2], d[n - 1])
  }

  /** The encoding of the incomplete last group of `d`, if any. */
  function LastGroup(t: Table, d: seq<bv8>): string {
    var n := |d|;
    if n % 3 == 0 then []
    else if n % 3 == 1 then Group1(t, d[n - 1])
    else Group2(t, d[n - 2], d[n - 1])
  }

  /** Base64 as section 4 of RFC 4648 defines it: each complete 3-byte group
      gives four characters, and a last group of one or two bytes gives four
      characters ending in `==` or `=`. */
  function Base64(t: Table, d: seq<bv8>): string {
    Groups(t, d, |d| - |d| % 3) + LastGroup(t, d)
  }

  /** Number of `=` characters that end the encoding of `n` bytes. */
  function Padding(n: nat): nat {
    if n % 3 == 0 then 0 else 3 - n % 3
  }

  lemma {:induction false} GroupsLength(t: Table, d: seq<bv8>, n: nat)
    requires n <= |d|
    ensures |Groups(t, d, n)| == 4 * (n / 3)
  {
    if n >= 3 {
      GroupsLength(t, d, n - 3);
    }
  }

  /** Encoded length is `4 * ceil(n / 3)`. */
  lemma Base64Length(t: Table, d: seq<bv8>)
    ensures |Base64(t, d)| == 4 * ((|d| + 2) / 3)
  {
    GroupsLength(t, d, |d| - |d| % 3);
  }

  lemma {:induction false} GroupsChars(t: Table, d: seq<bv8>, n: nat)
    requires n <= |d|
    ensures forall k :: 0 <= k < |Groups(t, d, n)| ==> Groups(t, d, n)[k] in t
  {
    if n >= 3 {
      GroupsChars(t, d, n - 3);
      var p := Groups(t, d, n - 3);
      var q := Group3(t, d[n - 3], d[n - 2], d[n - 1]);
      forall k | 0 <= k < |p + q|
        ensures (p + q)[k] in t
      {
        if k < |p| {
          assert (p + q)[k] == p[k];
        } else {
          assert (p + q)[k] == q[k - |p|];
        }
      }
    }
  }

  /** The last group is table characters followed by its padding. */
  lemma LastGroupChars(t: Table, d: seq<bv8>)
    ensures |LastGroup(t, d)| == if |d| % 3 == 0 then 0 else 4
    ensures forall k :: 0 <= k < |LastGroup(t, d)| - Padding(|d|) ==> LastGroup(t, d)[k] in t
    ensures forall k :: |LastGroup(t, d)| - Padding(|d|) <= k < |LastGroup(t, d)| ==> LastGroup(t, d)[k] == '='
  {
  }

  /** The encoding is table characters followed by the padding. */
  lemma Base64Chars(t: Table, d: seq<bv8>)
    ensures forall k :: 0 <= k < |Base64(t, d)| - Padding(|d|) ==> Base64(t, d)[k] in t
    ensures forall k :: |Base64(t, d)| - Padding(|d|) <= k < |Base64(t, d)| ==> Base64(t, d)[k] == '='
  {
    hide Sextet, LastGroup;
    var n := |d| - |d| % 3;
    var p := Groups(t, d, n);
    var q := LastGroup(t, d);
    GroupsChars(t, d, n);
    LastGroupChars(t, d);
    forall k | 0 <= k < |p + q|
      ensures k < |p + q| - Padding(|d|) ==> (p + q)[k] in t
      ensures k >= |p + q| - Padding(|d|) ==> (p + q)[k] == '='
    {
      if k < |p| {
        assert (p + q)[k] == p[k];
      } else {
        assert (p + q)[k] == q[k - |p|];
      }
    }
  }

  // ---------------------------------------------------------------------------
  // The bit-buffer encoder of `base64_encode` and `operator<<`.

  /** The character for the six bits of `val` starting at bit `shift`. */
  function Field(t: Table, val: bv32, shift: nat): char
    requires shift <= 32
  {
    Sextet(t, val >> shift)
  }

  /** The characters byte `j` completes: the field that ends inside it, and
      for the last byte of a group also the field of its low six bits. */
  function Completes(t: Table, d: seq<bv8>, j: nat): string
    requires j < |d|
  {
    var c := d[j] as bv32;
    if j % 3 == 0 then [Sextet(t, c >> 2)]
    else if j % 3 == 1 then [Sextet(t, ((d[j - 1] as bv32 & 3) << 4) | (c >> 4))]
    else [Sextet(t, ((d[j - 1] as bv32 & 15) << 2) | (c >> 6)), Sextet(t, c)]
  }

  /** The text the main loop has produced after `i` bytes. */
  function Emitted(t: Table, d: seq<bv8>, i: nat): string
    requires i <= |d|
  {
    if i == 0 then [] else Emitted(t, d, i - 1) + Completes(t, d, i - 1)
  }

  /** The field the leftover bits of an incomplete last group make once
      padded with zeros. */
  function Leftover(t: Table, d: seq<bv8>): string {
    var n := |d|;
    if n % 3 == 0 then []
    else if n % 3 == 1 then [Sextet(t, (d[n - 1] as bv32 & 3) << 4)]
    else [Sextet(t, (d[n - 1] as bv32 & 15) << 2)]
  }

  /** A run of `n` padding characters. */
  function Pad(n: nat): string {
    if n == 0 then [] else Pad(n - 1) + ['=']
  }

  lemma Associate(e: string, a: string, b: string, c: string)
    ensures e + a + b + c == e + (a + b + c)
  {
  }

  lemma Associate4(e: string, a: string, b: string, c: string, f: string)
    ensures e + a + b + c + f == e + (a + b + c + f)
  {
  }

  /** The three bytes of a group complete exactly its four characters. */
  lemma CompletesGroup(t: Table, d: seq<bv8>, j: nat)
    requires j + 3 <= |d| && j % 3 == 0
    ensures Completes(t, d, j) + Completes(t, d, j + 1) + Completes(t, d, j + 2)
         == Group3(t, d[j], d[j + 1], d[j + 2])
  {
    hide Sextet;
    assert (j + 1) % 3 == 1 && (j + 2) % 3 == 2;
  }

  /** The main loop's output grows by a whole group over the three bytes
      of that group. */
  lemma EmittedGroup(t: Table, d: seq<bv8>, n: nat)
    requires 3 <= n <= |d| && n % 3 == 0
    ensures Emitted(t, d, n) == Emitted(t, d, n - 3) + Group3(t, d[n - 3], d[n - 2], d[n - 1])
  {
    hide Sextet, Group3;
    var j := n - 3;
    var e, c0, c1, c2 := Emitted(t, d, j), Completes(t, d, j), Completes(t, d, j + 1), Completes(t, d, j + 2);
    assert Emitted(t, d, j + 1) == e + c0;
    assert Emitted(t, d, j + 2) == e + c0 + c1;
    assert Emitted(t, d, j + 3) == e + c0 + c1 + c2;
    Associate(e, c0, c1, c2);
    CompletesGroup(t, d, j);
  }

  /** After a whole number of groups the main loop has produced exactly
      their encoding. */
  lemma {:induction false} EmittedGroups(t: Table, d: seq<bv8>, n: nat)
    requires n <= |d| && n % 3 == 0
    ensures Emitted(t, d, n) == Groups(t, d, n)
  {
    hide Sextet, Completes, Group3;
    if n >= 3 {
      EmittedGroup(t, d, n);
      EmittedGroups(t, d, n - 3);
    }
  }

  /** The last byte of a 1-byte final group, its leftover field and two
      `=` make the last group. */
  lemma LastOne(t: Table, d: seq<bv8>)
    requires |d| % 3 == 1
    ensures Completes(t, d, |d| - 1) + Leftover(t, d) + Pad(2) == LastGroup(t, d)
  {
    hide Sextet;
    assert (|d| - 1) % 3 == 0;
  }

  /** The two bytes of a 2-byte final group, its leftover field and one `=`
      make the last group. */
  lemma LastTwo(t: Table, d: seq<bv8>)
    requires |d| % 3 == 2
    ensures Completes(t, d, |d| - 2) + Completes(t, d, |d| - 1) + Leftover(t, d) + Pad(1) == LastGroup(t, d)
  {
    hide Sextet;
    assert (|d| - 2) % 3 == 0 && (|d| - 1) % 3 == 1;
  }

  /** A last group of one byte: the field the main loop pushed for it, the
      leftover field and two `=`. */
  lemma AssembleOne(t: Table, d: seq<bv8>)
    requires |d| % 3 == 1
    ensures Emitted(t, d, |d|) + Leftover(t, d) + Pad(2) == Base64(t, d)
  {
    hide Sextet, Completes, Leftover, LastGroup, Groups, Pad;
    var j := |d| - 1;
    var e, c, l, p := Emitted(t, d, j), Completes(t, d, j), Leftover(t, d), Pad(2);
    assert Emitted(t, d, |d|) == e + c;
    LastOne(t, d);
    EmittedGroups(t, d, j);
    Associate(e, c, l, p);
  }

  /** A last group of two bytes: the two fields the main loop pushed for
      them, the leftover field and one `=`. */
  lemma AssembleTwo(t: Table, d: seq<bv8>)
    requires |d| % 3 == 2
    ensures Emitted(t, d, |d|) + Leftover(t, d) + Pad(1) == Base64(t, d)
  {
    hide Sextet, Completes, Leftover, LastGroup, Groups, Pad;
    var j := |d| - 2;
    var e, c0, c1, l, p := Emitted(t, d, j), Completes(t, d, j), Completes(t, d, j + 1), Leftover(t, d), Pad(1);
    assert Emitted(t, d, j + 1) == e + c0;
    assert Emitted(t, d, |d|) == e + c0 + c1;
    LastTwo(t, d);
    EmittedGroups(t, d, j);
    Associate4(e, c0, c1, l, p);
  }

  /** The main loop, the leftover field and the padding make the whole
      encoding. */
  lemma Assemble(t: Table, d: seq<bv8>)
    ensures Emitted(t, d, |d|) + Leftover(t, d) + Pad(Padding(|d|)) == Base64(t, d)
  {
    if |d| % 3 == 0 {
      EmittedGroups(t, d, |d|);
    } else if |d| % 3 == 1 {
      AssembleOne(t, d);
    } else {
      AssembleTwo(t, d);
    }
  }

  /** The low bits of the buffer that the group in progress still needs. */
  predicate Owed(d: seq<bv8>, i: nat, val: bv32)
    requires i <= |d|
  {
    && (i % 3 == 1 ==> val & 3 == (d[i - 1] as bv32) & 3)
    && (i % 3 == 2 ==> val & 15 == (d[i - 1] as bv32) & 15)
  }

  // Bit-level facts, one field at a time.

  lemma FirstField(t: Table, prev: bv32, a: bv32)
    requires a < 256
    ensures Field(t, (prev << 8) + a, 2) == Sextet(t, a >> 2)
  {
    assert (((prev << 8) + a) >> 2) & 0x3F == (a >> 2) & 0x3F;
  }

  lemma SecondField(t: Table, prev: bv32, a: bv32, b: bv32)
    requires b < 256 && prev & 3 == a & 3
    ensures Field(t, (prev << 8) + b, 4) == Sextet(t, ((a & 3) << 4) | (b >> 4))
  {
    assert (((prev << 8) + b) >> 4) & 0x3F == (((a & 3) << 4) | (b >> 4)) & 0x3F;
  }

  lemma ThirdField(t: Table, prev: bv32, b: bv32, c: bv32)
    requires c < 256 && prev & 15 == b & 15
    ensures Field(t, (prev << 8) + c, 6) == Sextet(t, ((b & 15) << 2) | (c >> 6))
  {
    assert (((prev << 8) + c) >> 6) & 0x3F == (((b & 15) << 2) | (c >> 6)) & 0x3F;
  }

  lemma FourthField(t: Table, prev: bv32, c: bv32)
    requires c < 256
    ensures Field(t, (prev << 8) + c, 0) == Sextet(t, c)
  {
    assert ((prev << 8) + c) & 0x3F == c & 0x3F;
  }

  lemma LowBits(prev: bv32, c: bv32)
    requires c < 256
    ensures ((prev << 8) + c) & 3 == c & 3
    ensures ((prev << 8) + c) & 15 == c & 15
  {
  }

  lemma FlushOne(t: Table, val: bv32, a: bv32)
    requires val & 3 == a & 3
    ensures Field(t, val << 8, 4) == Sextet(t, (a & 3) << 4)
  {
    assert ((val << 8) >> 4) & 0x3F == ((a & 3) << 4) & 0x3F;
  }

  lemma FlushTwo(t: Table, val: bv32, b: bv32)
    requires val & 15 == b & 15
    ensures Field(t, val << 8, 6) == Sextet(t, (b & 15) << 2)
  {
    assert ((val << 8) >> 6) & 0x3F == ((b & 15) << 2) & 0x3F;
  }

  /** The first `k` characters the inner loop pushes when it starts with
      `top` buffered bits: the fields at shifts `top`, `top - 6`, ... */
  function Drained(t: Table, val: bv32, top: int, k: nat): string
    requires top <= 6 && 6 * k <= top + 6
  {
    if k == 0 then [] else Drained(t, val, top, k - 1) + [Field(t, val, top - 6 * (k - 1))]
  }

  /** What the inner loop pushes once byte `i` has been shifted in. */
  function Pushed(t: Table, val: bv32, i: nat): string {
    if i % 3 == 2 then [Field(t, val, 6), Field(t, val, 0)] else [Field(t, val, 2 + 2 * (i % 3))]
  }

  /** What the flush after the main loop pushes for `n` bytes. */
  function Flush(t: Table, val: bv32, n: nat): string {
    if n % 3 == 0 then [] else [Field(t, val << 8, 2 + 2 * (n % 3))]
  }

  lemma ShiftedFirst(t: Table, d: seq<bv8>, i: nat, prev: bv32, val: bv32)
    requires i < |d| && i % 3 == 0 && val == (prev << 8) + d[i] as bv32
    ensures [Field(t, val, 2)] == Completes(t, d, i)
  {
    hide Sextet, Field;
    FirstField(t, prev, d[i] as bv32);
  }

  lemma ShiftedSecond(t: Table, d: seq<bv8>, i: nat, prev: bv32, val: bv32)
    requires i < |d| && i % 3 == 1 && val == (prev << 8) + d[i] as bv32
    requires prev & 3 == (d[i - 1] as bv32) & 3
    ensures [Field(t, val, 4)] == Completes(t, d, i)
  {
    hide Sextet, Field;
    SecondField(t, prev, d[i - 1] as bv32, d[i] as bv32);
  }

  lemma ShiftedThird(t: Table, d: seq<bv8>, i: nat, prev: bv32, val: bv32)
    requires i < |d| && i % 3 == 2 && val == (prev << 8) + d[i] as bv32
    requires prev & 15 == (d[i - 1] as bv32) & 15
    ensures [Field(t, val, 6), Field(t, val, 0)] == Completes(t, d, i)
  {
    ThirdField(t, prev, d[i - 1] as bv32, d[i] as bv32);
    FourthField(t, prev, d[i] as bv32);
  }

  /** One iteration of the main loop pushes the characters the new byte
      completes, and keeps the bits the next one needs. */
  lemma Shifted(t: Table, d: seq<bv8>, i: nat, prev: bv32, val: bv32)
    requires i < |d| && val == (prev << 8) + d[i] as bv32 && Owed(d, i, prev)
    ensures Pushed(t, val, i) == Completes(t, d, i)
    ensures Owed(d, i + 1, val)
  {
    LowBits(prev, d[i] as bv32);
    if i % 3 == 0 {
      ShiftedFirst(t, d, i, prev, val);
    } else if i % 3 == 1 {
      ShiftedSecond(t, d, i, prev, val);
    } else {
      ShiftedThird(t, d, i, prev, val);
    }
  }

  /** One iteration of the main loop, given what the inner loop pushed
      from `top` buffered bits: the text so far grows by what the new byte
      completes, the bits the next byte needs are kept, and the bit count
      follows the position in the group. */
  lemma Advanced(t: Table, d: seq<bv8>, i: nat, encoded: string, prev: bv32, val: bv32,
                 top: int, pushed: string, valb: int)
    requires i < |d| && val == (prev << 8) + d[i] as bv32 && Owed(d, i, prev)
    requires encoded == Emitted(t, d, i)
    requires top == 2 + 2 * (i % 3)
    requires top < 6 ==> valb == top - 6 && pushed == [Field(t, val, top)]
    requires top == 6 ==> valb == -6 && pushed == [Field(t, val, 6), Field(t, val, 0)]
    ensures encoded + pushed == Emitted(t, d, i + 1)
    ensures Owed(d, i + 1, val)
    ensures valb == -6 + 2 * ((i + 1) % 3)
  {
    hide Owed, Field, Completes, Sextet;
    Shifted(t, d, i, prev, val);
  }

  /** The flushed field is the leftover field of the reference encoding. */
  lemma Flushed(t: Table, d: seq<bv8>, val: bv32)
    requires Owed(d, |d|, val)
    ensures Flush(t, val, |d|) == Leftover(t, d)
  {
    var n := |d|;
    if n % 3 == 1 {
      FlushOne(t, val, d[n - 1] as bv32);
    } else if n % 3 == 2 {
      FlushTwo(t, val, d[n - 1] as bv32);
    }
  }

  /** The inner loop of `base64_encode`: push the six-bit field at the top
      of the buffer while at least six bits remain. */
  method Drain(t: Table, val: bv32, top: int) returns (pushed: string, valb: int)
    requires 0 <= top <= 6
    ensures top < 6 ==> valb == top - 6 && pushed == [Field(t, val, top)]
    ensures top == 6 ==> valb == -6 && pushed == [Field(t, val, 6), Field(t, val, 0)]
  {
    pushed := [];
    valb := top;
    ghost var k: nat := 0;
    while valb >= 0
      invariant valb == top - 6 * k && valb >= -6
      invariant pushed == Drained(t, val, top, k)
    {
      pushed := pushed + [Field(t, val, valb)];
      valb := valb - 6;
      k := k + 1;
    }
  }

  /** The main loop of `base64_encode`: bytes are shifted into `val` eight
      bits at a time and a six-bit field is pushed whenever at least six bits
      are buffered. Returns the text so far, the bit buffer and its count. */
  method ShiftIn(t: Table, d: seq<bv8>) returns (encoded: string, val: bv32, valb: int)
    ensures valb == -6 + 2 * (|d| % 3)
    ensures encoded == Emitted(t, d, |d|) && Owed(d, |d|, val)
  {
    encoded := "";
    val := 0;
    valb := -6;
    var i := 0;
    assert Owed(d, i, val);
    hide Owed, Field, Completes, Sextet, Emitted, Pushed;
    while i < |d|
      invariant 0 <= i <= |d|
      invariant valb == -6 + 2 * (i % 3)
      invariant encoded == Emitted(t, d, i) && Owed(d, i, val)
    {
      ghost var prev := val;
      val := (val << 8) + d[i] as bv32;
      valb := valb + 8;
      ghost var top := valb;
      var pushed;
      pushed, valb := Drain(t, val, valb);
      Advanced(t, d, i, encoded, prev, val, top, pushed, valb);
      encoded := encoded + pushed;
      i := i + 1;
    }
  }

  /** The main loop's text and the flushed field, padded, are the reference
      encoding. */
  lemma Finished(t: Table, d: seq<bv8>, encoded: string, val: bv32)
    requires encoded == Emitted(t, d, |d|) && Owed(d, |d|, val)
    ensures encoded + Flush(t, val, |d|) + Pad(Padding(|d|)) == Base64(t, d)
    ensures |encoded + Flush(t, val, |d|)| + Padding(|d|) == 4 * ((|d| + 2) / 3)
  {
    hide Sextet, Field, Completes, Groups, LastGroup;
    Flushed(t, d, val);
    Assemble(t, d);
    Base64Length(t, d);
  }

  /** The padding loop: `=` until the length is a multiple of four. */
  method PadOut(body: string, padding: nat) returns (encoded: string)
    requires padding < 4 && (|body| + padding) % 4 == 0
    ensures encoded == body + Pad(padding) && |encoded| == |body| + padding
  {
    encoded := body;
    while |encoded| % 4 != 0
      invariant |body| <= |encoded| <= |body| + padding
      invariant encoded == body + Pad(|encoded| - |body|)
      decreases |body| + padding - |encoded|
    {
      encoded := encoded + ['='];
    }
  }

  /** `base64_encode(data, length)` with table `t`: the main loop, then the
      leftover bits flushed padded with zeros, then `=` up to a multiple of
      four characters. `int val` is modelled as 32 bits that wrap; only its
      low 14 bits are ever read. */
  method Base64Encode(t: Table, d: seq<bv8>) returns (encoded: string)
    ensures encoded == Base64(t, d)
    ensures |encoded| == 4 * ((|d| + 2) / 3)
  {
    hide Sextet, Completes, Emitted, Groups, LastGroup, Base64, Pad;
    var val: bv32, valb: int;
    encoded, val, valb := ShiftIn(t, d);
    Finished(t, d, encoded, val);
    if valb > -6 {
      encoded := encoded + [Field(t, val << 8, valb + 8)];
    }
    assert encoded + Pad(Padding(|d|)) == Base64(t, d);
    encoded := PadOut(encoded, Padding(|d|));
  }

  /** `operator<<` on a macro id: the same encoder run over the 32 id bytes,
      giving 43 alphabet characters and one `=`. */
  method ShowId(m: MacroId) returns (s: string)
    ensures s == Base64(Alphabet, m)
    ensures |s| == 44 && s[43] == '='
    ensures forall k :: 0 <= k < 43 ==> s[k] in Alphabet
  {
    s := Base64Encode(Alphabet, m);
    Base64Chars(Alphabet, m);
    assert Padding(32) == 1;
  }
}
