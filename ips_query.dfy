/**
 * The subnet-to-box step of ips_query.cpp: a dotted IPv4 base address and a
 * prefix length become the inclusive 4-D box [lowPoint, highPoint] that the
 * 4-D tree is range-searched with.
 *
 * Addresses are `bv32` (the source's `uint32_t`), bytes are `bv8` (its
 * `uint8_t`), and the points handed to the tree are `seq<int>` of length 4, as
 * in module `KdTree`. The box is related to the subnet through the bytes of
 * the words: each bitwise operation on a word acts byte by byte, and within
 * one byte the bounds cut out exactly the values that agree with the base
 * on the mask's bits.
 */
module IpsQuery {
  import opened KdTree

  // ---------------------------------------------------------------------
  // Bytes and addresses
  // ---------------------------------------------------------------------

  /** `static_cast<uint8_t>` of an `int`: the value modulo 256 (two's complement keeps the low eight bits). */
  function Truncate(b: int): bv8
  {
    (b % 256) as bv8
  }

  /** The components of an address, each cast to a byte. */
  function Truncated(s: seq<int>): (r: seq<bv8>)
    ensures |r| == |s|
  {
    seq(|s|, i requires 0 <= i < |s| => Truncate(s[i]))
  }

  /** The packing loop after `n` steps: each step shifts the word left by eight bits and ors in the next byte. */
  function PackPrefix(b: seq<bv8>, n: nat): bv32
    requires n <= |b|
  {
    if n == 0 then 0 else (PackPrefix(b, n - 1) << 8) | b[n - 1] as bv32
  }

  /** The 32-bit address of four bytes, the first one most significant: its bytes are the four given. */
  function Pack(b: seq<bv8>): (r: bv32)
    requires |b| == 4
    ensures Unpack(r) == b
  {
    PackedBytes(b);
    PackPrefix(b, 4)
  }

  /** Byte `i` of a word, most significant first (byte 0 is the first dotted component). */
  function ByteAt(w: bv32, i: nat): bv8
  {
    if i == 0 then ((w >> 24) & 0xFF) as bv8
    else if i == 1 then ((w >> 16) & 0xFF) as bv8
    else if i == 2 then ((w >> 8) & 0xFF) as bv8
    else (w & 0xFF) as bv8
  }

  /** The four bytes of a word, most significant first. */
  function Unpack(w: bv32): (r: seq<bv8>)
    ensures |r| == 4
  {
    [ByteAt(w, 0), ByteAt(w, 1), ByteAt(w, 2), ByteAt(w, 3)]
  }

  /** Bytes as the `int` coordinates of a point. */
  function ToInts(b: seq<bv8>): (r: seq<int>)
    ensures |r| == |b|
  {
    seq(|b|, i requires 0 <= i < |b| => b[i] as int)
  }

  /** The base address the packing loop builds from the parsed components. */
  function Address(baseAddr: seq<int>): bv32
    requires |baseAddr| == 4
  {
    Pack(Truncated(baseAddr))
  }

  // ---------------------------------------------------------------------
  // The subnet bounds
  // ---------------------------------------------------------------------

  /**
   * `mask`: the top `prefix` bits set; prefix 0 is a case of its own because a
   * 32-bit shift is undefined in C++. Its complement, the host bits, is a run
   * of ones at the bottom (`MaskHostBits` gives the length of the run).
   */
  function Mask(prefix: nat): (m: bv32)
    requires prefix <= 32
    ensures LowOnes(!m)
  {
    if prefix == 0 then 0 else 0xFFFF_FFFF << (32 - prefix)
  }

  /** `startIp`: the address with the host bits cleared. */
  function Start(ip: bv32, prefix: nat): bv32
    requires prefix <= 32
  {
    ip & Mask(prefix)
  }

  /** `endIp`: the start of the subnet with the host bits set. */
  function End(ip: bv32, prefix: nat): bv32
    requires prefix <= 32
  {
    Start(ip, prefix) | !Mask(prefix)
  }

  /** The box corner `lowPoint`: an address, whatever the components. */
  function LowPoint(baseAddr: seq<int>, prefix: nat): (r: seq<int>)
    requires |baseAddr| == 4 && prefix <= 32
    ensures IsAddress(r)
  {
    ToInts(Unpack(Start(Address(baseAddr), prefix)))
  }

  /** The box corner `highPoint`: an address, whatever the components. */
  function HighPoint(baseAddr: seq<int>, prefix: nat): (r: seq<int>)
    requires |baseAddr| == 4 && prefix <= 32
    ensures IsAddress(r)
  {
    ToInts(Unpack(End(Address(baseAddr), prefix)))
  }

  /**
   * Lines 56-72 of ips_query.cpp: pack the base address, compute the mask and
   * the first and last address of the subnet, and unpack both into 4-D points.
   */
  method SubnetBounds(baseAddr: seq<int>, prefix: nat) returns (lowPoint: seq<int>, highPoint: seq<int>)
    requires |baseAddr| == 4 && prefix <= 32
    ensures lowPoint == LowPoint(baseAddr, prefix)
    ensures highPoint == HighPoint(baseAddr, prefix)
  {
    var ipUint := PackAddress(baseAddr);
    var mask := Mask(prefix);
    var startIp := ipUint & mask;
    var endIp := startIp | !mask;
    lowPoint, highPoint := UnpackBounds(startIp, endIp);
    LowFromWords(baseAddr, prefix, ipUint, mask);
    HighFromWords(baseAddr, prefix, ipUint, mask);
  }

  /** The packing loop (lines 57-60): the components, cast to bytes, most significant first. */
  method PackAddress(baseAddr: seq<int>) returns (ipUint: bv32)
    requires |baseAddr| == 4
    ensures ipUint == Address(baseAddr)
  {
    ipUint := 0;
    var i := 0;
    while i < 4
      invariant 0 <= i <= 4
      invariant ipUint == PackPrefix(Truncated(baseAddr), i)
    {
      ipUint := (ipUint << 8) | (Truncate(baseAddr[i]) as bv32);
      i := i + 1;
    }
  }

  /** The unpacking loop (lines 69-72): byte `i` from the bottom of each word becomes coordinate `3 - i`. */
  method UnpackBounds(startIp: bv32, endIp: bv32) returns (lowPoint: seq<int>, highPoint: seq<int>)
    ensures lowPoint == ToInts(Unpack(startIp))
    ensures highPoint == ToInts(Unpack(endIp))
  {
    lowPoint, highPoint := [0, 0, 0, 0], [0, 0, 0, 0];
    var i := 0;
    while i < 4
      invariant 0 <= i <= 4 && |lowPoint| == 4 && |highPoint| == 4
      invariant forall j | 4 - i <= j < 4 :: lowPoint[j] == ToInts(Unpack(startIp))[j]
      invariant forall j | 4 - i <= j < 4 :: highPoint[j] == ToInts(Unpack(endIp))[j]
    {
      var lowByte, highByte := (startIp >> (i * 8)) & 0xFF, (endIp >> (i * 8)) & 0xFF;
      ShiftedByte(startIp, i, lowByte);
      ShiftedByte(endIp, i, highByte);
      lowPoint := lowPoint[3 - i := lowByte as int];
      highPoint := highPoint[3 - i := highByte as int];
      i := i + 1;
    }
  }

  /** The unpacking loop's `(w >> (i * 8)) & 0xFF`, as an `int`, is coordinate `3 - i` of the unpacked word. */
  lemma ShiftedByte(w: bv32, i: nat, b: bv32)
    requires i < 4 && b == (w >> (i * 8)) & 0xFF
    ensures b as int == ToInts(Unpack(w))[3 - i]
  {
    ShiftedByteBits(w, i, b);
    ByteValue(w, 3 - i, b);
  }

  /** A byte of a word, widened to 32 bits, has the value of the matching coordinate of the unpacked word. */
  lemma ByteValue(w: bv32, j: nat, b: bv32)
    requires j < 4 && b == ByteAt(w, j) as bv32
    ensures b as int == ToInts(Unpack(w))[j]
  {
    WidenByte(ByteAt(w, j), b);
    assert Unpack(w)[j] == ByteAt(w, j);
  }

  /** The unpacking loop's `(w >> (i * 8)) & 0xFF` is byte `3 - i` of `w`. */
  lemma ShiftedByteBits(w: bv32, i: nat, b: bv32)
    requires i < 4 && b == (w >> (i * 8)) & 0xFF
    ensures b == ByteAt(w, 3 - i) as bv32
  {
    if i == 0 {
    } else if i == 1 {
    } else if i == 2 {
    } else {
    }
  }

  /** Widening a byte to 32 bits keeps its value. */
  lemma WidenByte(x: bv8, y: bv32)
    requires y == x as bv32
    ensures y as int == x as int
  {
  }

  // ---------------------------------------------------------------------
  // Packing and unpacking
  // ---------------------------------------------------------------------

  lemma PackOne(b: seq<bv8>)
    requires 1 <= |b|
    ensures PackPrefix(b, 1) == b[0] as bv32
  {
  }

  lemma PackTwo(b: seq<bv8>)
    requires 2 <= |b|
    ensures PackPrefix(b, 2) == (b[0] as bv32 << 8) | b[1] as bv32
  {
    PackOne(b);
  }

  lemma PackThree(b: seq<bv8>)
    requires 3 <= |b|
    ensures PackPrefix(b, 3) == (b[0] as bv32 << 16) | (b[1] as bv32 << 8) | b[2] as bv32
  {
    PackTwo(b);
  }

  /** The packing loop's word, written out for four bytes. */
  lemma PackFour(b: seq<bv8>)
    requires |b| == 4
    ensures PackPrefix(b, 4) == (b[0] as bv32 << 24) | (b[1] as bv32 << 16) | (b[2] as bv32 << 8) | b[3] as bv32
  {
    PackThree(b);
  }

  /** The four bytes of a word built from four bytes. */
  lemma UnpackBytes(a: bv8, b: bv8, c: bv8, d: bv8)
    ensures Unpack((a as bv32 << 24) | (b as bv32 << 16) | (c as bv32 << 8) | d as bv32) == [a, b, c, d]
  {
  }

  /** Unpacking the packing loop's word gives back its bytes. */
  lemma PackedBytes(b: seq<bv8>)
    requires |b| == 4
    ensures Unpack(PackPrefix(b, 4)) == b
  {
    PackFour(b);
    UnpackBytes(b[0], b[1], b[2], b[3]);
    assert b == [b[0], b[1], b[2], b[3]];
  }

  /** A word is the four bytes of it, shifted back into place. */
  lemma RepackBytes(w: bv32)
    ensures (ByteAt(w, 0) as bv32 << 24) | (ByteAt(w, 1) as bv32 << 16) | (ByteAt(w, 2) as bv32 << 8) | ByteAt(w, 3) as bv32 == w
  {
  }

  /** Packing the bytes of a word gives back the word. */
  lemma PackUnpack(w: bv32)
    ensures Pack(Unpack(w)) == w
  {
    PackFour(Unpack(w));
    RepackBytes(w);
  }

  /** The low corner the method unpacks is `LowPoint`. */
  lemma LowFromWords(baseAddr: seq<int>, prefix: nat, ip: bv32, mask: bv32)
    requires |baseAddr| == 4 && prefix <= 32
    requires ip == Address(baseAddr) && mask == Mask(prefix)
    ensures ToInts(Unpack(ip & mask)) == LowPoint(baseAddr, prefix)
  {
    StartIs(ip, prefix, mask);
  }

  /** The high corner the method unpacks is `HighPoint`. */
  lemma HighFromWords(baseAddr: seq<int>, prefix: nat, ip: bv32, mask: bv32)
    requires |baseAddr| == 4 && prefix <= 32
    requires ip == Address(baseAddr) && mask == Mask(prefix)
    ensures ToInts(Unpack((ip & mask) | !mask)) == HighPoint(baseAddr, prefix)
  {
    EndIs(ip, prefix, mask);
  }


  // ---------------------------------------------------------------------
  // Bytes of bitwise combinations
  // ---------------------------------------------------------------------

  /** Two byte strings anded byte by byte. */
  function AndBytes(a: seq<bv8>, b: seq<bv8>): (r: seq<bv8>)
    requires |a| == |b|
    ensures |r| == |a|
  {
    seq(|a|, i requires 0 <= i < |a| => a[i] & b[i])
  }

  /** Two byte strings ored byte by byte. */
  function OrBytes(a: seq<bv8>, b: seq<bv8>): (r: seq<bv8>)
    requires |a| == |b|
    ensures |r| == |a|
  {
    seq(|a|, i requires 0 <= i < |a| => a[i] | b[i])
  }

  /** A byte string complemented byte by byte. */
  function NotBytes(a: seq<bv8>): (r: seq<bv8>)
    ensures |r| == |a|
  {
    seq(|a|, i requires 0 <= i < |a| => !a[i])
  }

  /** The bytes of `z = x & y` are the bytes of `x` and of `y`, anded. */
  lemma AndOfBytes(x: bv32, y: bv32, z: bv32)
    requires z == x & y
    ensures ByteAt(z, 0) == ByteAt(x, 0) & ByteAt(y, 0)
    ensures ByteAt(z, 1) == ByteAt(x, 1) & ByteAt(y, 1)
    ensures ByteAt(z, 2) == ByteAt(x, 2) & ByteAt(y, 2)
    ensures ByteAt(z, 3) == ByteAt(x, 3) & ByteAt(y, 3)
  {
  }

  /** The bytes of `z = x | y` are the bytes of `x` and of `y`, ored. */
  lemma OrOfBytes(x: bv32, y: bv32, z: bv32)
    requires z == x | y
    ensures ByteAt(z, 0) == ByteAt(x, 0) | ByteAt(y, 0)
    ensures ByteAt(z, 1) == ByteAt(x, 1) | ByteAt(y, 1)
    ensures ByteAt(z, 2) == ByteAt(x, 2) | ByteAt(y, 2)
    ensures ByteAt(z, 3) == ByteAt(x, 3) | ByteAt(y, 3)
  {
  }

  /** The bytes of `z = !x` are the bytes of `x`, complemented. */
  lemma NotOfBytes(x: bv32, z: bv32)
    requires z == !x
    ensures ByteAt(z, 0) == !ByteAt(x, 0)
    ensures ByteAt(z, 1) == !ByteAt(x, 1)
    ensures ByteAt(z, 2) == !ByteAt(x, 2)
    ensures ByteAt(z, 3) == !ByteAt(x, 3)
  {
  }

  /** Words with the same bytes are equal. */
  lemma UnpackInjective(x: bv32, y: bv32)
    requires Unpack(x) == Unpack(y)
    ensures x == y
  {
    PackUnpack(x);
    PackUnpack(y);
  }

  // ---------------------------------------------------------------------
  // Addresses as points
  // ---------------------------------------------------------------------

  /** A point whose four coordinates are byte values, as the addresses stored in the tree are. */
  predicate IsAddress(q: seq<int>)
  {
    |q| == 4 && forall i | 0 <= i < 4 :: 0 <= q[i] < 256
  }

  /** Casting to `uint8_t` keeps the value modulo 256, so a byte value is kept as it is. */
  lemma TruncateValue(b: int)
    ensures Truncate(b) as int == b % 256
  {
    assert (b % 256) % 256 == b % 256;
  }

  /** A point of byte values is the unpacking of its packed address. */
  lemma AddressPoint(q: seq<int>)
    requires IsAddress(q)
    ensures ToInts(Unpack(Address(q))) == q
  {
    forall i | 0 <= i < 4
      ensures ToInts(Truncated(q))[i] == q[i]
    {
      TruncateValue(q[i]);
      assert q[i] % 256 == q[i];
    }
  }

  /** Every word unpacks to a point of byte values. */
  lemma WordIsAddress(w: bv32)
    ensures IsAddress(ToInts(Unpack(w)))
  {
  }

  // ---------------------------------------------------------------------
  // The shape of the mask
  // ---------------------------------------------------------------------

  /** A run of ones at the bottom of a word, possibly empty. */
  predicate LowOnes(u: bv32)
  {
    u & (u + 1) == 0
  }

  /** A run of ones at the bottom of a byte, possibly empty. */
  predicate LowOnes8(u: bv8)
  {
    u & (u + 1) == 0
  }

  /** `2^n`. */
  function Pow2(n: nat): (r: nat)
    ensures r >= 1
  {
    if n == 0 then 1 else 2 * Pow2(n - 1)
  }

  /** The powers of two up to `2^32`, each one unfolding of `Pow2` from the one before. */
  lemma Pow2Table()
    ensures Pow2(0) == 0x1
    ensures Pow2(1) == 0x2
    ensures Pow2(2) == 0x4
    ensures Pow2(3) == 0x8
    ensures Pow2(4) == 0x10
    ensures Pow2(5) == 0x20
    ensures Pow2(6) == 0x40
    ensures Pow2(7) == 0x80
    ensures Pow2(8) == 0x100
    ensures Pow2(9) == 0x200
    ensures Pow2(10) == 0x400
    ensures Pow2(11) == 0x800
    ensures Pow2(12) == 0x1000
    ensures Pow2(13) == 0x2000
    ensures Pow2(14) == 0x4000
    ensures Pow2(15) == 0x8000
    ensures Pow2(16) == 0x10000
    ensures Pow2(17) == 0x20000
    ensures Pow2(18) == 0x40000
    ensures Pow2(19) == 0x80000
    ensures Pow2(20) == 0x100000
    ensures Pow2(21) == 0x200000
    ensures Pow2(22) == 0x400000
    ensures Pow2(23) == 0x800000
    ensures Pow2(24) == 0x1000000
    ensures Pow2(25) == 0x2000000
    ensures Pow2(26) == 0x4000000
    ensures Pow2(27) == 0x8000000
    ensures Pow2(28) == 0x10000000
    ensures Pow2(29) == 0x20000000
    ensures Pow2(30) == 0x40000000
    ensures Pow2(31) == 0x80000000
    ensures Pow2(32) == 0x100000000
  {
  }

  /** `MaskHostBits` for the prefixes 0 to 7, case by case. */
  lemma HostBitsFirstByte(prefix: nat)
    requires 0 <= prefix <= 7
    ensures (!Mask(prefix)) as int == Pow2(32 - prefix) - 1
  {
    Pow2Table();
    if prefix == 0 {} else if prefix == 1 {} else if prefix == 2 {} else if prefix == 3 {}
    else if prefix == 4 {} else if prefix == 5 {} else if prefix == 6 {}
    else {}
  }

  /** `MaskHostBits` for the prefixes 8 to 15, case by case. */
  lemma HostBitsSecondByte(prefix: nat)
    requires 8 <= prefix <= 15
    ensures (!Mask(prefix)) as int == Pow2(32 - prefix) - 1
  {
    Pow2Table();
    if prefix == 8 {} else if prefix == 9 {} else if prefix == 10 {} else if prefix == 11 {}
    else if prefix == 12 {} else if prefix == 13 {} else if prefix == 14 {}
    else {}
  }

  /** `MaskHostBits` for the prefixes 16 to 23, case by case. */
  lemma HostBitsThirdByte(prefix: nat)
    requires 16 <= prefix <= 23
    ensures (!Mask(prefix)) as int == Pow2(32 - prefix) - 1
  {
    Pow2Table();
    if prefix == 16 {} else if prefix == 17 {} else if prefix == 18 {} else if prefix == 19 {}
    else if prefix == 20 {} else if prefix == 21 {} else if prefix == 22 {}
    else {}
  }

  /** `MaskHostBits` for the prefixes 24 to 32, case by case. */
  lemma HostBitsFourthByte(prefix: nat)
    requires 24 <= prefix <= 32
    ensures (!Mask(prefix)) as int == Pow2(32 - prefix) - 1
  {
    Pow2Table();
    if prefix == 24 {} else if prefix == 25 {} else if prefix == 26 {} else if prefix == 27 {}
    else if prefix == 28 {} else if prefix == 29 {} else if prefix == 30 {} else if prefix == 31 {}
    else {}
  }

  /**
   * The mask keeps exactly the top `prefix` bits: its complement, the host
   * bits, is the number `2^(32 - prefix) - 1`, a run of `32 - prefix` ones.
   */
  lemma MaskHostBits(prefix: nat)
    requires prefix <= 32
    ensures (!Mask(prefix)) as int == Pow2(32 - prefix) - 1
  {
    if prefix < 8 {
      HostBitsFirstByte(prefix);
    } else if prefix < 16 {
      HostBitsSecondByte(prefix);
    } else if prefix < 24 {
      HostBitsThirdByte(prefix);
    } else {
      HostBitsFourthByte(prefix);
    }
  }

  /** Every byte of a low run is a low run. */
  lemma LowOnesBytes(u: bv32)
    requires LowOnes(u)
    ensures LowOnes8(ByteAt(u, 0)) && LowOnes8(ByteAt(u, 1)) && LowOnes8(ByteAt(u, 2)) && LowOnes8(ByteAt(u, 3))
  {
  }

  // ---------------------------------------------------------------------
  // The box is the subnet
  // ---------------------------------------------------------------------

  /** A byte string lies, byte by byte, between two others. */
  predicate Between(x: seq<bv8>, s: seq<bv8>, e: seq<bv8>)
    requires |x| == |s| == |e|
  {
    forall i | 0 <= i < |x| :: s[i] <= x[i] <= e[i]
  }

  /** One byte compares with two others as their `int` values do. */
  lemma OrderAt(x: seq<bv8>, s: seq<bv8>, e: seq<bv8>, i: nat)
    requires |x| == |s| == |e| && i < |x|
    ensures s[i] <= x[i] <= e[i] <==> ToInts(s)[i] <= ToInts(x)[i] <= ToInts(e)[i]
  {
  }

  /** Bytes lie between bytes exactly when their points lie in the box of the bounds' points. */
  lemma BetweenInBox(x: seq<bv8>, s: seq<bv8>, e: seq<bv8>)
    requires |x| == |s| == |e|
    ensures Between(x, s, e) <==> InBox(ToInts(x), ToInts(s), ToInts(e))
  {
    forall i | 0 <= i < |x|
      ensures s[i] <= x[i] <= e[i] <==> ToInts(s)[i] <= ToInts(x)[i] <= ToInts(e)[i]
    {
      OrderAt(x, s, e, i);
    }
  }

  /** One byte of the box: byte `i` of `xs` lies between the bytes of `bs & ms` and `(bs & ms) | !ms` exactly when it agrees with `bs` under `ms`. */
  lemma CoordAt(xs: seq<bv8>, bs: seq<bv8>, ms: seq<bv8>, i: nat)
    requires |xs| == |bs| == |ms| && i < |xs|
    requires LowOnes8(!ms[i])
    ensures AndBytes(bs, ms)[i] <= xs[i] <= OrBytes(AndBytes(bs, ms), NotBytes(ms))[i]
      <==> AndBytes(xs, ms)[i] == AndBytes(bs, ms)[i]
  {
  }

  /**
   * On byte strings: with the host bits of every byte of the mask `ms` a run
   * at the bottom, `xs` lies between `bs & ms` and `(bs & ms) | !ms` exactly
   * when it agrees with `bs` under `ms`.
   */
  lemma BetweenIffAgree(xs: seq<bv8>, bs: seq<bv8>, ms: seq<bv8>)
    requires |xs| == |bs| == |ms|
    requires forall i | 0 <= i < |ms| :: LowOnes8(!ms[i])
    ensures Between(xs, AndBytes(bs, ms), OrBytes(AndBytes(bs, ms), NotBytes(ms))) <==> AndBytes(xs, ms) == AndBytes(bs, ms)
  {
    forall i | 0 <= i < |xs|
      ensures AndBytes(bs, ms)[i] <= xs[i] <= OrBytes(AndBytes(bs, ms), NotBytes(ms))[i]
        <==> AndBytes(xs, ms)[i] == AndBytes(bs, ms)[i]
    {
      CoordAt(xs, bs, ms, i);
    }
    if forall i | 0 <= i < |xs| :: AndBytes(xs, ms)[i] == AndBytes(bs, ms)[i] {
      assert AndBytes(xs, ms) == AndBytes(bs, ms);
    }
  }

  lemma AndAt(a: seq<bv8>, b: seq<bv8>, i: nat)
    requires |a| == |b| && i < |a|
    ensures AndBytes(a, b)[i] == a[i] & b[i]
  {
  }

  lemma OrAt(a: seq<bv8>, b: seq<bv8>, i: nat)
    requires |a| == |b| && i < |a|
    ensures OrBytes(a, b)[i] == a[i] | b[i]
  {
  }

  lemma NotAt(a: seq<bv8>, i: nat)
    requires i < |a|
    ensures NotBytes(a)[i] == !a[i]
  {
  }

  /** A string of four bytes is the display of its bytes. */
  lemma EqFour(r: seq<bv8>, a: bv8, b: bv8, c: bv8, d: bv8)
    requires |r| == 4 && r[0] == a && r[1] == b && r[2] == c && r[3] == d
    ensures r == [a, b, c, d]
  {
  }

  /** The bytes of `x & y` are the bytes of `x` and of `y`, anded. */
  lemma UnpackAnd(x: bv32, y: bv32)
    ensures Unpack(x & y) == AndBytes(Unpack(x), Unpack(y))
  {
    AndOfBytes(x, y, x & y);
    AndAt(Unpack(x), Unpack(y), 0);
    AndAt(Unpack(x), Unpack(y), 1);
    AndAt(Unpack(x), Unpack(y), 2);
    AndAt(Unpack(x), Unpack(y), 3);
    EqFour(AndBytes(Unpack(x), Unpack(y)), ByteAt(x & y, 0), ByteAt(x & y, 1), ByteAt(x & y, 2), ByteAt(x & y, 3));
  }

  /** The bytes of `x | y` are the bytes of `x` and of `y`, ored. */
  lemma UnpackOr(x: bv32, y: bv32)
    ensures Unpack(x | y) == OrBytes(Unpack(x), Unpack(y))
  {
    OrOfBytes(x, y, x | y);
    OrAt(Unpack(x), Unpack(y), 0);
    OrAt(Unpack(x), Unpack(y), 1);
    OrAt(Unpack(x), Unpack(y), 2);
    OrAt(Unpack(x), Unpack(y), 3);
    EqFour(OrBytes(Unpack(x), Unpack(y)), ByteAt(x | y, 0), ByteAt(x | y, 1), ByteAt(x | y, 2), ByteAt(x | y, 3));
  }

  /** The bytes of `!x` are the bytes of `x`, complemented. */
  lemma UnpackNot(x: bv32)
    ensures Unpack(!x) == NotBytes(Unpack(x))
  {
    NotOfBytes(x, !x);
    NotAt(Unpack(x), 0);
    NotAt(Unpack(x), 1);
    NotAt(Unpack(x), 2);
    NotAt(Unpack(x), 3);
    EqFour(NotBytes(Unpack(x)), ByteAt(!x, 0), ByteAt(!x, 1), ByteAt(!x, 2), ByteAt(!x, 3));
  }

  /** Every byte of a mask whose host bits form a low run has host bits forming a low run. */
  lemma MaskBytes(m: bv32)
    requires LowOnes(!m)
    ensures forall i | 0 <= i < 4 :: LowOnes8(!Unpack(m)[i])
  {
    LowOnesBytes(!m);
    UnpackNot(m);
    assert forall i | 0 <= i < 4 :: !Unpack(m)[i] == Unpack(!m)[i];
  }

  /** On byte strings, with the corners and the masked string given: in the box exactly when agreeing under the mask. */
  lemma SeqBox(xs: seq<bv8>, bs: seq<bv8>, ms: seq<bv8>, s: seq<bv8>, e: seq<bv8>, xm: seq<bv8>)
    requires |xs| == |bs| == |ms|
    requires forall i | 0 <= i < |ms| :: LowOnes8(!ms[i])
    requires s == AndBytes(bs, ms) && e == OrBytes(s, NotBytes(ms)) && xm == AndBytes(xs, ms)
    ensures InBox(ToInts(xs), ToInts(s), ToInts(e)) <==> xm == s
  {
    BetweenIffAgree(xs, bs, ms);
    BetweenInBox(xs, s, e);
  }

  /** The bytes of the corners and of the masked address are the bytewise combinations. */
  lemma UnpackCorners(x: bv32, b: bv32, m: bv32)
    ensures Unpack(b & m) == AndBytes(Unpack(b), Unpack(m))
    ensures Unpack((b & m) | !m) == OrBytes(Unpack(b & m), NotBytes(Unpack(m)))
    ensures Unpack(x & m) == AndBytes(Unpack(x), Unpack(m))
  {
    UnpackAnd(b, m);
    UnpackNot(m);
    UnpackOr(b & m, !m);
    UnpackAnd(x, m);
  }

  /** Words are equal exactly when their bytes are. */
  lemma UnpackEq(u: bv32, v: bv32)
    ensures Unpack(u) == Unpack(v) <==> u == v
  {
    if Unpack(u) == Unpack(v) {
      UnpackInjective(u, v);
    }
  }

  /**
   * On words: with `m` a mask whose host bits form a low run, the point of `x`
   * lies in the box between the points of `b & m` and `(b & m) | !m` exactly
   * when `x` agrees with `b` under `m`.
   */
  lemma BoxIffAgree(x: bv32, b: bv32, m: bv32)
    requires LowOnes(!m)
    ensures InBox(ToInts(Unpack(x)), ToInts(Unpack(b & m)), ToInts(Unpack((b & m) | !m))) <==> x & m == b & m
  {
    MaskBytes(m);
    UnpackCorners(x, b, m);
    SeqBox(Unpack(x), Unpack(b), Unpack(m), Unpack(b & m), Unpack((b & m) | !m), Unpack(x & m));
    UnpackEq(x & m, b & m);
  }

  /** `startIp` is the address and the mask. */
  lemma StartIs(ip: bv32, prefix: nat, m: bv32)
    requires prefix <= 32 && m == Mask(prefix)
    ensures Start(ip, prefix) == ip & m
  {
  }

  /** `endIp` is the address and the mask, or the host bits. */
  lemma EndIs(ip: bv32, prefix: nat, m: bv32)
    requires prefix <= 32 && m == Mask(prefix)
    ensures End(ip, prefix) == (ip & m) | !m
  {
  }

  /**
   * The box the tree is searched with holds exactly the addresses of the
   * subnet: the point of an address `x` lies between the unpacked start and
   * end of the subnet of `ip` if and only if `x` agrees with `ip` on the first
   * `prefix` bits.
   */
  lemma InBoxIffSamePrefix(ip: bv32, prefix: nat, x: bv32)
    requires prefix <= 32
    ensures InBox(ToInts(Unpack(x)), ToInts(Unpack(Start(ip, prefix))), ToInts(Unpack(End(ip, prefix))))
      <==> Start(x, prefix) == Start(ip, prefix)
  {
    var m := Mask(prefix);
    StartIs(ip, prefix, m);
    StartIs(x, prefix, m);
    EndIs(ip, prefix, m);
    BoxIffAgree(x, ip, m);
  }

  // ---------------------------------------------------------------------
  // Properties of the bounds
  // ---------------------------------------------------------------------

  /** Masking never raises an address. */
  lemma MaskedBelow(ip: bv32, m: bv32)
    ensures ip & m <= ip
  {
  }

  /** Setting the host bits never lowers an address. */
  lemma FilledAbove(ip: bv32, m: bv32)
    ensures ip <= (ip & m) | !m
  {
  }

  /** The first and last addresses of the subnet enclose the base address. */
  lemma StartBelowEnd(ip: bv32, prefix: nat)
    requires prefix <= 32
    ensures Start(ip, prefix) <= ip <= End(ip, prefix)
  {
    var m := Mask(prefix);
    StartIs(ip, prefix, m);
    EndIs(ip, prefix, m);
    MaskedBelow(ip, m);
    FilledAbove(ip, m);
  }

  /** An address that agrees with `ip` on the first `prefix` bits is not below `startIp`. */
  lemma SamePrefixAboveStart(ip: bv32, prefix: nat, x: bv32)
    requires prefix <= 32 && Start(x, prefix) == Start(ip, prefix)
    ensures Start(ip, prefix) <= x
  {
    MaskedBelow(x, Mask(prefix));
  }

  /** An address that agrees with `ip` on the first `prefix` bits is not above `endIp`. */
  lemma SamePrefixBelowEnd(ip: bv32, prefix: nat, x: bv32)
    requires prefix <= 32 && Start(x, prefix) == Start(ip, prefix)
    ensures x <= End(ip, prefix)
  {
    FilledAbove(x, Mask(prefix));
  }

  /** A lower bound on `startIp` is one on the masked address. */
  lemma AboveMasked(ip: bv32, prefix: nat, x: bv32, m: bv32)
    requires prefix <= 32 && m == Mask(prefix) && Start(ip, prefix) <= x
    ensures ip & m <= x
  {
    StartIs(ip, prefix, m);
  }

  /** An upper bound on `endIp` is one on the masked address with the host bits set. */
  lemma BelowFilled(ip: bv32, prefix: nat, x: bv32, m: bv32)
    requires prefix <= 32 && m == Mask(prefix) && x <= End(ip, prefix)
    ensures x <= (ip & m) | !m
  {
    EndIs(ip, prefix, m);
  }

  /** With host bits that form a low run, a word between `b & m` and `(b & m) | !m` agrees with `b` under `m`. */
  lemma IntervalAgrees(x: bv32, b: bv32, m: bv32)
    requires LowOnes(!m)
    requires b & m <= x <= (b & m) | !m
    ensures x & m == b & m
  {
  }

  /** An address between `startIp` and `endIp` agrees with `ip` on the first `prefix` bits. */
  lemma IntervalSamePrefix(ip: bv32, prefix: nat, x: bv32)
    requires prefix <= 32 && Start(ip, prefix) <= x <= End(ip, prefix)
    ensures Start(x, prefix) == Start(ip, prefix)
  {
    var m := Mask(prefix);
    AboveMasked(ip, prefix, x, m);
    BelowFilled(ip, prefix, x, m);
    IntervalAgrees(x, ip, m);
    StartIs(x, prefix, m);
    StartIs(ip, prefix, m);
  }

  /**
   * The subnet as an interval of words: `startIp <= x <= endIp` if and only if
   * `x` agrees with `ip` on the first `prefix` bits.
   */
  lemma IntervalIffSamePrefix(ip: bv32, prefix: nat, x: bv32)
    requires prefix <= 32
    ensures Start(ip, prefix) <= x <= End(ip, prefix) <==> Start(x, prefix) == Start(ip, prefix)
  {
    if Start(x, prefix) == Start(ip, prefix) {
      SamePrefixAboveStart(ip, prefix, x);
      SamePrefixBelowEnd(ip, prefix, x);
    }
    if Start(ip, prefix) <= x <= End(ip, prefix) {
      IntervalSamePrefix(ip, prefix, x);
    }
  }

  /** With prefix 0 the mask is empty: the subnet is every address. */
  lemma ZeroMask(ip: bv32)
    ensures Start(ip, 0) == 0 && End(ip, 0) == 0xFFFF_FFFF
  {
  }

  /** With prefix 0 the box is the whole address space, 0.0.0.0 to 255.255.255.255. */
  lemma PrefixZero(baseAddr: seq<int>)
    requires |baseAddr| == 4
    ensures LowPoint(baseAddr, 0) == [0, 0, 0, 0]
    ensures HighPoint(baseAddr, 0) == [255, 255, 255, 255]
  {
    ZeroMask(Address(baseAddr));
    UnpackBytes(0, 0, 0, 0);
    UnpackBytes(0xFF, 0xFF, 0xFF, 0xFF);
  }

  /** With prefix 32 the mask is full: the subnet is the base address alone. */
  lemma FullMask(ip: bv32)
    ensures Start(ip, 32) == ip && End(ip, 32) == ip
  {
  }

  /** With prefix 32 both corners are the base address, each component cast to a byte. */
  lemma PrefixFull(baseAddr: seq<int>)
    requires |baseAddr| == 4
    ensures LowPoint(baseAddr, 32) == ToInts(Truncated(baseAddr))
    ensures HighPoint(baseAddr, 32) == ToInts(Truncated(baseAddr))
  {
    FullMask(Address(baseAddr));
  }

  /** With prefix 32 and components that are bytes, both corners are the base address itself. */
  lemma PrefixFullAddress(baseAddr: seq<int>)
    requires IsAddress(baseAddr)
    ensures LowPoint(baseAddr, 32) == baseAddr && HighPoint(baseAddr, 32) == baseAddr
  {
    FullMask(Address(baseAddr));
    AddressPoint(baseAddr);
  }

  /** The corners are addresses, and the low corner lies below the high one on every axis. */
  lemma CornersOrdered(baseAddr: seq<int>, prefix: nat)
    requires |baseAddr| == 4 && prefix <= 32
    ensures IsAddress(LowPoint(baseAddr, prefix)) && IsAddress(HighPoint(baseAddr, prefix))
    ensures forall i | 0 <= i < 4 :: LowPoint(baseAddr, prefix)[i] <= HighPoint(baseAddr, prefix)[i]
  {
    var ip := Address(baseAddr);
    WordIsAddress(Start(ip, prefix));
    WordIsAddress(End(ip, prefix));
    InBoxIffSamePrefix(ip, prefix, ip);
  }

  /**
   * The query of ips_query.cpp: range-searching a tree of addresses with the
   * box of a subnet reports each stored address exactly as often as it is
   * stored when it shares the first `prefix` bits with the base address, and
   * never otherwise.
   */
  lemma SubnetQuery(t: Tree, baseAddr: seq<int>, prefix: nat, q: seq<int>)
    requires WellFormed(t, 4) && KdInvariant(t, 0, 4) && |baseAddr| == 4 && prefix <= 32 && IsAddress(q)
    ensures multiset(RangeSearch(t, LowPoint(baseAddr, prefix), HighPoint(baseAddr, prefix), 0, 4))[q]
      == if Start(Address(q), prefix) == Start(Address(baseAddr), prefix) then Elems(t)[q] else 0
  {
    var low, high := LowPoint(baseAddr, prefix), HighPoint(baseAddr, prefix);
    RangeSearchComplete(t, low, high, 0, 4);
    BoxElemsCount(t, low, high, 4, q);
    AddressPoint(q);
    InBoxIffSamePrefix(Address(baseAddr), prefix, Address(q));
  }
}
