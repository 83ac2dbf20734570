/** Byte order: the `htonll`/`ntohll` macros of src/common/endian.hh and
    src/utils/endian.hh, the `htonl`/`htons` family they are built on, and
    how host-order integers sit in memory. The host's byte order is a
    parameter, standing for `__BYTE_ORDER__`. */
module Endian {

  datatype Host = LittleEndian | BigEndian

  /** Conversions to a narrower unsigned type keep the low bits. */
  function Low8(x: bv64): bv8 { (x & 0xFF) as bv8 }
  function Low32(x: bv64): bv32 { (x & 0xFFFF_FFFF) as bv32 }

  /** The eight bytes of a 64-bit value, least significant first. */
  function LittleEndianBytes(x: bv64): seq<bv8>
  {
    [Low8(x), Low8(x >> 8), Low8(x >> 16), Low8(x >> 24),
     Low8(x >> 32), Low8(x >> 40), Low8(x >> 48), Low8(x >> 56)]
  }

  /** The eight bytes of a 64-bit value, most significant first (network order). */
  function BigEndianBytes(x: bv64): seq<bv8>
  {
    [Low8(x >> 56), Low8(x >> 48), Low8(x >> 40), Low8(x >> 32),
     Low8(x >> 24), Low8(x >> 16), Low8(x >> 8), Low8(x)]
  }

  /** Byte swaps, as the C library performs them on a little-endian host. */
  function Swap16(x: bv16): bv16
  {
    (x << 8) | (x >> 8)
  }

  function Swap32(x: bv32): bv32
  {
    (x << 24) | ((x << 8) & 0x00FF_0000) | ((x >> 8) & 0x0000_FF00) | (x >> 24)
  }

  /** htons: identity on a big-endian host, byte swap on a little-endian one. */
  function Htons(host: Host, x: bv16): bv16
  {
    if host.BigEndian? then x else Swap16(x)
  }

  /** htonl, and ntohl, which is the same function. */
  function Htonl(host: Host, x: bv32): bv32
  {
    if host.BigEndian? then x else Swap32(x)
  }

  function Ntohl(host: Host, x: bv32): bv32
  {
    Htonl(host, x)
  }

  /** src/common/endian.hh: `htonl((x))` receives the low 32 bits of `x`
      (the conversion to uint32_t truncates) and `htonl((x) >> 32)` the high 32. */
  function Htonll(host: Host, x: bv64): bv64
  {
    if host.BigEndian? then x
    else ((Htonl(host, Low32(x)) as bv64) << 32) | (Htonl(host, Low32(x >> 32)) as bv64)
  }

  /** src/common/endian.hh: the same expression with ntohl. */
  function Ntohll(host: Host, x: bv64): bv64
  {
    if host.BigEndian? then x
    else ((Ntohl(host, Low32(x)) as bv64) << 32) | (Ntohl(host, Low32(x >> 32)) as bv64)
  }

  /** Byte k of the 64-bit swap is byte 7 - k of its argument. */
  lemma {:induction false} SwapBytes(x: bv64)
    ensures LittleEndianBytes(Htonll(LittleEndian, x)) == BigEndianBytes(x)
  {
    var h := Htonll(LittleEndian, x);
    SwapLowBytes(x, h);
    SwapHighBytes(x, h);
  }

  /** The low four bytes of the swap are the high four of its argument,
      reversed: they come from `htonl((x) >> 32)`. */
  lemma SwapLowBytes(x: bv64, h: bv64)
    requires h == Htonll(LittleEndian, x)
    ensures Low8(h) == Low8(x >> 56) && Low8(h >> 8) == Low8(x >> 48)
    ensures Low8(h >> 16) == Low8(x >> 40) && Low8(h >> 24) == Low8(x >> 32)
  {
  }

  /** The high four bytes of the swap are the low four of its argument,
      reversed: they come from `htonl((x))`, shifted up 32 bits. */
  lemma SwapHighBytes(x: bv64, h: bv64)
    requires h == Htonll(LittleEndian, x)
    ensures Low8(h >> 32) == Low8(x >> 24) && Low8(h >> 40) == Low8(x >> 16)
    ensures Low8(h >> 48) == Low8(x >> 8) && Low8(h >> 56) == Low8(x)
  {
  }

  /** ntohll undoes htonll (and, on either host, htonll undoes ntohll). */
  lemma NtohllInvertsHtonll(host: Host, x: bv64)
    ensures Ntohll(host, Htonll(host, x)) == x
    ensures Htonll(host, Ntohll(host, x)) == x
  {
  }

  /** Memory as the host sees it: the bytes that `memcpy(dst, &v, 8)` writes
      and the value that `((uint64_t*)buf)[k]` reads. */
  function Store64(host: Host, v: bv64): (b: seq<bv8>)
    ensures |b| == 8
  {
    if host.LittleEndian? then LittleEndianBytes(v) else BigEndianBytes(v)
  }

  /** The value whose bytes, least significant first, are b0 .. b7. */
  function Pack(b0: bv8, b1: bv8, b2: bv8, b3: bv8, b4: bv8, b5: bv8, b6: bv8, b7: bv8): bv64
  {
    (b0 as bv64) | (b1 as bv64 << 8) | (b2 as bv64 << 16) | (b3 as bv64 << 24)
      | (b4 as bv64 << 32) | (b5 as bv64 << 40) | (b6 as bv64 << 48) | (b7 as bv64 << 56)
  }

  function LittleEndian64(b: seq<bv8>): bv64
    requires |b| == 8
  {
    Pack(b[0], b[1], b[2], b[3], b[4], b[5], b[6], b[7])
  }

  /** The value of eight bytes read most significant first. */
  function BigEndian64(b: seq<bv8>): bv64
    requires |b| == 8
  {
    Pack(b[7], b[6], b[5], b[4], b[3], b[2], b[1], b[0])
  }

  function Load64(host: Host, b: seq<bv8>): bv64
    requires |b| == 8
  {
    if host.LittleEndian? then LittleEndian64(b) else BigEndian64(b)
  }

  lemma LoadStore64(host: Host, v: bv64)
    ensures Load64(host, Store64(host, v)) == v
  {
    var b := Store64(host, v);
    if host.LittleEndian? {
      assert b[0] == Low8(v) && b[1] == Low8(v >> 8) && b[2] == Low8(v >> 16) && b[3] == Low8(v >> 24);
      assert b[4] == Low8(v >> 32) && b[5] == Low8(v >> 40) && b[6] == Low8(v >> 48) && b[7] == Low8(v >> 56);
    } else {
      assert b[7] == Low8(v) && b[6] == Low8(v >> 8) && b[5] == Low8(v >> 16) && b[4] == Low8(v >> 24);
      assert b[3] == Low8(v >> 32) && b[2] == Low8(v >> 40) && b[1] == Low8(v >> 48) && b[0] == Low8(v >> 56);
    }
  }

  /** Storing htonll(v) lays `v` out most significant byte first, on either host. */
  lemma StoreHtonllIsBigEndian(host: Host, v: bv64)
    ensures Store64(host, Htonll(host, v)) == BigEndianBytes(v)
    ensures BigEndian64(Store64(host, Htonll(host, v))) == v
  {
    if host.LittleEndian? {
      SwapBytes(v);
    }
  }

  /** Loading eight bytes and applying ntohll gives their network-order value,
      on either host. */
  lemma NtohllLoadIsBigEndian(host: Host, b: seq<bv8>)
    requires |b| == 8
    ensures Ntohll(host, Load64(host, b)) == BigEndian64(b)
  {
    if host.LittleEndian? {
      var x := LittleEndian64(b);
      var y := BigEndian64(b);
      SwapBytes(y);
      BytesOfLoad(b);
      NtohllInvertsHtonll(host, y);
      assert x == Htonll(host, y) by {
        LittleEndianBytesInjective(x, Htonll(host, y));
      }
    }
  }

  lemma BytesOfLoad(b: seq<bv8>)
    requires |b| == 8
    ensures LittleEndianBytes(LittleEndian64(b)) == b
    ensures BigEndianBytes(BigEndian64(b)) == b
  {
    BytesOfLittleEndian(b);
    BytesOfBigEndian(b);
  }

  lemma PackBytes(b0: bv8, b1: bv8, b2: bv8, b3: bv8, b4: bv8, b5: bv8, b6: bv8, b7: bv8)
    ensures LittleEndianBytes(Pack(b0, b1, b2, b3, b4, b5, b6, b7)) == [b0, b1, b2, b3, b4, b5, b6, b7]
    ensures BigEndianBytes(Pack(b0, b1, b2, b3, b4, b5, b6, b7)) == [b7, b6, b5, b4, b3, b2, b1, b0]
  {
  }

  lemma BytesOfLittleEndian(b: seq<bv8>)
    requires |b| == 8
    ensures LittleEndianBytes(LittleEndian64(b)) == b
  {
    PackBytes(b[0], b[1], b[2], b[3], b[4], b[5], b[6], b[7]);
    assert b == [b[0], b[1], b[2], b[3], b[4], b[5], b[6], b[7]];
  }

  lemma BytesOfBigEndian(b: seq<bv8>)
    requires |b| == 8
    ensures BigEndianBytes(BigEndian64(b)) == b
  {
    PackBytes(b[7], b[6], b[5], b[4], b[3], b[2], b[1], b[0]);
    assert b == [b[0], b[1], b[2], b[3], b[4], b[5], b[6], b[7]];
  }

  lemma LittleEndianBytesInjective(x: bv64, y: bv64)
    requires LittleEndianBytes(x) == LittleEndianBytes(y)
    ensures x == y
  {
    var u, w := LittleEndianBytes(x), LittleEndianBytes(y);
    assert u[0] == w[0] && u[1] == w[1] && u[2] == w[2] && u[3] == w[3];
    assert u[4] == w[4] && u[5] == w[5] && u[6] == w[6] && u[7] == w[7];
  }

  /** How the macro argument of src/utils/endian.hh is written: a single
      operand, or two operands joined by a binary operator. `x >> 32` there
      is not parenthesised, so the shift binds as the C grammar says. */
  datatype Op = Plus | BitAnd | BitOr

  datatype Arg = Operand(v: bv64) | Binary(op: Op, l: bv64, r: bv64)

  /** `+` binds tighter than `>>`; `&` and `|` bind looser. */
  predicate BindsLooserThanShift(op: Op)
  {
    op != Plus
  }

  function Apply(op: Op, l: bv64, r: bv64): bv64
  {
    match op
    case Plus => l + r
    case BitAnd => l & r
    case BitOr => l | r
  }

  function Eval(a: Arg): bv64
  {
    match a
    case Operand(v) => v
    case Binary(op, l, r) => Apply(op, l, r)
  }

  /** The value of the text `a >> 32`. */
  function EvalShifted(a: Arg): bv64
  {
    match a
    case Operand(v) => v >> 32
    case Binary(op, l, r) =>
      if BindsLooserThanShift(op) then Apply(op, l, r >> 32) else Apply(op, l, r) >> 32
  }

  /** src/utils/endian.hh: `htonll(x)` expands to
      `((uint64_t)htonl(x) << 32) | htonl(x >> 32)`. */
  function HtonllUnparenthesised(host: Host, a: Arg): bv64
  {
    if host.BigEndian? then Eval(a)
    else ((Htonl(host, Low32(Eval(a))) as bv64) << 32) | (Htonl(host, Low32(EvalShifted(a))) as bv64)
  }

  function NtohllUnparenthesised(host: Host, a: Arg): bv64
  {
    if host.BigEndian? then Eval(a)
    else ((Ntohl(host, Low32(Eval(a))) as bv64) << 32) | (Ntohl(host, Low32(EvalShifted(a))) as bv64)
  }

  /** Shifting the text of an operand or a sum is the same as shifting its value. */
  lemma ShiftedSimpleArg(a: Arg)
    requires a.Operand? || !BindsLooserThanShift(a.op)
    ensures EvalShifted(a) == Eval(a) >> 32
  {
  }

  /** For an operand or a sum, the unparenthesised htonll agrees with
      src/common/endian.hh. */
  lemma HtonllUnparenthesisedAgrees(host: Host, a: Arg)
    requires a.Operand? || !BindsLooserThanShift(a.op)
    ensures HtonllUnparenthesised(host, a) == Htonll(host, Eval(a))
  {
    ShiftedSimpleArg(a);
  }

  /** The same for ntohll. */
  lemma NtohllUnparenthesisedAgrees(host: Host, a: Arg)
    requires a.Operand? || !BindsLooserThanShift(a.op)
    ensures NtohllUnparenthesised(host, a) == Ntohll(host, Eval(a))
  {
    ShiftedSimpleArg(a);
  }

  /** ... and so the unparenthesised ntohll undoes the unparenthesised htonll
      of such an argument. */
  lemma UnparenthesisedRoundTrip(host: Host, a: Arg)
    requires a.Operand? || !BindsLooserThanShift(a.op)
    ensures NtohllUnparenthesised(host, Operand(HtonllUnparenthesised(host, a))) == Eval(a)
  {
    HtonllUnparenthesisedAgrees(host, a);
    var h := HtonllUnparenthesised(host, a);
    NtohllUnparenthesisedAgrees(host, Operand(h));
    NtohllInvertsHtonll(host, Eval(a));
  }

  /** With `a | b` as the argument only `b` is shifted: on a little-endian
      host the result differs from the byte reversal of `a | b`. */
  lemma UnparenthesisedOrShiftsOnlyRightOperand()
    ensures HtonllUnparenthesised(LittleEndian, Binary(BitOr, 0x1_0000_0000, 0))
         != Htonll(LittleEndian, Eval(Binary(BitOr, 0x1_0000_0000, 0)))
  {
  }
}
