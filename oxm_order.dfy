/**
 * The display order of a match field, derived from its 32-bit OXM type-len
 * (OpenFlow Switch Specification 1.2, section A.2.3.2: OXM class in the high 16 bits,
 * then field, has-mask bit and payload length in the low 16 bits).
 *
 * A type-len is an unsigned 32-bit integer. On such values the mask test
 * `t & 0xffff0000 == 0x80000000` is `t / 0x10000 == 0x8000` and `t & 0xffff` is
 * `t % 0x10000`; the model states them that way.
 */
module OxmOrder {

  type uint32 = x: int | 0 <= x < 0x1_0000_0000

  /** The OXM class: the high 16 bits of the type-len. */
  function OxmClass(typeLen: uint32): int {
    typeLen / 0x1_0000
  }

  /** The low 16 bits of the type-len: field, has-mask bit and length. */
  function LowHalf(typeLen: uint32): int {
    typeLen % 0x1_0000
  }

  /** The OXM class is OFPXMC_OPENFLOW_BASIC, 0x8000. */
  predicate IsBasic(typeLen: uint32) {
    OxmClass(typeLen) == 0x8000
  }

  /** Display order: the low half for a basic field, the whole type-len otherwise. */
  function Order(typeLen: uint32): int {
    if IsBasic(typeLen) then LowHalf(typeLen) else typeLen
  }

  /** The division form of `Order` is the source's mask expression on the 32-bit type-len. */
  lemma OrderIsMaskExpr(t: bv32)
    ensures Order(t as int) == if t & 0xffff0000 == 0x80000000 then (t & 0x0000ffff) as int else t as int
  {
    HighMaskIsBasic(t);
    if t & 0xffff0000 == 0x80000000 {
      BasicLowMask(t);
      BasicSubtract(t);
      OrderOfBasic(t as int);
    }
  }

  /** The source's class test on the bits is `IsBasic` on the value. */
  lemma HighMaskIsBasic(t: bv32)
    ensures (t & 0xffff0000 == 0x80000000) <==> IsBasic(t as int)
  {
  }

  /** With class 0x8000, the low half is the type-len less 0x80000000, and the type-len is at least that. */
  lemma BasicLowMask(t: bv32)
    requires t & 0xffff0000 == 0x80000000
    ensures t & 0x0000ffff == t - 0x80000000 && t >= 0x80000000
  {
  }

  lemma BasicSubtract(t: bv32)
    requires t >= 0x80000000
    ensures (t - 0x80000000) as int == t as int - 0x80000000
  {
  }

  /** A basic field's order is its type-len without the class, so it fits in 16 bits. */
  lemma OrderOfBasic(t: uint32)
    requires IsBasic(t)
    ensures Order(t) == t - 0x8000_0000
    ensures 0 <= Order(t) < 0x1_0000
  {
  }

  /** A field's order fits in 16 bits exactly when it is basic or of OXM class 0x0000. */
  lemma OrderBelow64K(t: uint32)
    ensures Order(t) < 0x1_0000 <==> IsBasic(t) || OxmClass(t) == 0
  {
  }

  /**
   * A basic field sorts before every non-basic field whose OXM class is not 0x0000
   * (NXM_1 0x0001, experimenter 0xffff and every other class).
   */
  lemma BasicBeforeNonZeroClass(a: uint32, b: uint32)
    requires IsBasic(a) && !IsBasic(b) && OxmClass(b) != 0
    ensures Order(a) < Order(b)
  {
    OrderOfBasic(a);
    OrderBelow64K(b);
  }

  /** Among basic fields the order follows the type-len, so distinct basic fields have distinct orders. */
  lemma BasicOrderFollowsTypeLen(a: uint32, b: uint32)
    requires IsBasic(a) && IsBasic(b)
    ensures Order(a) < Order(b) <==> a < b
    ensures Order(a) == Order(b) <==> a == b
  {
    OrderOfBasic(a);
    OrderOfBasic(b);
  }

  /** Two non-basic fields are ordered by their whole type-len. */
  lemma OtherOrderIsTypeLen(a: uint32, b: uint32)
    requires !IsBasic(a) && !IsBasic(b)
    ensures Order(a) < Order(b) <==> a < b
  {
  }

  /**
   * Fields of OXM class 0x0000 (NXM_0) interleave with basic ones: type-len 0x00000004
   * sorts before the basic eth_dst, type-len 0x80000606.
   */
  lemma ClassZeroSortsAmongBasic()
    ensures IsBasic(0x8000_0606) && !IsBasic(0x0000_0004)
    ensures Order(0x0000_0004) < Order(0x8000_0606)
  {
  }
}
