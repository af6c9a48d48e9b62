/**
 * Addresses as the neighbour cache sees them: an IPv6 address is 16 octets
 * (`uip_ipaddr_t`, read through its `u8[]` and `u16[]` views), a link-layer
 * address is an octet string (`rimeaddr_t`).
 */
module Ipv6 {

  /** An octet, `uint8_t`. */
  newtype byte = x: int | 0 <= x < 256

  /** An IPv6 address: its 16 octets in memory order, `u8[0]` .. `u8[15]`. */
  type IpAddr = a: seq<byte> | |a| == 16 witness seq(16, _ => 0)

  /** A link-layer address, the neighbour tables' native key. */
  type LlAddr = seq<byte>

  /**
   * A 16-bit word as it lies in memory, its two octets in address order.
   * Two words are equal exactly when both octets are, whatever the byte
   * order of the machine, so the model never needs to pick one.
   */
  datatype Word = Word(first: byte, second: byte)

  const ZeroWord := Word(0, 0)

  /** `a.u16[k]`: octets 2k and 2k+1. */
  function U16(a: IpAddr, k: nat): (w: Word)
    requires k < 8
  {
    Word(a[2 * k], a[2 * k + 1])
  }

  /** `a.u16[k] = w`: the address with word k overwritten and every other octet kept. */
  function SetU16(a: IpAddr, k: nat, w: Word): (r: IpAddr)
    requires k < 8
    ensures U16(r, k) == w
    ensures forall j :: 0 <= j < 16 && j != 2 * k && j != 2 * k + 1 ==> r[j] == a[j]
  {
    a[2 * k := w.first][2 * k + 1 := w.second]
  }

  /** `rimeaddr_cmp(a, &rimeaddr_null)`: the null link-layer address is all zero octets. */
  predicate IsNullLl(a: LlAddr)
  {
    forall i :: 0 <= i < |a| ==> a[i] == 0
  }

  /** `abs(x - y)` on two octets promoted to `int`, as C does before subtracting. */
  function OctetDistance(x: byte, y: byte): (d: nat)
    ensures d <= 255
    ensures d == 0 <==> x == y
  {
    if x >= y then (x - y) as int else (y - x) as int
  }
}
