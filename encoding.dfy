/** Optional results: `None` stands for Java's `null` return and for an
    exception that escapes the modelled code. */
module Wrappers {
  datatype Option<T> = None | Some(value: T)
}

/** The integers of an MVT geometry command buffer: command headers
    (section 4.3.1 of the Mapbox Vector Tile Specification 2.1) and zig-zag
    encoded parameters (section 4.3.2). Every value is modelled as the
    unsigned 32-bit integer that the buffer carries. */
module Encoding {

  datatype Command = MoveTo | LineTo | ClosePath {
    /** The 3-bit command id. */
    function Id(): nat {
      match this
      case MoveTo => 1
      case LineTo => 2
      case ClosePath => 7
    }
  }

  /** Largest repeat count a header can carry: the 29 bits above the id. */
  const CMD_HDR_LEN_MAX: nat := 0x1FFF_FFFF

  const UINT32_LIMIT: int := 0x1_0000_0000
  const INT32_LIMIT: int := 0x8000_0000

  /** `(id & 0x7) | (count << 3)`. The id is below 8, so the mask keeps it and
      the shifted count does not overlap it: the bitwise or is a sum. */
  function CmdHdr(cmd: Command, count: nat): nat {
    cmd.Id() + 8 * count
  }

  /** The header that ends a ring: ClosePath with count 1. */
  function ClosePathCmdHdr(): nat {
    CmdHdr(ClosePath, 1)
  }

  /** Reading a header back, as a decoder does: `hdr & 0x7` and `hdr >> 3`. */
  function HdrId(hdr: nat): nat { hdr % 8 }
  function HdrCount(hdr: nat): nat { hdr / 8 }

  /** Every header the encoder writes fits the 32 bits of a buffer entry. */
  lemma CmdHdrFits(cmd: Command, count: nat)
    requires count <= CMD_HDR_LEN_MAX
    ensures CmdHdr(cmd, count) < UINT32_LIMIT
  {
  }

  lemma CmdHdrDecodes(cmd: Command, count: nat)
    ensures HdrId(CmdHdr(cmd, count)) == cmd.Id()
    ensures HdrCount(CmdHdr(cmd, count)) == count
  {
  }

  /** `(n << 1) ^ (n >> 31)` on a 32-bit n: non-negative values go to the even
      numbers, negative values to the odd ones. */
  function ZigZag(n: int): nat {
    if n >= 0 then 2 * n else -2 * n - 1
  }

  /** The decoder's inverse, `(z >>> 1) ^ -(z & 1)`. */
  function UnZigZag(z: nat): int {
    if z % 2 == 0 then z / 2 else -((z + 1) / 2)
  }

  /** A delta below 2^30 in magnitude encodes to a non-negative Java `int`. */
  lemma ZigZagFits(n: int)
    requires -INT32_LIMIT / 2 <= n < INT32_LIMIT / 2
    ensures ZigZag(n) < INT32_LIMIT
  {
  }

  lemma ZigZagRoundTrip(n: int)
    ensures UnZigZag(ZigZag(n)) == n
  {
  }

  lemma ZigZagInjective(a: int, b: int)
    ensures ZigZag(a) == ZigZag(b) ==> a == b
  {
    ZigZagRoundTrip(a);
    ZigZagRoundTrip(b);
  }
}
