/** RTP packets, and the circular order of their 16-bit sequence numbers (section 5.1 of RFC 3550). */
module Packets {
  import opened Base

  /**
    An RTP packet. `ext` is the extended sequence number that the sender counted; the wire carries
    its low 16 bits only, and the programs read nothing else of it.
   */
  datatype Rtp = Rtp(valid: bool, ext: int, timestamp: U32, isTs: bool, marker: bool, payload: int) {
    function Seqnum(): U16 { ext % POW2_16 }
  }

  /** A received packet with the date at which it is due. */
  datatype Packet = Packet(rtp: Rtp, date: int) {
    function Seqnum(): U16 { rtp.Seqnum() }

    function Ext(): int { rtp.ext }
  }

  /** The test by which reordertp.c decides that one sequence number comes after another. */
  predicate Newer(a: U16, b: U16) {
    (POW2_16 * 3 / 2 + a - b) % POW2_16 > POW2_16 / 2
  }

  /**
    The test means that a lies strictly ahead of b, by less than half of the circle. Hence it tells the
    true order of two extended numbers exactly when their distance does not leave the half-space.
   */
  lemma NewerIsAhead(a: int, b: int)
    ensures Newer(a % POW2_16, b % POW2_16) <==> 1 <= (a - b) % POW2_16 < POW2_16 / 2
    ensures -(POW2_16 / 2) <= a - b < POW2_16 / 2 ==> (Newer(a % POW2_16, b % POW2_16) <==> a > b)
  {
    var d := a % POW2_16 - b % POW2_16;
    assert (a - b) % POW2_16 == d % POW2_16 by {
      assert a - b == d + (a / POW2_16 - b / POW2_16) * POW2_16;
    }
  }
}
