/** The age check of received messages, on timestamps that wrap around (section 9.5.2 of ETSI EN 302 636-4-1). */
module AgeCheck {

  import opened MachineWords

  /** `UINT64_MAX`, for a message without a usable timestamp. */
  const NO_TIMESTAMP: nat := TWO_64 - 1

  /** Five minutes. */
  const GAP: int := 300000

  /** The signed number with the same 64 bits. */
  function AsSigned(u: nat): (i: int)
    ensures u < TWO_64 ==> -TWO_63 <= i < TWO_63 && (i == u || i == u - TWO_64)
  {
    if u < TWO_63 then u else u - TWO_64
  }

  /** The condition under which a message counts as older than what is stored. */
  predicate Older(rx: nat, stored: nat) {
    var gap := AsSigned(rx) - AsSigned(stored);
    (rx > stored && gap > GAP) || (rx < stored && gap > -GAP)
  }

  /** The timestamp of a time in milliseconds. */
  function Timestamp(t: nat): (ts: nat)
    ensures ts < TWO_32
  {
    t % TWO_32
  }

  /** No timestamp was reset between the two times. */
  predicate SameRound(t: nat, u: nat) {
    t / TWO_32 == u / TWO_32
  }

  /**
   Exactly when the check tells the older message from the newer one, for times less than a
   round of the clock apart: within a round up to the gap, and across a reset except for the
   last five minutes of a round.
   */
  lemma CheckExact(rx: nat, stored: nat)
    requires -TWO_32 < rx - stored < TWO_32
    ensures (Older(Timestamp(rx), Timestamp(stored)) <==> rx < stored)
       <==> if SameRound(rx, stored) then -GAP < rx - stored <= GAP
            else GAP - TWO_32 < rx - stored <= TWO_32 - GAP
  {
  }

  /** For messages less than five minutes apart the check is right. */
  lemma CheckRight(rx: nat, stored: nat)
    requires -GAP < rx - stored <= GAP
    ensures Older(Timestamp(rx), Timestamp(stored)) <==> rx < stored
  {
    CheckExact(rx, stored);
  }

  /** A timestamp stored as missing makes every later message with a timestamp count as older. */
  lemma MissingBlocks(rx: nat)
    requires rx < TWO_63
    ensures Older(rx, NO_TIMESTAMP)
  {
  }

  /** The timestamp stored after a message, when the check is in force. */
  function Kept(stored: nat, rx: nat): nat {
    if Older(rx, stored) then stored else rx
  }
}
