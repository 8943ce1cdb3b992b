/** Sizes and small definitions that several modules share. */
module Common {

  /** The largest size_t. */
  const SIZE_MAX: nat := 0xFFFF_FFFF_FFFF_FFFF

  /** The largest length the library accepts: SIZE_MAX / 128. */
  const PACKET_MAXLEN: nat := 0x1FF_FFFF_FFFF_FFFF

  function Abs(x: int): nat { if x < 0 then 0 - x else x }

  function Max(x: nat, y: nat): nat { if x < y then y else x }

  function Min(x: nat, y: nat): nat { if x < y then x else y }

  /** Mentioning Unfold opens definitions that are guarded by it; elsewhere their contents stay out of the solver's way. */
  ghost predicate Unfold(k: int) { true }
}
