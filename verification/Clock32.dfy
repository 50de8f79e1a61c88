/** The 32-bit millisecond clock and its wrapping comparison. */
module Clock32 {
  import opened Bytes

  const SPAN: int := 0x1_0000_0000
  const HALF: int := 0x8000_0000

  /** The signed 32-bit difference now - mark is not negative. */
  predicate Reached(now: u32, mark: u32)
  {
    (now - mark) % SPAN < HALF
  }

  /** The wrapped test depends on the true distance only, and agrees with true time
      exactly while the two instants are within the half range of each other. */
  lemma ReachedExact(now: int, mark: int)
    ensures Reached(now % SPAN, mark % SPAN) <==> (now - mark) % SPAN < HALF
    ensures -HALF <= now - mark < HALF ==> (Reached(now % SPAN, mark % SPAN) <==> now >= mark)
    ensures HALF <= now - mark < SPAN ==> !Reached(now % SPAN, mark % SPAN)
  {
  }

  /** A delay added to a wrapped instant. */
  lemma AfterDelay(now: nat, delay: nat)
    ensures (now % SPAN + delay) % SPAN == (now + delay) % SPAN
  {
  }
}
