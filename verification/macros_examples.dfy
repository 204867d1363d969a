/** The repository's JSON bridge scenario for a vector. */
module MacrosExamples {
  import opened Wrappers
  import opened Macros

  /** `Vec3 { x: 22.0, y: 23.0, z: 24.0 }` survives stringify-then-parse through
      its bridge under a codec that round-trips finite bridges (the floats as
      their IEEE 754 bits, all finite). */
  lemma JsonBridgeVec3(c: Codec<Vec3Bridge>)
    requires RoundTrips(c, Vec3BridgeFinite)
    ensures
      var v := Vec3(F32(0x41B0_0000), F32(0x41B8_0000), F32(0x41C0_0000));
      && JsonStringify(c, Vec3ToBridge, v).Ok?
      && JsonParse(c, BridgeToVec3, JsonStringify(c, Vec3ToBridge, v).value) == Ok(v)
  {
    Vec3JsonRoundTrip(c, Vec3(F32(0x41B0_0000), F32(0x41B8_0000), F32(0x41C0_0000)));
  }

  /** NaN and the infinities lie outside the round-trip domain; zero and the
      scenario's 22.0 lie inside it. */
  lemma FiniteExamples()
    ensures !Finite(F32(0x7FC0_0000)) && !Finite(F32(0x7F80_0000)) && !Finite(F32(0xFF80_0000))
    ensures Finite(F32(0)) && Finite(F32(0x8000_0000)) && Finite(F32(0x41B0_0000))
  {
  }

  /** `or_else!` picks the value or the fallback. */
  lemma OrElseExamples()
    ensures OrElse<int, string>(Ok(3), 7) == 3
    ensures OrElse<int, string>(Err("bad"), 7) == 7
  {
  }
}
