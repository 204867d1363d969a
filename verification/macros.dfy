/** The fallback combinator and the serialisable "bridge" records that mirror the
    engine's vector, quaternion and transform types, with the JSON composition
    built on them. The numeric leaves are only ever copied, so an `f32` is kept
    as its 32-bit pattern and compared for equality only. */
module Macros {
  import opened Wrappers

  /** A 32-bit float, carried as its bit pattern. */
  datatype F32 = F32(bits: bv32)

  /** The float is finite: its IEEE 754 exponent field is not all ones, so it is
      neither an infinity nor a NaN. */
  predicate Finite(f: F32) {
    (f.bits >> 23) & 0xFF != 0xFF
  }

  /** The engine's vector, quaternion and transform types. */
  datatype Vec3 = Vec3(x: F32, y: F32, z: F32)
  datatype Quat = Quat(x: F32, y: F32, z: F32, w: F32)
  datatype Transform = Transform(translation: Vec3, rotation: Quat, scale: Vec3)

  /** Every leaf of the value is finite. */
  predicate Vec3Finite(v: Vec3) {
    Finite(v.x) && Finite(v.y) && Finite(v.z)
  }

  predicate QuatFinite(q: Quat) {
    Finite(q.x) && Finite(q.y) && Finite(q.z) && Finite(q.w)
  }

  predicate TransformFinite(t: Transform) {
    Vec3Finite(t.translation) && QuatFinite(t.rotation) && Vec3Finite(t.scale)
  }

  /** `or_else!`: the wrapped value on success, the fallback on failure. */
  function OrElse<T, E>(r: Result<T, E>, fallback: T): (v: T)
    ensures r.Ok? ==> v == r.value
    ensures r.Err? ==> v == fallback
  {
    match r
    case Ok(val) => val
    case Err(_) => fallback
  }

  datatype Vec3Bridge = Vec3Bridge(x: F32, y: F32, z: F32)

  /** Every leaf of the bridge is finite. */
  predicate Vec3BridgeFinite(b: Vec3Bridge) {
    Finite(b.x) && Finite(b.y) && Finite(b.z)
  }

  /** Converts the bridge back into a vector. */
  function BridgeToVec3(b: Vec3Bridge): Vec3 {
    Vec3(b.x, b.y, b.z)
  }

  /** Converts a vector into its bridge; converting back yields the same vector. */
  function Vec3ToBridge(v: Vec3): (b: Vec3Bridge)
    ensures BridgeToVec3(b) == v
  {
    Vec3Bridge(v.x, v.y, v.z)
  }

  /** Every vector bridge is the bridge of the vector it converts to. */
  lemma Vec3BridgeRoundTrip(b: Vec3Bridge)
    ensures Vec3ToBridge(BridgeToVec3(b)) == b
  {
  }

  /** A fixed-size array of four floats. */
  type Float4 = s: seq<F32> | |s| == 4 witness [F32(0), F32(0), F32(0), F32(0)]

  /** The quaternion's components as an array, in `x, y, z, w` order. */
  function QuatToArray(q: Quat): (a: Float4) {
    [q.x, q.y, q.z, q.w]
  }

  /** The quaternion whose `x, y, z, w` are the array's four entries in order. */
  function QuatFromArray(a: Float4): Quat {
    Quat(a[0], a[1], a[2], a[3])
  }

  datatype QuatBridge = QuatBridge(m128: Float4)

  predicate QuatBridgeFinite(b: QuatBridge) {
    forall i :: 0 <= i < 4 ==> Finite(b.m128[i])
  }

  /** Converts the bridge back into a quaternion. */
  function BridgeToQuat(b: QuatBridge): Quat {
    QuatFromArray(b.m128)
  }

  /** Converts a quaternion into its bridge; converting back yields the same
      quaternion, and the array holds its components in `x, y, z, w` order. */
  function QuatToBridge(q: Quat): (b: QuatBridge)
    ensures BridgeToQuat(b) == q
    ensures b.m128 == [q.x, q.y, q.z, q.w]
  {
    QuatBridge(QuatToArray(q))
  }

  /** Every quaternion bridge is the bridge of the quaternion it converts to. */
  lemma QuatBridgeRoundTrip(b: QuatBridge)
    ensures QuatToBridge(BridgeToQuat(b)) == b
  {
  }

  datatype TransformBridge = TransformBridge(translation: Vec3Bridge, rotation: QuatBridge, scale: Vec3Bridge)

  predicate TransformBridgeFinite(b: TransformBridge) {
    Vec3BridgeFinite(b.translation) && QuatBridgeFinite(b.rotation) && Vec3BridgeFinite(b.scale)
  }

  /** Converts the bridge back into a transform, field by field. */
  function BridgeToTransform(b: TransformBridge): Transform {
    Transform(BridgeToVec3(b.translation), BridgeToQuat(b.rotation), BridgeToVec3(b.scale))
  }

  /** Converts a transform into its bridge; converting back yields the same transform. */
  function TransformToBridge(t: Transform): (b: TransformBridge)
    ensures BridgeToTransform(b) == t
  {
    TransformBridge(Vec3ToBridge(t.translation), QuatToBridge(t.rotation), Vec3ToBridge(t.scale))
  }

  /** Every transform bridge is the bridge of the transform it converts to. */
  lemma TransformBridgeRoundTrip(b: TransformBridge)
    ensures TransformToBridge(BridgeToTransform(b)) == b
  {
  }

  /** The transform bridge keeps each field in its own place: each bridge field
      depends on the same-named transform field alone, in both directions. */
  lemma TransformBridgeNoSwap(t1: Transform, t2: Transform, b1: TransformBridge, b2: TransformBridge)
    ensures (TransformToBridge(t1).translation == TransformToBridge(t2).translation) <==> (t1.translation == t2.translation)
    ensures (TransformToBridge(t1).rotation == TransformToBridge(t2).rotation) <==> (t1.rotation == t2.rotation)
    ensures (TransformToBridge(t1).scale == TransformToBridge(t2).scale) <==> (t1.scale == t2.scale)
    ensures (BridgeToTransform(b1).translation == BridgeToTransform(b2).translation) <==> (b1.translation == b2.translation)
    ensures (BridgeToTransform(b1).rotation == BridgeToTransform(b2).rotation) <==> (b1.rotation == b2.rotation)
    ensures (BridgeToTransform(b1).scale == BridgeToTransform(b2).scale) <==> (b1.scale == b2.scale)
  {
  }

  /** The JSON library's error. */
  datatype JsonError = JsonError(message: string)

  /** The JSON library's serialiser and deserialiser for one bridge type, taken
      as given. */
  datatype Codec<!B> = Codec(encode: B -> Result<string, JsonError>, decode: string -> Result<B, JsonError>)

  /** The codec serialises every value of the domain `inDomain` and reads each
      such serialisation back as the same value. Nothing is promised outside the
      domain: a JSON serialiser writes a NaN or infinite float as `null`, which
      does not read back as a float. */
  ghost predicate RoundTrips<B(!new)>(c: Codec<B>, inDomain: B -> bool) {
    forall b :: inDomain(b) ==> c.encode(b).Ok? && c.decode(c.encode(b).value) == Ok(b)
  }

  /** `json_stringify`: serialise the bridge of a value. */
  function JsonStringify<T, B>(c: Codec<B>, toBridge: T -> B, v: T): Result<string, JsonError> {
    c.encode(toBridge(v))
  }

  /** `json_parse`: deserialise a bridge and convert it into the value. */
  function JsonParse<T, B>(c: Codec<B>, fromBridge: B -> T, s: string): Result<T, JsonError> {
    match c.decode(s)
    case Ok(b) => Ok(fromBridge(b))
    case Err(e) => Err(e)
  }

  /** Given a codec that round-trips on a domain, parsing what was stringified
      yields the original value, for any value whose bridge lies in the domain
      and converts back losslessly. */
  lemma JsonRoundTrip<T, B(!new)>(c: Codec<B>, inDomain: B -> bool, toBridge: T -> B, fromBridge: B -> T, v: T)
    requires RoundTrips(c, inDomain)
    requires inDomain(toBridge(v))
    requires fromBridge(toBridge(v)) == v
    ensures JsonStringify(c, toBridge, v).Ok?
    ensures JsonParse(c, fromBridge, JsonStringify(c, toBridge, v).value) == Ok(v)
  {
  }

  /** `Vec3Bridge::json_parse(json_stringify(v)) == v` for a value with finite
      leaves, under a codec that round-trips bridges with finite leaves. */
  lemma Vec3JsonRoundTrip(c: Codec<Vec3Bridge>, v: Vec3)
    requires RoundTrips(c, Vec3BridgeFinite)
    requires Vec3Finite(v)
    ensures JsonStringify(c, Vec3ToBridge, v).Ok?
    ensures JsonParse(c, BridgeToVec3, JsonStringify(c, Vec3ToBridge, v).value) == Ok(v)
  {
    JsonRoundTrip(c, Vec3BridgeFinite, Vec3ToBridge, BridgeToVec3, v);
  }

  /** `QuatBridge::json_parse(json_stringify(q)) == q` for a value with finite
      leaves, under a codec that round-trips bridges with finite leaves. */
  lemma QuatJsonRoundTrip(c: Codec<QuatBridge>, q: Quat)
    requires RoundTrips(c, QuatBridgeFinite)
    requires QuatFinite(q)
    ensures JsonStringify(c, QuatToBridge, q).Ok?
    ensures JsonParse(c, BridgeToQuat, JsonStringify(c, QuatToBridge, q).value) == Ok(q)
  {
    JsonRoundTrip(c, QuatBridgeFinite, QuatToBridge, BridgeToQuat, q);
  }

  /** `TransformBridge::json_parse(json_stringify(t)) == t` for a value with finite
      leaves, under a codec that round-trips bridges with finite leaves. */
  lemma TransformJsonRoundTrip(c: Codec<TransformBridge>, t: Transform)
    requires RoundTrips(c, TransformBridgeFinite)
    requires TransformFinite(t)
    ensures JsonStringify(c, TransformToBridge, t).Ok?
    ensures JsonParse(c, BridgeToTransform, JsonStringify(c, TransformToBridge, t).value) == Ok(t)
  {
    JsonRoundTrip(c, TransformBridgeFinite, TransformToBridge, BridgeToTransform, t);
  }
}
