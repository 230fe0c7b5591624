/** `shouldEnableCanvas` of public/main.js: the animated background is turned
    off for users who ask for reduced motion, for devices with little memory
    or few cores, and on data-saving or 2G connections. Missing browser
    features count as "no objection". */
module CanvasGate {
  import opened Js

  /** `navigator.connection`: its `saveData` flag and `effectiveType`. */
  datatype Connection = Connection(saveData: JsValue, effectiveType: Option<string>)

  /** What `shouldEnableCanvas` reads: the reduced-motion media query
      (`None` when `matchMedia` is missing), `navigator.deviceMemory`,
      `navigator.hardwareConcurrency` (`None` when undefined) and
      `navigator.connection`. */
  datatype Device = Device(prefersReduced: Option<bool>, deviceMemory: Option<Number>,
                           hardwareConcurrency: Option<Number>, connection: Option<Connection>)

  /** `(x || 0) && (x || 0) <= limit`: a reported, non-zero count that is at
      most `limit` (NaN reports nothing; minus infinity is below any limit). */
  predicate AtMost(x: Option<Number>, limit: real)
  {
    x.Some? &&
    match x.value
    case Finite(v) => v != 0.0 && v <= limit
    case NaN => false
    case Infinity(negative) => negative
  }

  /** The connection saves data or is a 2G kind (`/2g/` matches anywhere in
      `effectiveType`, so "slow-2g" counts). */
  predicate SlowConnection(conn: Option<Connection>)
  {
    conn.Some? &&
    (Truthy(conn.value.saveData) ||
     Contains(if conn.value.effectiveType.Some? then conn.value.effectiveType.value else "", "2g"))
  }

  /** `shouldEnableCanvas()`. */
  function ShouldEnableCanvas(d: Device): (enabled: bool)
    ensures d.prefersReduced == Some(true) ==> !enabled
    ensures AtMost(d.deviceMemory, 2.0) || AtMost(d.hardwareConcurrency, 4.0) ==> !enabled
    ensures d.connection.Some? && Truthy(d.connection.value.saveData) ==> !enabled
    ensures enabled <==> d.prefersReduced != Some(true) && !AtMost(d.deviceMemory, 2.0)
                         && !AtMost(d.hardwareConcurrency, 4.0) && !SlowConnection(d.connection)
  {
    if d.prefersReduced == Some(true) then false
    else if AtMost(d.deviceMemory, 2.0) then false
    else if AtMost(d.hardwareConcurrency, 4.0) then false
    else if SlowConnection(d.connection) then false
    else true
  }

  /** A browser that reports nothing keeps the canvas. */
  lemma NothingReportedEnables()
    ensures ShouldEnableCanvas(Device(None, None, None, None))
  {
  }

  /** A 2G connection type disables the canvas, wherever "2g" occurs in it. */
  lemma TwoGDisables(d: Device, effectiveType: string, i: nat)
    requires d.connection.Some? && d.connection.value.effectiveType == Some(effectiveType)
    requires OccursAt(effectiveType, "2g", i)
    ensures !ShouldEnableCanvas(d)
  {
    ContainsComplete(effectiveType, "2g", i);
  }

  /** A connection type without "2g" and no data saving never disables it. */
  lemma No2GKeeps(d: Device, effectiveType: string)
    requires d.prefersReduced != Some(true) && !AtMost(d.deviceMemory, 2.0) && !AtMost(d.hardwareConcurrency, 4.0)
    requires d.connection == Some(Connection(Undefined, Some(effectiveType)))
    requires forall i: nat :: !OccursAt(effectiveType, "2g", i)
    ensures ShouldEnableCanvas(d)
  {
    if Contains(effectiveType, "2g") {
      var i := ContainsSound(effectiveType, "2g");
    }
  }

  /** The gate is monotone in the hardware: a device it accepts stays
      accepted with more memory and more cores reported. */
  lemma MoreHardwareStaysEnabled(d: Device, memory: real, cores: real)
    requires ShouldEnableCanvas(d)
    requires d.deviceMemory.Some? && d.deviceMemory.value.Finite? && d.deviceMemory.value.r <= memory
    requires d.hardwareConcurrency.Some? && d.hardwareConcurrency.value.Finite? && d.hardwareConcurrency.value.r <= cores
    requires d.deviceMemory.value.r > 0.0 && d.hardwareConcurrency.value.r > 0.0
    ensures ShouldEnableCanvas(d.(deviceMemory := Some(Finite(memory)), hardwareConcurrency := Some(Finite(cores))))
  {
  }
}
