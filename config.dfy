/**
 * The numeric checks the KTD202x driver applies to its device-tree
 * description when it is probed: the number of LED nodes and of channels in
 * a multicolour group must be 1..num_leds, and every "reg" (channel index)
 * must be readable and below num_leds. The tree itself is reduced to the
 * values those checks look at.
 */
module Config {
  import opened Registers

  /** Linux error numbers returned by the checks (as negative values). */
  const EINVAL: int := 22
  const ENODEV: int := 19

  datatype Option<T> = None | Some(value: T)

  datatype Result<T> = Ok(value: T) | Err(errno: int)

  /** The two chips the driver matches, with three and four channels. */
  datatype Variant = Ktd2026 | Ktd2027

  function NumLeds(v: Variant): (n: nat)
    ensures n == 3 || n == 4
    ensures n <= MaxLeds
    ensures n == 4 <==> v == Ktd2027
  {
    match v
    case Ktd2026 => 3
    case Ktd2027 => 4
  }

  /**
   * An available child node of the chip: whether its colour is RGB (a
   * multicolour group), its own "reg" (None when the property cannot be
   * read), and, for a group, the "reg" of each available sub-node in order.
   */
  datatype LedNode = LedNode(rgb: bool, reg: Option<nat>, subRegs: seq<Option<nat>>)

  /** A registered LED: one channel, or a group of channels driven together. */
  datatype Led = Single(index: nat) | Multi(channels: seq<nat>)

  /** Every channel an LED uses exists on a chip with `numLeds` channels. */
  predicate ValidLed(led: Led, numLeds: nat)
  {
    match led
    case Single(index) => index < numLeds
    case Multi(channels) =>
      1 <= |channels| <= numLeds && forall i :: 0 <= i < |channels| ==> channels[i] < numLeds
  }

  /** A "reg" that can be read and names an existing channel. */
  predicate RegOk(reg: Option<nat>, numLeds: nat)
  {
    reg.Some? && reg.value < numLeds
  }

  /** The sub-nodes of a multicolour group, in order; the first unreadable or out-of-range "reg" fails with -EINVAL. */
  function SubChannels(regs: seq<Option<nat>>, numLeds: nat): (r: Result<seq<nat>>)
    ensures r.Ok? <==> forall i :: 0 <= i < |regs| ==> RegOk(regs[i], numLeds)
    ensures r.Ok? ==> |r.value| == |regs| && forall i :: 0 <= i < |regs| ==> regs[i] == Some(r.value[i])
    ensures r.Err? ==> r.errno == -EINVAL
  {
    if regs == [] then Ok([])
    else if !RegOk(regs[0], numLeds) then Err(-EINVAL)
    else
      match SubChannels(regs[1..], numLeds)
      case Err(e) => Err(e)
      case Ok(rest) => Ok([regs[0].value] + rest)
  }

  /** The checks of adding one LED node: a group needs 1..numLeds sub-nodes, each with a valid "reg"; a single LED needs a valid "reg". */
  function AddLed(node: LedNode, numLeds: nat): (r: Result<Led>)
    ensures r.Ok? <==>
      if node.rgb then 1 <= |node.subRegs| <= numLeds && forall i :: 0 <= i < |node.subRegs| ==> RegOk(node.subRegs[i], numLeds)
      else RegOk(node.reg, numLeds)
    ensures r.Ok? ==> ValidLed(r.value, numLeds) && r.value.Multi? == node.rgb
    // the LED drives the node's own "reg", or the sub-nodes' "reg"s in order
    ensures r.Ok? && !node.rgb ==> r.value == Single(node.reg.value)
    ensures r.Ok? && node.rgb ==>
      |r.value.channels| == |node.subRegs| && forall i :: 0 <= i < |node.subRegs| ==> node.subRegs[i] == Some(r.value.channels[i])
    ensures r.Err? ==> r.errno == -EINVAL
  {
    if node.rgb then
      if |node.subRegs| == 0 || |node.subRegs| > numLeds then Err(-EINVAL)
      else
        match SubChannels(node.subRegs, numLeds)
        case Err(e) => Err(e)
        case Ok(channels) => Ok(Multi(channels))
    else if !RegOk(node.reg, numLeds) then Err(-EINVAL)
    else Ok(Single(node.reg.value))
  }

  /** Add the LED nodes in order; the first failing node's error is returned. */
  function AddLeds(nodes: seq<LedNode>, numLeds: nat): (r: Result<seq<Led>>)
    ensures r.Ok? <==> forall i :: 0 <= i < |nodes| ==> AddLed(nodes[i], numLeds).Ok?
    ensures r.Ok? ==> (|r.value| == |nodes| &&
      forall i :: 0 <= i < |nodes| ==> r.value[i] == AddLed(nodes[i], numLeds).value && ValidLed(r.value[i], numLeds))
    ensures r.Err? ==> exists i ::
      0 <= i < |nodes| && AddLed(nodes[i], numLeds) == Err(r.errno) && forall j :: 0 <= j < i ==> AddLed(nodes[j], numLeds).Ok?
  {
    if nodes == [] then Ok([])
    else
      match AddLed(nodes[0], numLeds)
      case Err(e) => Err(e)
      case Ok(led) =>
        match AddLeds(nodes[1..], numLeds)
        case Err(e) =>
          assert forall i :: 1 <= i < |nodes| ==> nodes[i] == nodes[1..][i - 1];
          Err(e)
        case Ok(rest) => Ok([led] + rest)
  }

  /**
   * The probe-time checks: the chip must be one the driver matches, it must
   * have 1..num_leds available LED nodes, and every node must pass AddLed.
   */
  function ProbeDt(variant: Option<Variant>, nodes: seq<LedNode>): (r: Result<seq<Led>>)
    ensures variant.None? ==> r == Err(-ENODEV)
    ensures r.Ok? ==> (variant.Some? && 1 <= |nodes| <= NumLeds(variant.value) && |r.value| == |nodes| &&
      forall i :: 0 <= i < |nodes| ==> ValidLed(r.value[i], NumLeds(variant.value)))
    ensures variant.Some? && (|nodes| == 0 || |nodes| > NumLeds(variant.value)) ==> r == Err(-EINVAL)
    // a matched chip with an acceptable node count succeeds exactly when every node does
    ensures variant.Some? && 1 <= |nodes| <= NumLeds(variant.value) ==>
      r == AddLeds(nodes, NumLeds(variant.value)) &&
      (r.Ok? <==> forall i :: 0 <= i < |nodes| ==> AddLed(nodes[i], NumLeds(variant.value)).Ok?)
  {
    match variant
    case None => Err(-ENODEV)
    case Some(v) =>
      if |nodes| == 0 || |nodes| > NumLeds(v) then Err(-EINVAL)
      else AddLeds(nodes, NumLeds(v))
  }
}
