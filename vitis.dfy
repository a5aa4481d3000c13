/** The Vitis backend's flow composition and its initial configuration.

    At construction the backend registers its flows in the shared registry:
    "init_layers", "validation", "apply_templates", "write",
    "fifo_depth_optimization", then "extras" for the passes none of them
    lists (only when there are any), and last the default "ip" flow, whose
    requirements are the Vivado "ip" flow's requirements with the
    validation flow spliced in front of "vivado:init_layers" and the
    template flow spliced in front of "vivado:apply_templates". */
module Vitis {
  import opened Wrappers
  import opened Seqs
  import opened FlowRegistry

  /** The scope of the backend's flows and passes: the backend is named
      "Vitis" and its keys read "vitis:<name>". */
  const Backend: string := "vitis"

  // Flows of other backends this one refers to.
  const OptimizeKey: FlowKey := Global("optimize")
  const VivadoInitLayers: FlowKey := Scoped("vivado", "init_layers")
  const VivadoApplyTemplates: FlowKey := Scoped("vivado", "apply_templates")
  const VivadoIp: FlowKey := Scoped("vivado", "ip")

  // The keys under which this backend registers its flows.
  const InitKey: FlowKey := Scoped(Backend, "init_layers")
  const ValidationKey: FlowKey := Scoped(Backend, "validation")
  const TemplatesKey: FlowKey := Scoped(Backend, "apply_templates")
  const WriteKey: FlowKey := Scoped(Backend, "write")
  const FifoKey: FlowKey := Scoped(Backend, "fifo_depth_optimization")
  const ExtrasKey: FlowKey := Scoped(Backend, "extras")
  /** "vitis:ip": the default flow, which the writer flows name as their
      requirement before it is registered. */
  const IpKey: FlowKey := Scoped(Backend, "ip")

  const VitisKeys: set<FlowKey> :=
    {InitKey, ValidationKey, TemplatesKey, WriteKey, FifoKey, ExtrasKey, IpKey}

  const ValidationPasses: seq<PassId> :=
    ["vitis:validate_conv_implementation", "vitis:validate_strategy"]
  const WriterPasses: seq<PassId> := ["make_stamp", "vitis:write_hls"]
  const FifoDepthPass: PassId := "vitis:fifo_depth_optimization"
  /** After FIFO depth optimization the project is written again. */
  const FifoDepthOptPasses: seq<PassId> := [FifoDepthPass] + WriterPasses

  /** The template flow's passes come from the backend's template callable,
      which is evaluated only when the flow runs. */
  const LayerTemplates: Passes := Deferred("get_layer_templates")

  /** Why backend setup stops: `get_flow` finds no base flow, or
      `list.index` finds no anchor. */
  datatype SetupError = FlowNotFound(key: FlowKey) | AnchorNotFound(anchor: FlowKey)

  /** The backend's passes that neither the initializers, the writer passes
      nor the FIFO-optimization passes list, in registration order. */
  function Extras(allPasses: seq<PassId>, initializers: seq<PassId>): (r: seq<PassId>)
  {
    Subtract(allPasses, initializers + WriterPasses + FifoDepthOptPasses)
  }

  /** The registry after every registration before the default flow. */
  function StagedFlows(flows: map<FlowKey, Flow>, allPasses: seq<PassId>, initializers: seq<PassId>)
    : (staged: map<FlowKey, Flow>)
  {
    var named := flows[InitKey := Flow(Listed(initializers), [OptimizeKey])]
                      [ValidationKey := Flow(Listed(ValidationPasses), [VivadoInitLayers])]
                      [TemplatesKey := Flow(LayerTemplates, [VivadoInitLayers])]
                      [WriteKey := Flow(Listed(WriterPasses), [IpKey])]
                      [FifoKey := Flow(Listed(FifoDepthOptPasses), [IpKey])];
    var extras := Extras(allPasses, initializers);
    if |extras| > 0 then named[ExtrasKey := Flow(Listed(extras), [InitKey])] else named
  }

  /** The default flow's requirements: a copy of the Vivado "ip" flow's
      requirements with the two keys spliced in, or the error that stops
      the splice. */
  function IpRequirements(flows: map<FlowKey, Flow>): (r: Result<seq<FlowKey>, SetupError>)
  {
    if VivadoIp !in flows then Failure(FlowNotFound(VivadoIp))
    else
      match InsertBefore(flows[VivadoIp].requirements, VivadoInitLayers, ValidationKey)
      case None => Failure(AnchorNotFound(VivadoInitLayers))
      case Some(withValidation) =>
        match InsertBefore(withValidation, VivadoApplyTemplates, TemplatesKey)
        case None => Failure(AnchorNotFound(VivadoApplyTemplates))
        case Some(r) => Success(r)
  }

  /** The registry after backend setup. A failed splice leaves the earlier
      registrations in place and registers no default flow. */
  function SetupFlows(flows: map<FlowKey, Flow>, allPasses: seq<PassId>, initializers: seq<PassId>)
    : (after: map<FlowKey, Flow>)
  {
    var staged := StagedFlows(flows, allPasses, initializers);
    match IpRequirements(flows)
    case Failure(_) => staged
    case Success(r) => staged[IpKey := Flow(NoPasses, r)]
  }

  class VitisBackend {
    var writerFlow: Option<FlowKey>
    var defaultFlow: Option<FlowKey>

    constructor ()
      ensures writerFlow == None && defaultFlow == None
    {
      writerFlow := None;
      defaultFlow := None;
    }

    /** `_register_flows`: the registrations in order, each on the registry
        as it then is. On success the default flow key is returned and
        recorded; on failure the error is returned and the flows registered
        so far stay registered. */
    method RegisterFlows(reg: Registry, initializers: seq<PassId>)
      returns (outcome: Result<FlowKey, SetupError>)
      modifies this, reg`flows
      ensures reg.flows == SetupFlows(old(reg.flows), old(reg.BackendPasses(Backend)), initializers)
      ensures writerFlow == Some(WriteKey)
      ensures outcome.Success? <==> IpRequirements(old(reg.flows)).Success?
      ensures outcome.Success? ==> outcome.value == IpKey && defaultFlow == Some(IpKey)
      ensures outcome.Failure? ==>
                outcome.error == IpRequirements(old(reg.flows)).error && defaultFlow == old(defaultFlow)
    {
      ghost var before := reg.flows;
      var initFlow := reg.RegisterFlow("init_layers", Listed(initializers), [OptimizeKey], Backend);
      var validationFlow := reg.RegisterFlow("validation", Listed(ValidationPasses), [VivadoInitLayers], Backend);
      var templateFlow := reg.RegisterFlow("apply_templates", LayerTemplates, [VivadoInitLayers], Backend);
      var writer := reg.RegisterFlow("write", Listed(WriterPasses), [IpKey], Backend);
      writerFlow := Some(writer);
      var fifoDepthOptPasses := [FifoDepthPass] + WriterPasses;
      var _ := reg.RegisterFlow("fifo_depth_optimization", Listed(fifoDepthOptPasses), [IpKey], Backend);

      var allPasses := reg.BackendPasses(Backend);
      var extras := Subtract(allPasses, initializers + WriterPasses + fifoDepthOptPasses);
      var extrasFlow: Option<FlowKey> := None;
      if |extras| > 0 {
        var k := reg.RegisterFlow("extras", Listed(extras), [initFlow], Backend);
        extrasFlow := Some(k);
      }
      assert reg.flows == StagedFlows(before, allPasses, initializers);
      StagedKeepsBase(before, allPasses, initializers);

      var base := reg.GetFlow(VivadoIp);
      if base.None? {
        return Failure(FlowNotFound(VivadoIp));
      }
      var ipFlowRequirements := base.value.requirements;
      var i := IndexOf(ipFlowRequirements, VivadoInitLayers);
      if i.None? {
        return Failure(AnchorNotFound(VivadoInitLayers));
      }
      ipFlowRequirements := InsertAt(ipFlowRequirements, i.value, validationFlow);
      var j := IndexOf(ipFlowRequirements, VivadoApplyTemplates);
      if j.None? {
        return Failure(AnchorNotFound(VivadoApplyTemplates));
      }
      ipFlowRequirements := InsertAt(ipFlowRequirements, j.value, templateFlow);

      var ip := reg.RegisterFlow("ip", NoPasses, ipFlowRequirements, Backend);
      defaultFlow := Some(ip);
      outcome := Success(ip);
    }
  }

  /** The registrations before the default flow touch only this backend's
      keys, so the Vivado "ip" flow the splice reads is the one that was
      there before. */
  lemma StagedKeepsBase(flows: map<FlowKey, Flow>, allPasses: seq<PassId>, initializers: seq<PassId>)
    ensures var staged := StagedFlows(flows, allPasses, initializers);
            && (VivadoIp in staged <==> VivadoIp in flows)
            && (VivadoIp in flows ==> staged[VivadoIp] == flows[VivadoIp])
  {
  }

  // Properties of the extras list.

  /** A pass is an extra exactly when the backend registered it and none of
      the initializer, writer or FIFO-optimization lists names it. */
  lemma ExtrasMembership(allPasses: seq<PassId>, initializers: seq<PassId>, p: PassId)
    ensures p in Extras(allPasses, initializers) <==>
              p in allPasses && p !in initializers && p !in WriterPasses && p !in FifoDepthOptPasses
  {
    SubtractMembership(allPasses, initializers + WriterPasses + FifoDepthOptPasses, p);
  }

  /** The extras keep the registration order of the backend's passes, and
      the positions they come from are exactly those of the passes no named
      list covers (so a pass registered twice is an extra twice). */
  lemma ExtrasKeepOrder(allPasses: seq<PassId>, initializers: seq<PassId>)
    ensures IsSubsequence(Extras(allPasses, initializers), allPasses)
    ensures exists idx :: IsSubsequenceAt(Extras(allPasses, initializers), allPasses, idx)
                          && KeepsExactly(allPasses, initializers + WriterPasses + FifoDepthOptPasses, idx)
  {
    SubtractIsSubsequence(allPasses, initializers + WriterPasses + FifoDepthOptPasses);
    SubtractKeptPositions(allPasses, initializers + WriterPasses + FifoDepthOptPasses);
  }

  /** The FIFO-optimization passes already contain every writer pass, so
      excluding the writer passes separately changes nothing. */
  lemma ExtrasIgnoreWriterPasses(allPasses: seq<PassId>, initializers: seq<PassId>)
    ensures Extras(allPasses, initializers) == Subtract(allPasses, initializers + FifoDepthOptPasses)
  {
    var e1 := initializers + WriterPasses + FifoDepthOptPasses;
    var e2 := initializers + FifoDepthOptPasses;
    forall x
      ensures x in e1 <==> x in e2
    {
      assert x in e1 <==> x in initializers || x in WriterPasses || x in FifoDepthOptPasses;
      assert x in e2 <==> x in initializers || x in FifoDepthOptPasses;
      assert x in WriterPasses ==> x in FifoDepthOptPasses;
    }
    SubtractSameMembers(allPasses, e1, e2);
  }

  /** No extras flow is needed exactly when every registered pass is one of
      the initializer or FIFO-optimization passes. */
  lemma ExtrasEmpty(allPasses: seq<PassId>, initializers: seq<PassId>)
    ensures Extras(allPasses, initializers) == [] <==>
              forall p :: p in allPasses ==> p in initializers || p in FifoDepthOptPasses
  {
    ExtrasIgnoreWriterPasses(allPasses, initializers);
    SubtractEmpty(allPasses, initializers + FifoDepthOptPasses);
  }

  // Properties of the registry after setup.

  /** Setup leaves every flow outside this backend's keys as it was; in
      particular the Vivado "ip" flow's stored requirements are unchanged by
      the splice, which works on a copy. */
  lemma SetupFrame(flows: map<FlowKey, Flow>, allPasses: seq<PassId>, initializers: seq<PassId>, k: FlowKey)
    requires k !in VitisKeys
    ensures var after := SetupFlows(flows, allPasses, initializers);
            && (k in after <==> k in flows)
            && (k in flows ==> after[k] == flows[k])
  {
  }

  /** The five flows registered unconditionally, each with its passes and
      requirements. */
  lemma SetupNamedFlows(flows: map<FlowKey, Flow>, allPasses: seq<PassId>, initializers: seq<PassId>)
    ensures var after := SetupFlows(flows, allPasses, initializers);
            && InitKey in after && after[InitKey] == Flow(Listed(initializers), [OptimizeKey])
            && ValidationKey in after && after[ValidationKey] == Flow(Listed(ValidationPasses), [VivadoInitLayers])
            && TemplatesKey in after && after[TemplatesKey] == Flow(LayerTemplates, [VivadoInitLayers])
            && WriteKey in after && after[WriteKey] == Flow(Listed(WriterPasses), [IpKey])
            && FifoKey in after && after[FifoKey] == Flow(Listed(FifoDepthOptPasses), [IpKey])
  {
  }

  /** An extras flow is registered, requiring only the initializer flow,
      exactly when there are extras; otherwise the entry under its key is
      left as it was. */
  lemma SetupExtrasFlow(flows: map<FlowKey, Flow>, allPasses: seq<PassId>, initializers: seq<PassId>)
    ensures var after := SetupFlows(flows, allPasses, initializers);
            var extras := Extras(allPasses, initializers);
            && (extras != [] ==> ExtrasKey in after && after[ExtrasKey] == Flow(Listed(extras), [InitKey]))
            && (extras == [] ==> (ExtrasKey in after <==> ExtrasKey in flows))
            && (extras == [] && ExtrasKey in flows ==> after[ExtrasKey] == flows[ExtrasKey])
  {
  }

  /** Whether a flow lists a pass among its own passes. */
  predicate ListsPass(f: Flow, p: PassId)
  {
    f.passes.Listed? && p in f.passes.ids
  }

  /** No registered pass is orphaned: each of the backend's passes is listed
      by the initializer, writer, FIFO-optimization or extras flow. */
  lemma SetupCoversEveryPass(flows: map<FlowKey, Flow>, allPasses: seq<PassId>, initializers: seq<PassId>, p: PassId)
    requires p in allPasses
    ensures var after := SetupFlows(flows, allPasses, initializers);
            || ListsPass(after[InitKey], p)
            || ListsPass(after[WriteKey], p)
            || ListsPass(after[FifoKey], p)
            || (ExtrasKey in after && ListsPass(after[ExtrasKey], p))
  {
    SetupNamedFlows(flows, allPasses, initializers);
    SetupExtrasFlow(flows, allPasses, initializers);
    ExtrasMembership(allPasses, initializers, p);
  }

  /** The splice succeeds exactly when the Vivado "ip" flow exists and its
      requirements contain both anchors, and each way of failing reports
      the first missing piece. */
  lemma IpRequirementsSucceeds(flows: map<FlowKey, Flow>)
    ensures IpRequirements(flows).Success? <==>
              VivadoIp in flows
              && VivadoInitLayers in flows[VivadoIp].requirements
              && VivadoApplyTemplates in flows[VivadoIp].requirements
    ensures VivadoIp !in flows ==> IpRequirements(flows) == Failure(FlowNotFound(VivadoIp))
    ensures VivadoIp in flows && VivadoInitLayers !in flows[VivadoIp].requirements ==>
              IpRequirements(flows) == Failure(AnchorNotFound(VivadoInitLayers))
    ensures VivadoIp in flows && VivadoInitLayers in flows[VivadoIp].requirements
              && VivadoApplyTemplates !in flows[VivadoIp].requirements ==>
              IpRequirements(flows) == Failure(AnchorNotFound(VivadoApplyTemplates))
  {
    if VivadoIp in flows && VivadoInitLayers in flows[VivadoIp].requirements {
      InsertBeforeMembers(flows[VivadoIp].requirements, VivadoInitLayers, ValidationKey, VivadoApplyTemplates);
    }
  }

  /** After the first insertion the validation key stands directly in front
      of the first "vivado:init_layers", everything before it is where it
      was, and the list is one longer. */
  lemma IpRequirementsValidationPlacement(base: seq<FlowKey>)
    requires VivadoInitLayers in base
    ensures var i := IndexOf(base, VivadoInitLayers).value;
            var r := InsertBefore(base, VivadoInitLayers, ValidationKey).value;
            && |r| == |base| + 1
            && r[i] == ValidationKey && r[i + 1] == VivadoInitLayers
            && r[..i] == base[..i]
            && IndexOf(r, VivadoInitLayers) == Some(i + 1)
  {
    InsertBeforeAnchor(base, VivadoInitLayers, ValidationKey);
  }

  /** On success the default requirements are the Vivado requirements cut at
      the two anchors with the two keys placed in the cuts: two longer,
      nothing dropped or reordered; and when neither key was among the
      Vivado requirements already, removing them gives those back. */
  lemma IpRequirementsShape(flows: map<FlowKey, Flow>)
    requires IpRequirements(flows).Success?
    ensures VivadoIp in flows
    ensures var base := flows[VivadoIp].requirements;
            var r := IpRequirements(flows).value;
            var i := IndexOf(base, VivadoInitLayers).value;
            var j := IndexOf(base, VivadoApplyTemplates).value;
            && |r| == |base| + 2
            && i != j
            && (i < j ==> r == base[..i] + [ValidationKey] + base[i..j] + [TemplatesKey] + base[j..])
            && (j < i ==> r == base[..j] + [TemplatesKey] + base[j..i] + [ValidationKey] + base[i..])
            && (ValidationKey !in base && TemplatesKey !in base ==>
                  Subtract(r, [ValidationKey, TemplatesKey]) == base)
  {
    IpRequirementsSucceeds(flows);
    var base := flows[VivadoIp].requirements;
    SpliceTwice(base, VivadoInitLayers, ValidationKey, VivadoApplyTemplates, TemplatesKey);
    var i := IndexOf(base, VivadoInitLayers).value;
    var j := IndexOf(base, VivadoApplyTemplates).value;
    if ValidationKey !in base && TemplatesKey !in base {
      if i < j {
        RemoveSplicedKeys(base, i, j, ValidationKey, TemplatesKey);
      } else {
        RemoveSplicedKeys(base, j, i, ValidationKey, TemplatesKey);
      }
    }
  }

  /** The default requirements hold exactly the base requirements plus the
      validation and template keys. So unless the Vivado "ip" flow already
      names them, the default flow requires neither "vitis:init_layers" nor
      "vitis:extras": those two flows are reachable from it only through
      other flows' requirements. */
  lemma IpRequirementsMembers(flows: map<FlowKey, Flow>, k: FlowKey)
    requires IpRequirements(flows).Success?
    ensures VivadoIp in flows
    ensures k in IpRequirements(flows).value <==>
              k in flows[VivadoIp].requirements || k == ValidationKey || k == TemplatesKey
    ensures (k == InitKey || k == ExtrasKey) && k !in flows[VivadoIp].requirements ==>
              k !in IpRequirements(flows).value
  {
    IpRequirementsSucceeds(flows);
    var base := flows[VivadoIp].requirements;
    InsertBeforeMembers(base, VivadoInitLayers, ValidationKey, k);
    InsertBeforeMembers(base, VivadoInitLayers, ValidationKey, VivadoApplyTemplates);
    var withValidation := InsertBefore(base, VivadoInitLayers, ValidationKey).value;
    InsertBeforeMembers(withValidation, VivadoApplyTemplates, TemplatesKey, k);
  }

  /** The default flow is registered, with no passes of its own and the
      spliced requirements, exactly when the splice succeeds; otherwise the
      entry under its key is left as it was. */
  lemma SetupDefaultFlow(flows: map<FlowKey, Flow>, allPasses: seq<PassId>, initializers: seq<PassId>)
    ensures var after := SetupFlows(flows, allPasses, initializers);
            && (IpRequirements(flows).Success? ==>
                  IpKey in after && after[IpKey] == Flow(NoPasses, IpRequirements(flows).value))
            && (IpRequirements(flows).Failure? ==> (IpKey in after <==> IpKey in flows))
            && (IpRequirements(flows).Failure? && IpKey in flows ==> after[IpKey] == flows[IpKey])
  {
  }

  // The initial configuration.

  const DefaultPart: string := "xcvu13p-flga2577-2-e"
  const DefaultClockPeriod: int := 5
  const DefaultClockUncertainty: string := "27%"
  const DefaultIOType: string := "io_parallel"

  /** The configuration dictionary: "Part", "ClockPeriod",
      "ClockUncertainty", "IOType" and an empty "HLSConfig". */
  datatype Config = Config(
    part: string,
    clockPeriod: int,
    clockUncertainty: string,
    ioType: string,
    hlsConfig: map<string, string>)

  /** `create_initial_config`: each setting is the argument when one is
      given and the backend's default when the argument is `None`. */
  function CreateInitialConfig(
    part: Option<string>, clockPeriod: Option<int>,
    clockUncertainty: Option<string>, ioType: Option<string>): (c: Config)
    ensures part.Some? ==> c.part == part.value
    ensures part.None? ==> c.part == DefaultPart
    ensures clockPeriod.Some? ==> c.clockPeriod == clockPeriod.value
    ensures clockPeriod.None? ==> c.clockPeriod == DefaultClockPeriod
    ensures clockUncertainty.Some? ==> c.clockUncertainty == clockUncertainty.value
    ensures clockUncertainty.None? ==> c.clockUncertainty == DefaultClockUncertainty
    ensures ioType.Some? ==> c.ioType == ioType.value
    ensures ioType.None? ==> c.ioType == DefaultIOType
    ensures c.hlsConfig == map[]
  {
    Config(
      if part.Some? then part.value else DefaultPart,
      if clockPeriod.Some? then clockPeriod.value else DefaultClockPeriod,
      if clockUncertainty.Some? then clockUncertainty.value else DefaultClockUncertainty,
      if ioType.Some? then ioType.value else DefaultIOType,
      map[])
  }

  /** Passing `None` and passing the default value give the same
      configuration, and feeding a configuration's settings back in
      reproduces it. */
  lemma InitialConfigDefaultsAndFixpoint(
    part: Option<string>, clockPeriod: Option<int>,
    clockUncertainty: Option<string>, ioType: Option<string>)
    ensures CreateInitialConfig(None, None, None, None) ==
              CreateInitialConfig(Some(DefaultPart), Some(DefaultClockPeriod),
                                  Some(DefaultClockUncertainty), Some(DefaultIOType))
    ensures var c := CreateInitialConfig(part, clockPeriod, clockUncertainty, ioType);
            CreateInitialConfig(Some(c.part), Some(c.clockPeriod), Some(c.clockUncertainty), Some(c.ioType)) == c
  {
  }
}
