/** The process-wide registries the backend writes to and reads from: the
    flow registry (`register_flow`, `get_flow`) and the optimizer-pass
    registry (`get_backend_passes`). Only the map semantics the backend
    relies on is modelled: a flow is stored under its key, a later
    registration under the same key replaces it, and a backend's passes are
    an ordered list. */
module FlowRegistry {
  import opened Wrappers

  /** A pass is named by its identifier, such as "vitis:write_hls". */
  type PassId = string

  /** A flow key: either a flow registered without a backend ("optimize") or
      one scoped to a backend ("vivado:init_layers" is
      Scoped("vivado", "init_layers")). */
  datatype FlowKey = Global(name: string) | Scoped(backend: string, name: string)

  /** The passes of a flow: none (a flow that only composes other flows), an
      explicit ordered list, or a callable that produces the list when the
      flow runs (named here by an opaque tag). */
  datatype Passes = NoPasses | Listed(ids: seq<PassId>) | Deferred(provider: string)

  /** A flow record: its own passes and the flows that must run before it. */
  datatype Flow = Flow(passes: Passes, requirements: seq<FlowKey>)

  class Registry {
    var flows: map<FlowKey, Flow>
    var backendPasses: map<string, seq<PassId>>

    constructor (passes: map<string, seq<PassId>>, initialFlows: map<FlowKey, Flow>)
      ensures flows == initialFlows && backendPasses == passes
    {
      flows := initialFlows;
      backendPasses := passes;
    }

    /** `register_flow(name, passes, requires=requires, backend=backend)`:
        stores the flow under the backend-scoped key and returns that key.
        Nothing else in the registry changes. */
    method RegisterFlow(name: string, passes: Passes, requirements: seq<FlowKey>, backend: string)
      returns (key: FlowKey)
      modifies this`flows
      ensures key == Scoped(backend, name)
      ensures flows == old(flows)[key := Flow(passes, requirements)]
    {
      key := Scoped(backend, name);
      flows := flows[key := Flow(passes, requirements)];
    }

    /** `get_flow(key)`: the stored flow, or `None` where the lookup fails. */
    function GetFlow(key: FlowKey): (r: Option<Flow>)
      reads this
      ensures r.Some? <==> key in flows
      ensures r.Some? ==> r.value == flows[key]
    {
      if key in flows then Some(flows[key]) else None
    }

    /** `get_backend_passes(backend)`: the passes registered for the backend,
        in registration order; a backend with none has the empty list. */
    function BackendPasses(backend: string): (r: seq<PassId>)
      reads this
      ensures backend in backendPasses ==> r == backendPasses[backend]
      ensures backend !in backendPasses ==> r == []
    {
      if backend in backendPasses then backendPasses[backend] else []
    }
  }
}
