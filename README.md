# Vitis backend flow composition, in Dafny

This project models how hls4ml's Vitis backend builds its flows. A flow is a
named, ordered pipeline of optimizer passes plus the flows that must run
before it. When the backend is constructed it registers, in the process-wide
flow registry:

- `vitis:init_layers`, built from the layer initializers and requiring `optimize`;
- `vitis:validation`, with the two Vitis validation passes and requiring `vivado:init_layers`;
- `vitis:apply_templates`, whose passes come from the template callable, requiring `vivado:init_layers`;
- `vitis:write` (`make_stamp`, `vitis:write_hls`), requiring `vitis:ip`;
- `vitis:fifo_depth_optimization` (`vitis:fifo_depth_optimization` followed by the writer passes), requiring `vitis:ip`;
- `vitis:extras`, holding the backend's registered passes that none of the initializer, writer or FIFO-optimization lists names, requiring `vitis:init_layers`. It is registered only when that list is non-empty;
- the default flow `vitis:ip`. It has no passes of its own. Its requirements are a copy of `vivado:ip`'s, with `vitis:validation` spliced in front of `vivado:init_layers` and `vitis:apply_templates` spliced in front of `vivado:apply_templates`.

The model also covers `create_initial_config`, which fills four settings
from its arguments or from defaults and adds an empty `HLSConfig`.

Files:
- `wrappers.dfy`: `Option` and `Result`.
- `seqs.dfy`: the Python list operations the backend relies on. `Subtract` is the filtering comprehension, `IndexOf` is `list.index`, `InsertAt` is `list.insert`, and `InsertBefore` is the two combined. The lemmas cover membership, order preservation and splice placement.
- `flow_registry.dfy`: the registries as a class. It holds a map from flow key to flow record `(passes, requirements)` and a map from backend to its ordered pass list.
- `vitis.dfy`: the backend class. Its `RegisterFlows` method performs the registrations in order on a `Registry`. It is specified by the functions `StagedFlows`, `IpRequirements` and `SetupFlows`, and the lemmas about those functions state what the source promises.

Modelling choices:
- Flow keys are a datatype: `Global("optimize")` or `Scoped("vivado", "init_layers")`, which stands for the string `'vivado:init_layers'`. The correspondence is one-to-one only for canonical keys: no `:` in a `Global` name or in a backend name. The model assumes every key is canonical; see "## Left out". The backend is named `Vitis` in the source, but its keys read `vitis:<name>`. The model writes the scope as `"vitis"` directly.
- `get_flow` and `list.index` raise when the key or anchor is missing. The model returns `Failure(FlowNotFound(..))` or `Failure(AnchorNotFound(..))` instead.
- The layer initializers are an input sequence of the method. The template callable is the opaque value `Deferred("get_layer_templates")`.

Two behaviours of the code that a reader might not expect, modelled as written:
- The writer and FIFO-optimization flows require `vitis:ip`, the backend's own default flow, which is registered later in the same method (`hls4ml/backends/vitis/vitis_backend.py:33`, `:40`). They do not require the base backend's `ip` flow.
- The default flow `vitis:ip` does not itself require `vitis:init_layers` or `vitis:extras`, unless the Vivado `ip` flow already names them (`IpRequirementsMembers`). Running the default flow reaches those two flows only if some other flow's requirements name them.
- Setup is not atomic. If `get_flow('vivado:ip')` or either `index` call fails, the flows registered before that point stay registered. Nothing rolls them back, and no default flow is registered. `SetupFlows` states exactly this.

## Model

| member | source | states |
|---|---|---|
| Seqs.SubtractMembership | hls4ml/backends/vitis/vitis_backend.py:44-52 | an element survives the filtering comprehension iff it is in the input list and not in the excluded list |
| Seqs.SubtractIsSubsequence | hls4ml/backends/vitis/vitis_backend.py:44-52 | the filtered list is picked out of the input by strictly increasing positions, so the original order is kept |
| Seqs.SubtractKeptPositions | hls4ml/backends/vitis/vitis_backend.py:44-52 | the positions of the input that the filter keeps are exactly those whose element is not excluded, taken in increasing order, so multiplicities are kept |
| Seqs.SubtractConcat | hls4ml/backends/vitis/vitis_backend.py:44-52 | filtering a concatenation is the concatenation of the filtered parts (no reordering across the input) |
| Seqs.SubtractSameMembers | hls4ml/backends/vitis/vitis_backend.py:44-52 | only membership in the excluded list matters: excluded lists with the same elements filter identically |
| Seqs.SubtractEmpty | hls4ml/backends/vitis/vitis_backend.py:44-54 | the filtered list is empty iff every input element is excluded |
| Seqs.SubtractNoneExcluded | hls4ml/backends/vitis/vitis_backend.py:44-52 | a list none of whose elements is excluded is returned unchanged |
| Seqs.RemoveSplicedKeys | hls4ml/backends/vitis/vitis_backend.py:59-61 | removing two keys spliced into a list at two cuts gives the list back when neither key was in it |
| Seqs.IndexOf | hls4ml/backends/vitis/vitis_backend.py:60-61 | `list.index`: no result iff the element is absent; otherwise a valid position holding the element with no earlier occurrence |
| Seqs.IndexOfFirst | hls4ml/backends/vitis/vitis_backend.py:60-61 | a position holding the element with none before it is the position `list.index` returns |
| Seqs.InsertAt | hls4ml/backends/vitis/vitis_backend.py:60-61 | `list.insert`: one longer, the new element at the given position, the prefix unchanged, the rest shifted up by one |
| Seqs.InsertBefore | hls4ml/backends/vitis/vitis_backend.py:60 | inserting before an anchor fails iff the anchor is absent; on success the list is one longer and holds the new key |
| Seqs.InsertBeforeMembers | hls4ml/backends/vitis/vitis_backend.py:60-61 | after a splice, the list holds exactly the old elements plus the inserted key |
| Seqs.InsertBeforeAnchor | hls4ml/backends/vitis/vitis_backend.py:60 | the inserted key stands directly in front of the anchor's first occurrence; what precedes it is unchanged, the rest shifts by one, and the anchor's first occurrence moves up one |
| Seqs.SpliceSecondAnchorAfter | hls4ml/backends/vitis/vitis_backend.py:60-61 | when the second anchor lies after the first, the second `index` finds it one place further up and the key goes in front of it |
| Seqs.SpliceSecondAnchorBefore | hls4ml/backends/vitis/vitis_backend.py:60-61 | when the second anchor lies before the first, its position is unchanged by the first insertion |
| Seqs.SpliceTwice | hls4ml/backends/vitis/vitis_backend.py:59-61 | two splices at distinct anchors give the base list cut at both anchor positions with the two keys in the cuts, in either anchor order |
| FlowRegistry.Registry.RegisterFlow | hls4ml/backends/vitis/vitis_backend.py:19 | `register_flow` stores the flow record under the backend-scoped key, returns that key and changes no other entry |
| FlowRegistry.Registry.GetFlow | hls4ml/backends/vitis/vitis_backend.py:59 | `get_flow` returns the stored record iff the key is registered |
| FlowRegistry.Registry.BackendPasses | hls4ml/backends/vitis/vitis_backend.py:42 | `get_backend_passes` returns the backend's registered pass list, or the empty list if it has none |
| Vitis.VitisBackend.RegisterFlows | hls4ml/backends/vitis/vitis_backend.py:16-63 | the registry afterwards is `SetupFlows` of the registry before; the writer flow is recorded; the default flow is recorded and returned iff the splice succeeds, and otherwise its error is returned |
| Vitis.StagedKeepsBase | hls4ml/backends/vitis/vitis_backend.py:19-59 | the registrations before the splice leave `vivado:ip` as it was, so the splice reads the original base flow |
| Vitis.ExtrasMembership | hls4ml/backends/vitis/vitis_backend.py:44-52 | a pass is an extra iff it is registered for the backend and not an initializer, writer or FIFO-optimization pass |
| Vitis.ExtrasKeepOrder | hls4ml/backends/vitis/vitis_backend.py:42-52 | the extras are a subsequence of the backend's registered passes, drawn from exactly the positions whose pass no named list covers |
| Vitis.ExtrasIgnoreWriterPasses | hls4ml/backends/vitis/vitis_backend.py:32-52 | because the FIFO-optimization passes contain the writer passes, excluding the writer passes separately does not change the extras |
| Vitis.ExtrasEmpty | hls4ml/backends/vitis/vitis_backend.py:44-57 | there are no extras iff every registered pass is an initializer or FIFO-optimization pass |
| Vitis.SetupFrame | hls4ml/backends/vitis/vitis_backend.py:19-63 | every flow outside this backend's seven keys is untouched, including the stored `vivado:ip` requirements the splice copied |
| Vitis.SetupNamedFlows | hls4ml/backends/vitis/vitis_backend.py:18-40 | the init_layers, validation, apply_templates, write and fifo_depth_optimization flows are registered with their passes and requirements |
| Vitis.SetupExtrasFlow | hls4ml/backends/vitis/vitis_backend.py:54-57 | an extras flow requiring only `vitis:init_layers` is registered iff there are extras; otherwise nothing is registered under its key |
| Vitis.SetupCoversEveryPass | hls4ml/backends/vitis/vitis_backend.py:42-57 | every registered pass of the backend is listed by the initializer, writer, FIFO-optimization or extras flow |
| Vitis.IpRequirementsSucceeds | hls4ml/backends/vitis/vitis_backend.py:59-61 | the splice succeeds iff `vivado:ip` exists and its requirements contain both anchors; otherwise it reports the first missing piece |
| Vitis.IpRequirementsValidationPlacement | hls4ml/backends/vitis/vitis_backend.py:60 | after the first insert the validation key directly precedes the first `vivado:init_layers`, the prefix keeps its positions and the length grows by one |
| Vitis.IpRequirementsShape | hls4ml/backends/vitis/vitis_backend.py:59-61 | the default requirements are two longer than the base requirements, are the base cut at the two anchors with the keys in the cuts, and give the base back once the two keys are removed |
| Vitis.IpRequirementsMembers | hls4ml/backends/vitis/vitis_backend.py:59-61 | the default requirements hold exactly the base requirements plus the validation and template keys, so `vitis:init_layers` and `vitis:extras` are absent unless the base names them |
| Vitis.SetupDefaultFlow | hls4ml/backends/vitis/vitis_backend.py:63 | the default flow is registered with no passes and the spliced requirements iff the splice succeeds; otherwise nothing is registered under its key |
| Vitis.CreateInitialConfig | hls4ml/backends/vitis/vitis_backend.py:65-76 | each of Part, ClockPeriod, ClockUncertainty and IOType is the argument when given and its default otherwise; HLSConfig is empty |
| Vitis.InitialConfigDefaultsAndFixpoint | hls4ml/backends/vitis/vitis_backend.py:65-74 | passing `None` and passing the defaults give the same configuration, and feeding a configuration's settings back in reproduces it |

## Left out

- `build` (`vitis_backend.py:78-94`) is out: it checks the platform, runs `vitis_hls` through the shell, changes directory and parses the synthesis report. All of that is external I/O.
- The `__init__` chain (`vitis_backend.py:11-14`) is left out. This covers the `VivadoBackend` base constructor, `_register_layer_attributes`, `_get_layer_initializers` and `_get_layer_templates`. The source does not show them. The initializers are an input of `RegisterFlows`, the template callable is an opaque tag, and the constructor only leaves both flow fields unset.
- The internals of `register_flow`, `get_flow` and `get_backend_passes` are not modelled, because they are not shown. This includes the duplicate-key check and the lower-casing of the backend name. Registering an existing key overwrites it. `register_flow` evidently does not check that required flows exist: lines 33 and 40 require `vitis:ip` before line 63 registers it.
- Running the passes, and expanding a flow's requirements into an execution order, happen outside this file. The model shows that every registered pass is listed by some Vitis flow (`SetupCoversEveryPass`), not that running `vitis:ip` reaches every pass.
- FlowRegistry.Registry.RegisterFlow: the argument is always a backend name; calls with `backend=None` are not modelled, because this file never makes them.
- Vitis.CreateInitialConfig: the clock period is an `int`. Python would also accept a float or another value, and the ignored `**_` keyword arguments are dropped.
- `extras_flow` (`vitis_backend.py:55-57`) is a local variable that nothing reads afterwards. The model sets it but states nothing about it beyond the registry entry.
- Keys are compared as datatype values, not as strings. Python compares the strings `'<backend>:<name>'`, so a non-canonical key such as `Global("vivado:init_layers")` would match the anchor there but does not match it here. The model does not cover registries that hold such keys.
