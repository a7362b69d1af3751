# fpgaedu command controller: field splitting and the EX -> RESPOND pipeline register

This project models the top-level `Controller` of fpgaedu (`fpgaedu/hdl/_controller.py`).
The controller is a MyHDL design. It reads command words from a receive FIFO and drives a
memory-mapped experiment. Its responses go to a transmit FIFO one clock cycle later, through
a two-stage EX -> RESPOND pipeline. The model covers the parts whose logic is written in that
file:

- **`split_cmd`** (`codec.dfy`, module `Codec`). It cuts the command word into opcode,
  address, data and value fields. Each field is an inclusive `[high:low]` bit range from the
  layout configuration (`ControllerSpec`). A MyHDL slice `word[high+1:low]` is modelled as
  `(word mod 2^(high+1)) / 2^low`. The slice is refused (`None`) when `high + 1 <= low`. It is
  proved equal to `(word >> low) mod 2^(high-low+1)`. `bits.dfy` (module `Bits`) holds the
  arithmetic: powers of two, single bits, and a bit-by-bit reference definition of a field.
- **`pipeline_next_state_logic`, `experiment_setup_connections`** (`pipeline.dfy`, module
  `Pipeline`). These are pure functions of the current command word. `ex_res_addr_next` is
  the decoded address, and the experiment's address and write-data lines are the decoded
  address and data.
- **`pipeline_register_logic`** (`Pipeline.PipelineRegister`). This class holds the four
  registers `ex_res_opcode_res_reg`, `ex_res_nop_reg`, `ex_res_cycle_count_reg` and
  `ex_res_addr_reg`. `Tick` computes every `*_next` value from the current word and the
  EX-stage results, then latches all four together. `Reset` returns them to their declared
  initial values. The pure function `Step` is the specification of both methods, and
  `Seen` lists the register contents the RESPOND stage reads in each cycle of a run of clock
  edges and resets.

The opcode-result, nop and cycle-count next values come from `ControllerControl` and
`ControllerCycleControl`. Their source is not part of this model, so these values enter as
the `ExNext` input of a tick. Each is bounded by the width of the signal it drives.

## Model

| member | source | states |
|---|---|---|
| `Codec.Slice` | fpgaedu/hdl/_controller.py:128-135 | a field slice exists exactly when the range is well formed (`low <= high`, otherwise the `intbv` slice is refused), and it is below `2^(high-low+1)` |
| `Codec.SliceIsField` | fpgaedu/hdl/_controller.py:128-135 | the slice `word[high+1:low]` equals `(word >> low) mod 2^(high-low+1)` |
| `Codec.SliceBits` | fpgaedu/hdl/_controller.py:128-135 | bit `i` of a decoded field is bit `low+i` of the word for `i <= high-low`, and 0 above: the field is exactly the inclusive range `[high:low]` |
| `Codec.SliceIgnoresOtherBits` | fpgaedu/hdl/_controller.py:128-135 | two words that agree on bits `low..high` decode to the same field, so bits outside the range do not matter |
| `Codec.DisjointFieldsIndependent` | fpgaedu/hdl/_controller.py:128-135 | rewriting the bits of one field's range leaves every field with a non-overlapping range unchanged |
| `Codec.SplitCmd` | fpgaedu/hdl/_controller.py:126-135 | decoding succeeds for every word exactly when all four ranges are well formed; each of opcode, address, data and value is `(word >> low) mod 2^(high-low+1)` and is below `2^(high-low+1)` |
| `Codec.SplitCmdFieldsIndependent` | fpgaedu/hdl/_controller.py:126-135 | on a layout whose four ranges do not overlap, rewriting the bits of one field of a word leaves the other three decoded fields unchanged |
| `Codec.Store` | fpgaedu/hdl/_controller.py:84-87 | driving a value onto an `intbv(0)[nbits:0]` signal (MyHDL's bounds check on `.next`): the value is held, unchanged, exactly when `nbits > 0` and every bit of it at position `nbits` or above is clear; otherwise it is refused |
| `Codec.StoreCommand` | fpgaedu/hdl/_controller.py:128-135 | the four fields assigned to their signals are held unchanged exactly when each fits its signal's width; otherwise the command is refused |
| `Codec.SplitCmdAsDeclared` | fpgaedu/hdl/_controller.py:84-87 | `split_cmd` as written, storing into the `width-1`-bit signals: whatever it holds is the decoded command unchanged; which words it refuses is `Codec.DeclaredSignalsRefuseExactlyTopBits` |
| `Codec.DeclaredSignalsRefuseExactlyTopBits` | fpgaedu/hdl/_controller.py:84-87 | on a layout whose widths equal their spans, the `width-1`-bit signals as written hold a word's command exactly when every range spans more than one bit and the word's bit at each range's `high` index is clear; every other word is refused |
| `Codec.SplitCmdIntoSignals` | fpgaedu/hdl/_controller.py:126-135 | `split_cmd` storing into signals of the configured widths: whatever it holds is the decoded command unchanged; that it holds every command is `Codec.SignalsHoldEveryCommand` |
| `Codec.DeclaredSignalsRefuseTopBit` | fpgaedu/hdl/_controller.py:84-87 | with the fields stored on signals declared `width-1` bits wide, the word with only the opcode field's top bit set decodes but its store is refused (MyHDL's simulation bounds check; converted Verilog or VHDL would truncate the bit instead) |
| `Codec.SignalsHoldEveryCommand` | fpgaedu/hdl/_controller.py:84-87 | with the field signals declared at the configured widths, every decoded command is stored unchanged, for every word, whenever each width is at least its range's span |
| `Codec.DeclaredSignalsHoldWhenOneBitWider` | fpgaedu/hdl/_controller.py:84-87 | the `width-1`-bit declarations as written hold every decoded command when each configured width is one more than its range's span |
| `Pipeline.CmdAddr` | fpgaedu/hdl/_controller.py:130-131 | `cmd_addr` is the address range of the word, `(word >> addr_low) mod 2^(addr_high-addr_low+1)` |
| `Pipeline.NextState` | fpgaedu/hdl/_controller.py:117-119 | `pipeline_next_state_logic`: `ex_res_addr_next` is the address field of the word and fits the address range's span; the other three next values pass through from the EX blocks, which `Pipeline.PipelineRegister.Tick` and `Pipeline.OneCycleDelay` state |
| `Pipeline.ExperimentLines` | fpgaedu/hdl/_controller.py:121-124 | the experiment address and write-data lines are the address and data fields of the current word, with no register in between |
| `Pipeline.ExperimentLinesAsBuilt` | fpgaedu/hdl/_controller.py:137-138 | the experiment lines as built, with `experiment_setup_connections` not among the returned instances: they keep the value they were created with; no ensures of its own, what it means is `Pipeline.ExperimentLinesAsBuiltIgnoreWord` |
| `Pipeline.ExperimentLinesAsBuiltIgnoreWord` | fpgaedu/hdl/_controller.py:121-124 | as built, the experiment lines keep their initial value, so for any such value some word is addressed elsewhere than the address line shows |
| `Pipeline.Step` | fpgaedu/hdl/_controller.py:110-115 | `pipeline_register_logic` as a function of one event: a clock edge latches that cycle's next values, the reset line restores the declared initial values; no ensures of its own, it is pinned down by `Pipeline.PipelineRegister.Tick`, `Pipeline.PipelineRegister.Reset` and `Pipeline.OneCycleDelay` |
| `Pipeline.Seen` | fpgaedu/hdl/_controller.py:110-115 | a run of `n` clock edges or resets shows the RESPOND stage `n+1` register contents, starting with the register's starting content `s` |
| `Pipeline.OneCycleDelay` | fpgaedu/hdl/_controller.py:110-119 | in the cycle after a clock edge, the register holds exactly that edge's `*_next` values, and its address is the address the experiment lines showed in the cycle before; after a reset it holds the initial values; nothing older reaches the RESPOND stage |
| `Pipeline.CycleAfterResetIsNop` | fpgaedu/hdl/_controller.py:68-75 | the first cycle after a reset is a nop |
| `Pipeline.Commands` | fpgaedu/hdl/_controller.py:70-71 | the entries kept as commands all have the nop flag clear, and there are no more of them than entries |
| `Pipeline.CommandsKeepsEveryCommand` | fpgaedu/hdl/_controller.py:70-71 | every entry with the nop flag clear is kept as a command, and only entries are kept |
| `Pipeline.CommandsOfOne` | fpgaedu/hdl/_controller.py:70-71 | a single entry is kept exactly when its nop flag is clear |
| `Pipeline.CommandsAppend` | fpgaedu/hdl/_controller.py:70-71 | keeping the commands distributes over concatenation, so it preserves the order of the entries |
| `Pipeline.CommandsReachRespondInOrder` | fpgaedu/hdl/_controller.py:110-115 | over any run, the commands among the register contents the RESPOND stage reads are the starting content (if not a nop) followed by the EX decisions with nop clear, each exactly once and in issue order; that each arrives one cycle after it was issued is `Pipeline.OneCycleDelay` |
| `Pipeline.FromInitialOnlyIssuedCommands` | fpgaedu/hdl/_controller.py:68-75 | starting from the declared initial values, the commands the RESPOND stage receives are exactly the issued ones |
| `Pipeline.PipelineRegister.constructor` | fpgaedu/hdl/_controller.py:67-75 | the registers start at opcode 0, nop set, cycle count 0, address 0, within their declared widths, for any well-formed layout whose address width covers the address range |
| `Pipeline.PipelineRegister.Tick` | fpgaedu/hdl/_controller.py:110-119 | one clock edge: all four registers take their `*_next` values together (opcode result, nop and cycle count from the EX blocks, address = decoded `cmd_addr`, the same value the experiment address line carries), the values stay within their declared widths, and no other state changes |
| `Pipeline.PipelineRegister.Reset` | fpgaedu/hdl/_controller.py:68-75 | the reset line returns all four registers to their declared initial values |

## Findings

| source | as written | input that shows it | evidently intended | confidence | as-written member | corrected member |
|---|---|---|---|---|---|---|
| fpgaedu/hdl/_controller.py:84-87 | `cmd_opcode`, `cmd_addr`, `cmd_data` and `cmd_value` are declared `intbv(0)[width-1:0]`, one bit narrower than the `high-low+1`-bit slices assigned to them | a layout whose widths equal their range spans, and the word `2^index_opcode_high` (top opcode bit set): the slice is `2^(width_opcode-1)`, which a `width_opcode-1`-bit signal refuses | declare each field signal with `width` bits, so every slice fits | not executed; assumes `ControllerSpec` (not part of this model) sets each width to `high-low+1`; if each width is `high-low+2` instead, the declarations are right (`Codec.DeclaredSignalsHoldWhenOneBitWider`) | `Codec.DeclaredSignalsRefuseTopBit` | `Codec.SignalsHoldEveryCommand` |
| fpgaedu/hdl/_controller.py:121-124 | `experiment_setup_connections` is defined but left out of the instances returned at lines 137-138, so `exp_addr` and `exp_data_write` are never driven | any word whose address field differs from the value the address line was created with (for example the word with only bit `index_addr_low` set, when the line holds 0) | the experiment lines follow the decoded address and data fields every cycle | not executed; medium, it depends on MyHDL only elaborating returned instances | `Pipeline.ExperimentLinesAsBuiltIgnoreWord` | `Pipeline.ExperimentLines` |

The rest of the model uses the corrected behaviour. Fields are stored at their full width.
The experiment lines follow the decoded word. `PipelineRegister.Tick` states that the
latched address equals the experiment address line.

## Left out

- `ControllerControl`, `ControllerCycleControl` and `ControllerResponseCompose` are not part of this model. They are instantiated at fpgaedu/hdl/_controller.py:89-108. Acceptance and backpressure, the STEP/START/PAUSE clocking modes, opcode dispatch and response encoding are therefore not modelled. Their register inputs (`opcode_res_next`, `nop_next`, `cycle_count_next`) are opaque `ExNext` values. Their other outputs (`rx_fifo_dequeue`, `exp_wen`, `exp_reset`, `exp_clk_en`, `tx_fifo_enqueue`, `tx_fifo_data_write`) do not appear at all.
- Response emission: the model shows which register contents the RESPOND stage receives and whether their nop flag is set. Whether a response is enqueued is decided by `ControllerResponseCompose`, which is not modelled.
- `cmd_value` is decoded but never connected to cycle control (fpgaedu/hdl/_controller.py:97-100). No STEP count follows from it.
- `cmd_opcode` is only passed to `ControllerControl`, so its use is not modelled.
- The encode direction and the decode/encode round trip belong to response composition, which is not part of this model.
- MyHDL simulation semantics (delta cycles, generator scheduling, reset polarity, synchronous versus asynchronous reset) are not modelled. A cycle is one atomic `Tick`, and the reset line is an event that takes the place of a clock edge.
- Storing a value that does not fit its signal is modelled as refused (`None`), as MyHDL's simulator does on `.next`. A design converted to Verilog or VHDL would truncate the value instead; that semantics is not modelled.
- The receive FIFO's word width is not modelled. A word is an unbounded natural number, and range bits above the word's top bit read as 0, as an `intbv` slice gives.
- `Pipeline.PipelineRegister.Tick` requires the EX-stage next values to fit their declared widths, because the `*_next` signals cannot hold larger values. The register also requires a well-formed layout whose address width is at least the address range's span; the other three widths are unconstrained. With a narrower width, a decoded address of `2^width_addr` or more would be refused by `ex_res_addr_next`; the model does not cover that configuration.
- fpgaedu/hdl/nexys4/_test_setup.py is not modelled. It is board wiring: UART at 9600 baud plus a test experiment, built from components that are not part of this model.
