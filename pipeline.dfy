/**
 The EX -> RESPOND pipeline of the controller.

 The EX stage decodes the command word at the head of the receive FIFO and
 drives the experiment's address and write-data lines from it; its decision
 (opcode result, nop flag, cycle-count snapshot, address) is latched into the
 pipeline register on the clock edge, and the RESPOND stage reads the register
 during the following cycle. The opcode result, nop flag and cycle count come
 from the control and cycle-control blocks and enter here as inputs; the
 address comes from the decoded word.
 */
module Pipeline {
  import opened Bits
  import opened Codec

  /** Contents of the four pipeline registers. */
  datatype RegState = RegState(opcodeRes: nat, nop: bool, cycleCount: nat, addr: nat)

  /** Declared initial values: opcode 0, nop set, cycle count 0, address 0. */
  const Initial: RegState := RegState(0, true, 0, 0)

  /** The next values that the control and cycle-control blocks compute for
      the opcode-result, nop and cycle-count registers. */
  datatype ExNext = ExNext(opcodeResNext: nat, nopNext: bool, cycleCountNext: nat)
  {
    /** The values fit the `*_next` signals they are driven onto. */
    predicate Fits(layout: Layout)
    {
      opcodeResNext < Pow2(layout.widthOpcode) && cycleCountNext < Pow2(layout.widthValue)
    }
  }

  /** The address field of the command word (`cmd_addr`). */
  function CmdAddr(layout: Layout, word: nat): (a: nat)
    requires layout.WellFormed()
    ensures a == Field(word, layout.addr.low, layout.addr.Width())
  {
    SplitCmd(layout, word).value.addr
  }

  /** All four `*_next` values of a cycle: the address one is
      `pipeline_next_state_logic` (`ex_res_addr_next = cmd_addr`), the other
      three come from the EX-stage blocks. The address fits the number of
      bits the address range spans. */
  function NextState(layout: Layout, word: nat, ex: ExNext): (r: RegState)
    requires layout.WellFormed()
    ensures r.addr == Field(word, layout.addr.low, layout.addr.Width())
    ensures r.addr < Pow2(layout.addr.Width())
  {
    RegState(ex.opcodeResNext, ex.nopNext, ex.cycleCountNext, CmdAddr(layout, word))
  }

  /** The experiment's address and write-data lines. */
  datatype ExpLines = ExpLines(addr: nat, dataWrite: nat)

  /** `experiment_setup_connections`: the experiment lines follow the address
      and data fields of the current word, with no register in between. */
  function ExperimentLines(layout: Layout, word: nat): (lines: ExpLines)
    requires layout.WellFormed()
    ensures lines.addr == Field(word, layout.addr.low, layout.addr.Width())
    ensures lines.dataWrite == Field(word, layout.data.low, layout.data.Width())
  {
    ExpLines(CmdAddr(layout, word), SplitCmd(layout, word).value.data)
  }

  /** The experiment lines of the controller as built: the generator that
      drives them is not among the instances the controller returns, so the
      lines keep whatever value `held` they were created with. */
  function ExperimentLinesAsBuilt(held: ExpLines, layout: Layout, word: nat): ExpLines
  {
    held
  }

  /** As built, for whatever value the lines hold, some command word is
      addressed elsewhere than the experiment address line shows. */
  lemma ExperimentLinesAsBuiltIgnoreWord(held: ExpLines, layout: Layout)
    requires layout.WellFormed()
    ensures exists word: nat :: ExperimentLinesAsBuilt(held, layout, word).addr != ExperimentLines(layout, word).addr
  {
    var r := layout.addr;
    var word: nat := if held.addr == 0 then Pow2(r.low) else 0;
    assert ExperimentLines(layout, word).addr == Field(word, r.low, r.Width());
    if held.addr == 0 {
      FieldOfPow2(r.low, 0, r.Width());
      assert Field(word, r.low, r.Width()) == 1;
    } else {
      FieldOfZero(r.low, r.Width());
    }
    assert ExperimentLinesAsBuilt(held, layout, word).addr != ExperimentLines(layout, word).addr;
  }

  // ---------------------------------------------------------------------
  // One clock cycle, and runs of cycles

  /** What happens at a clock edge: a rising edge with the cycle's command
      word and EX-stage results, or the reset line. */
  datatype Event = Clock(word: nat, ex: ExNext) | ResetLine

  /** Register contents after one event (`pipeline_register_logic`). */
  function Step(layout: Layout, s: RegState, e: Event): RegState
    requires layout.WellFormed()
  {
    match e
    case Clock(word, ex) => NextState(layout, word, ex)
    case ResetLine => Initial
  }

  /** Register contents the RESPOND stage reads during each cycle: `s` in the
      first cycle, then one entry after each event. */
  function Seen(layout: Layout, s: RegState, evs: seq<Event>): (r: seq<RegState>)
    requires layout.WellFormed()
    ensures |r| == |evs| + 1 && r[0] == s
    decreases |evs|
  {
    if evs == [] then [s] else [s] + Seen(layout, Step(layout, s, evs[0]), evs[1..])
  }

  /** After any event, the register holds exactly the values that event put
      there: the EX decision of the cycle before, or the initial values after
      a reset. Nothing from older cycles reaches the RESPOND stage. */
  lemma {:induction false} OneCycleDelay(layout: Layout, s: RegState, evs: seq<Event>, k: nat)
    requires layout.WellFormed() && k < |evs|
    ensures evs[k].Clock? ==> Seen(layout, s, evs)[k + 1] == NextState(layout, evs[k].word, evs[k].ex)
    ensures evs[k].Clock? ==> Seen(layout, s, evs)[k + 1].addr == ExperimentLines(layout, evs[k].word).addr
    ensures evs[k].ResetLine? ==> Seen(layout, s, evs)[k + 1] == Initial
    decreases k
  {
    if k > 0 {
      OneCycleDelay(layout, Step(layout, s, evs[0]), evs[1..], k - 1);
    }
  }

  /** The first cycle after a reset carries no command. */
  lemma CycleAfterResetIsNop(layout: Layout, s: RegState, evs: seq<Event>, k: nat)
    requires layout.WellFormed() && k < |evs| && evs[k].ResetLine?
    ensures Seen(layout, s, evs)[k + 1].nop
  {
    OneCycleDelay(layout, s, evs, k);
  }

  /** The register entries that carry a command. */
  function Commands(entries: seq<RegState>): (r: seq<RegState>)
    ensures forall i :: 0 <= i < |r| ==> !r[i].nop
    ensures |r| <= |entries|
  {
    if entries == [] then []
    else (if entries[0].nop then [] else [entries[0]]) + Commands(entries[1..])
  }

  /** `Commands` keeps every entry whose nop flag is clear, and nothing that
      is not an entry. */
  lemma {:induction false} CommandsKeepsEveryCommand(entries: seq<RegState>)
    ensures forall e :: e in entries && !e.nop ==> e in Commands(entries)
    ensures forall e :: e in Commands(entries) ==> e in entries
    decreases |entries|
  {
    if entries != [] {
      CommandsKeepsEveryCommand(entries[1..]);
      assert forall e :: e in entries ==> e == entries[0] || e in entries[1..];
    }
  }

  /** `Commands` keeps a single entry exactly when its nop flag is clear. */
  lemma CommandsOfOne(e: RegState)
    ensures Commands([e]) == if e.nop then [] else [e]
  {
    assert [e][1..] == [];
  }

  /** `Commands` is an order-preserving filter: it distributes over
      concatenation. */
  lemma {:induction false} CommandsAppend(a: seq<RegState>, b: seq<RegState>)
    ensures Commands(a + b) == Commands(a) + Commands(b)
    decreases |a|
  {
    if a == [] {
      assert a + b == b;
    } else {
      var head := if a[0].nop then [] else [a[0]];
      assert (a + b)[0] == a[0];
      assert (a + b)[1..] == a[1..] + b;
      assert Commands(a + b) == head + Commands(a[1..] + b);
      CommandsAppend(a[1..], b);
      assert Commands(a) == head + Commands(a[1..]);
    }
  }

  /** The EX decisions of a run that carry a command, in cycle order. */
  function Issued(layout: Layout, evs: seq<Event>): seq<RegState>
    requires layout.WellFormed()
  {
    if evs == [] then []
    else
      (if evs[0].Clock? && !evs[0].ex.nopNext then [NextState(layout, evs[0].word, evs[0].ex)] else [])
      + Issued(layout, evs[1..])
  }

  /** Every EX decision that carries a command reaches the RESPOND stage
      exactly once, in the order issued, and the RESPOND stage sees no command
      that was not issued (beyond the register's starting content `s`, if that
      is not a nop). That each arrives in the cycle after it was issued is
      `OneCycleDelay`. */
  lemma {:induction false} CommandsReachRespondInOrder(layout: Layout, s: RegState, evs: seq<Event>)
    requires layout.WellFormed()
    ensures Commands(Seen(layout, s, evs)) == (if s.nop then [] else [s]) + Issued(layout, evs)
    decreases |evs|
  {
    var seen := Seen(layout, s, evs);
    if evs == [] {
      assert seen == [s];
      assert Commands(seen) == (if s.nop then [] else [s]) + Commands([]);
    } else {
      var s' := Step(layout, s, evs[0]);
      var rest := Seen(layout, s', evs[1..]);
      assert seen == [s] + rest;
      assert seen[1..] == rest;
      assert Commands(seen) == (if s.nop then [] else [s]) + Commands(rest);
      CommandsReachRespondInOrder(layout, s', evs[1..]);
      assert (if s'.nop then [] else [s']) ==
        (if evs[0].Clock? && !evs[0].ex.nopNext then [NextState(layout, evs[0].word, evs[0].ex)] else []);
    }
  }

  /** From power-up or reset, the commands the RESPOND stage receives are
      exactly the issued ones. */
  lemma {:induction false} FromInitialOnlyIssuedCommands(layout: Layout, evs: seq<Event>)
    requires layout.WellFormed()
    ensures Commands(Seen(layout, Initial, evs)) == Issued(layout, evs)
  {
    CommandsReachRespondInOrder(layout, Initial, evs);
  }

  // ---------------------------------------------------------------------
  // The register itself

  /** The four pipeline registers, each within its declared signal's width;
      the address register is at least as wide as the address range, so it
      can hold every decoded address. */
  class PipelineRegister {
    const layout: Layout
    var opcodeRes: nat
    var nop: bool
    var cycleCount: nat
    var addr: nat

    ghost predicate Valid()
      reads this
    {
      layout.WellFormed() && layout.widthAddr >= layout.addr.Width() &&
      opcodeRes < Pow2(layout.widthOpcode) &&
      cycleCount < Pow2(layout.widthValue) &&
      addr < Pow2(layout.widthAddr)
    }

    function State(): RegState
      reads this
    {
      RegState(opcodeRes, nop, cycleCount, addr)
    }

    /** The registers as declared: at their initial values. */
    constructor (l: Layout)
      requires l.WellFormed() && l.widthAddr >= l.addr.Width()
      ensures Valid() && layout == l
      ensures State() == Initial
    {
      layout := l;
      opcodeRes, nop, cycleCount, addr := 0, true, 0, 0;
    }

    /** A rising clock edge: every `*_next` value is computed from the current
        word and EX results, then all four registers take them together. */
    method Tick(word: nat, ex: ExNext)
      requires Valid() && ex.Fits(layout)
      modifies this
      ensures Valid()
      ensures State() == Step(layout, old(State()), Clock(word, ex))
      ensures opcodeRes == ex.opcodeResNext && nop == ex.nopNext && cycleCount == ex.cycleCountNext
      ensures addr == CmdAddr(layout, word)
    {
      var next := NextState(layout, word, ex);
      FitsWider(next.addr, layout.addr.Width(), layout.widthAddr);
      opcodeRes, nop, cycleCount, addr := next.opcodeRes, next.nop, next.cycleCount, next.addr;
    }

    /** The reset line: every register returns to its declared initial value,
        whatever was in flight. */
    method Reset()
      requires Valid()
      modifies this
      ensures Valid()
      ensures State() == Step(layout, old(State()), ResetLine)
      ensures State() == Initial
    {
      opcodeRes, nop, cycleCount, addr := 0, true, 0, 0;
    }
  }
}
