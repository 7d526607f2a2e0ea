// Instructions as the scheduler sees them: what isa.py decodes from the binary
// code, plus the events that Model.log_event_on appends while they flow through.
module Instructions {
  import opened Prelude

  // The bases of isa.py fall into disjoint groups, so one class per instruction
  // stands for is_branch, is_jump, is_regjump, is_muldiv, is_load and is_store.
  datatype Class = Branch | Jump | RegJump | MulDiv | Load | Store | Other

  datatype Op = Op(
    address: nat, size: nat, cls: Class,
    rd: Option<nat>, rs1: Option<nat>, rs2: Option<nat>,
    offset: nat, isCall: bool, isRet: bool)
  {
    predicate Valid() {
      (size == 2 || size == 4) && offset < 0x1_0000_0000
    }

    function NextAddr(): nat { address + size }

    predicate IsCompressed() { size == 2 }

    predicate HasWawFrom(other: Op) {
      rd.Some? && other.rd.Some? && other.rd == rd && other.rd.value != 0
    }

    predicate HasRawFrom(other: Op) {
      other.rd.Some? && other.rd.value != 0 && (rs1 == other.rd || rs2 == other.rd)
    }

    /** Cycles between issue and done in Model.try_execute. */
    function Duration(): nat {
      if cls.Load? || cls.Store? || cls.MulDiv? then 2 else 1
    }

    /** Instructions after which Model.predict_pc has an opinion. */
    predicate Predicts() { cls.Branch? || cls.RegJump? }
  }

  /** Two's complement reading of a 32-bit field. */
  function ToSigned(value: nat): int {
    if value >= 0x8000_0000 then value - 0x1_0000_0000 else value
  }

  datatype EventKind = WAW | WAR | RAW | BMISS | BHIT | STRUCT | Issue | Done | Commit

  datatype Event = Event(kind: EventKind, cycle: int)

  // Unit that served an instruction; the two ALUs are told apart because they
  // write back through different ports.
  datatype ServedBy = NotServed | FirstAlu | SecondAlu | Multiplier | BranchUnit | MemoryUnit

  // `unit` records FusBusy's choice for the proofs; the source does not keep it.
  datatype Instruction = Instruction(op: Op, events: seq<Event>, unit: ServedBy)
  {
    function Log(evs: seq<Event>): Instruction { this.(events := events + evs) }

    predicate Has(kind: EventKind) { exists k :: 0 <= k < |events| && events[k].kind == kind }
  }

  function Fresh(op: Op): Instruction { Instruction(op, [], NotServed) }

  function FreshQueue(trace: seq<Op>): (q: seq<Instruction>)
    ensures |q| == |trace|
  {
    seq(|trace|, i requires 0 <= i < |trace| => Fresh(trace[i]))
  }

  function Ops(instrs: seq<Instruction>): (ops: seq<Op>)
    ensures |ops| == |instrs|
    ensures forall i :: 0 <= i < |ops| ==> ops[i] == instrs[i].op
  {
    seq(|instrs|, i requires 0 <= i < |instrs| => instrs[i].op)
  }

  lemma OpsJoin(a: seq<Instruction>, b: seq<Instruction>)
    ensures Ops(a + b) == Ops(a) + Ops(b)
  {
  }

  lemma OpsOne(i: Instruction)
    ensures Ops([i]) == [i.op]
  {
  }

  /** Number of events of one kind. */
  function Count(events: seq<Event>, kind: EventKind): nat {
    if events == [] then 0
    else Count(events[..|events| - 1], kind) + (if events[|events| - 1].kind == kind then 1 else 0)
  }

  /** Cycle of the latest event of one kind, -1 when there is none. */
  function CycleOf(events: seq<Event>, kind: EventKind): int {
    if events == [] then -1
    else if events[|events| - 1].kind == kind then events[|events| - 1].cycle
    else CycleOf(events[..|events| - 1], kind)
  }

  lemma AppendOne(events: seq<Event>, e: Event, kind: EventKind)
    ensures Count(events + [e], kind) == Count(events, kind) + (if e.kind == kind then 1 else 0)
    ensures CycleOf(events + [e], kind) == if e.kind == kind then e.cycle else CycleOf(events, kind)
  {
    assert (events + [e])[..|events|] == events;
  }
}
