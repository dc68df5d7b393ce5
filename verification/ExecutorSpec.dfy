/**
 * The compile-time virtual machine of src/comptime/executor_context.cpp as a transition system over values. Module
 * Executor holds the class that updates its fields in place; every one of its methods is proved to follow this system.
 */
module ExecutorSpec {
  import opened Options

  /** `instruction_value`; `Nothing` is its `none` member. */
  datatype Value = Nothing | Bits(bits: int)

  /** An entry of `switch_info_t`. */
  datatype SwitchCase = SwitchCase(value: int, dest: nat)

  /**
   * The instructions as far as control flow goes: every one that only computes a value is an `Operation`. Operands are
   * indices into the values of the running function.
   */
  datatype Instruction =
    | Operation
    | Call(callee: nat, argsIndex: nat, srcTokensIndex: nat)
    | IndirectCall(argsIndex: nat, srcTokensIndex: nat)
    | Jump(dest: nat)
    | ConditionalJump(condition: nat, trueDest: nat, falseDest: nat)
    | Switch(operand: nat, cases: seq<SwitchCase>, defaultDest: nat)
    | Ret(operand: nat)
    | RetVoid
    | Unreachable
  {
    predicate IsTerminator() {
      !Operation? && !IsCall()
    }

    predicate IsCall() {
      Call? || IndirectCall?
    }
  }

  /** `function`; an alloca is known by its `is_always_initialized` flag. */
  datatype Function = Function(
    instructions: seq<Instruction>, allocas: seq<bool>, callArgs: seq<seq<nat>>, canStackAddressLeak: bool)
  {
    function ValueCount(): nat {
      |allocas| + |instructions|
    }
  }

  type Program = seq<Function>

  /** The memory manager gives an object its address and can wrap that in an address that names the stack frame. */
  datatype StackObject = StackObject(address: int, frameAddress: int)

  /** What an instruction does that control flow does not determine: results, errors, called function, allocator. */
  datatype Effects = Effects(
    value: Value, reportsError: bool, callee: nat, pushGood: bool, objects: seq<StackObject>)

  /** A pointer into the instructions of a function. */
  datatype InstructionPtr = InstructionPtr(func: nat, index: nat)

  /** A pointer into a buffer of instruction values; depth `|callStack|` is the running function's buffer. */
  datatype Slot = Slot(depth: nat, index: nat)

  /** `execution_frame_info_t` */
  datatype Saved = Saved(func: nat, callInst: InstructionPtr, callSrc: nat, args: seq<Value>, values: seq<Value>)

  datatype State = State(
    cur: InstructionPtr, slot: Slot, next: Option<nat>,
    retValue: Value, returned: bool, hasError: bool,
    func: nat, args: seq<Value>, values: seq<Value>, callSrc: nat,
    callStack: seq<Saved>, stackFrames: seq<seq<StackObject>>)

  const MAX_CALL_DEPTH: nat := 1024

  // ----- programs -----

  ghost predicate WellFormedInstruction(p: Program, f: Function, i: Instruction) {
    match i
    case Operation | RetVoid | Unreachable => true
    case Ret(operand) => operand < f.ValueCount()
    case Call(callee, argsIndex, _) => callee < |p| && argsIndex < |f.callArgs|
    case IndirectCall(argsIndex, _) => argsIndex < |f.callArgs|
    case Jump(dest) => dest < |f.instructions|
    case ConditionalJump(c, t, e) => c < f.ValueCount() && t < |f.instructions| && e < |f.instructions|
    case Switch(operand, cases, d) =>
      && operand < f.ValueCount() && d < |f.instructions|
      && forall k :: 0 <= k < |cases| ==> cases[k].dest < |f.instructions|
  }

  /** Every basic block ends in a terminator, so the last instruction of a function is one. */
  ghost predicate WellFormedFunction(p: Program, f: Function) {
    && f.instructions != []
    && f.instructions[|f.instructions| - 1].IsTerminator()
    && (forall k :: 0 <= k < |f.instructions| ==> WellFormedInstruction(p, f, f.instructions[k]))
    && (forall k, a :: 0 <= k < |f.callArgs| && 0 <= a < |f.callArgs[k]| ==> f.callArgs[k][a] < f.ValueCount())
  }

  ghost predicate WellFormed(p: Program) {
    forall f :: 0 <= f < |p| ==> WellFormedFunction(p, p[f])
  }

  // ----- operands -----

  /** A value is read as a boolean or as a number; one that was never computed reads as zero. */
  function AsNumber(v: Value): int {
    if v.Bits? then v.bits else 0
  }

  function AsBoolean(v: Value): bool {
    AsNumber(v) != 0
  }

  /** `std::lower_bound`: the cases in front of the first that is not below `x`. */
  function LowerBound(cases: seq<SwitchCase>, x: int): (r: nat)
    ensures r <= |cases|
  {
    if cases == [] || cases[0].value >= x then 0 else 1 + LowerBound(cases[1..], x)
  }

  /** `execute_switch` */
  function Destination(cases: seq<SwitchCase>, defaultDest: nat, x: int): nat {
    var it := LowerBound(cases, x);
    if it < |cases| && cases[it].value == x then cases[it].dest else defaultDest
  }

  // ----- transitions -----

  /** What `*current_instruction_value = value` does, whichever buffer the pointer is in. */
  function SetSlot(s: State, value: Value): State
    requires s.slot.depth <= |s.callStack|
    requires s.slot.depth == |s.callStack| ==> s.slot.index < |s.values|
    requires s.slot.depth < |s.callStack| ==> s.slot.index < |s.callStack[s.slot.depth].values|
  {
    if s.slot.depth == |s.callStack| then s.(values := s.values[s.slot.index := value])
    else
      var frame := s.callStack[s.slot.depth];
      s.(callStack := s.callStack[s.slot.depth := frame.(values := frame.values[s.slot.index := value])])
  }

  /** The values a new frame starts with: the addresses of its allocas, then nothing for each instruction. */
  function FrameValues(f: Function, objects: seq<StackObject>): (r: seq<Value>)
    requires |objects| == |f.allocas|
    ensures |r| == f.ValueCount()
  {
    seq(|f.allocas|, i requires 0 <= i < |f.allocas| =>
      if !f.canStackAddressLeak || f.allocas[i] then Bits(objects[i].address) else Bits(objects[i].frameAddress))
    + seq(|f.instructions|, i => Nothing)
  }

  function CallArguments(values: seq<Value>, indices: seq<nat>): (r: seq<Value>)
    requires forall a :: 0 <= a < |indices| ==> indices[a] < |values|
    ensures |r| == |indices|
  {
    seq(|indices|, a requires 0 <= a < |indices| => values[indices[a]])
  }

  /** What `call_function` relies on: the argument list exists and the frame's objects are the callee's allocas. */
  ghost predicate CanCall(p: Program, s: State, callee: nat, argsIndex: nat, objects: seq<StackObject>) {
    && s.func < |p| && callee < |p|
    && argsIndex < |p[s.func].callArgs|
    && (forall a :: 0 <= a < |p[s.func].callArgs[argsIndex]| ==> p[s.func].callArgs[argsIndex][a] < |s.values|)
    && |objects| == |p[callee].allocas|
  }

  /** `call_function`: the depth check and a failed push report an error and leave the rest as it was. */
  function CallFunction(p: Program, s: State, callee: nat, argsIndex: nat, src: nat, e: Effects): State
    requires CanCall(p, s, callee, argsIndex, e.objects)
  {
    if |s.stackFrames| >= MAX_CALL_DEPTH || !e.pushGood then s.(hasError := true)
    else Enter(p, s.(stackFrames := s.stackFrames + [e.objects]), callee, argsIndex, src, e.objects)
  }

  /** The part of `call_function` after the frame has been pushed. */
  function Enter(p: Program, s: State, callee: nat, argsIndex: nat, src: nat, objects: seq<StackObject>): State
    requires CanCall(p, s, callee, argsIndex, objects)
  {
    s.(callStack := s.callStack + [Saved(s.func, s.cur, s.callSrc, s.args, s.values)],
       func := callee,
       args := CallArguments(s.values, p[s.func].callArgs[argsIndex]),
       values := FrameValues(p[callee], objects),
       callSrc := src,
       next := Some(0))
  }

  /** The outermost frame never hands out frame addresses. */
  function ValuesAtDepth(f: Function, depth: nat, objects: seq<StackObject>): (r: seq<Value>)
    requires |objects| == |f.allocas|
    ensures |r| == f.ValueCount()
  {
    FrameValues(if depth == 0 then f.(canStackAddressLeak := false) else f, objects)
  }

  /** The buffer of a frame has room for allocas and instructions, and starts with the addresses of the allocas. */
  ghost predicate FrameOk(p: Program, depth: nat, func: nat, values: seq<Value>, objects: seq<StackObject>) {
    && func < |p|
    && |objects| == |p[func].allocas|
    && |values| == p[func].ValueCount()
    && values[..|objects|] == ValuesAtDepth(p[func], depth, objects)[..|objects|]
  }

  /**
   * A saved caller stands at a call instruction that has a successor, and when that call is direct it names the
   * function of the frame above.
   */
  ghost predicate SavedOk(p: Program, depth: nat, frame: Saved, objects: seq<StackObject>, above: nat) {
    && FrameOk(p, depth, frame.func, frame.values, objects)
    && frame.callInst.func == frame.func
    && frame.callInst.index + 1 < |p[frame.func].instructions|
    && var i := p[frame.func].instructions[frame.callInst.index];
       i.IsCall() && (i.Call? ==> i.callee == above)
  }

  /** The function that runs in frame `k`. */
  function FuncAt(callStack: seq<Saved>, func: nat, k: nat): nat
    requires k <= |callStack|
  {
    if k < |callStack| then callStack[k].func else func
  }

  ghost predicate StackOk(p: Program, callStack: seq<Saved>, stackFrames: seq<seq<StackObject>>, func: nat) {
    && |callStack| < |stackFrames|
    && forall k :: 0 <= k < |callStack| ==>
         SavedOk(p, k, callStack[k], stackFrames[k], FuncAt(callStack, func, k + 1))
  }

  ghost predicate FramesOk(p: Program, s: State) {
    && |s.stackFrames| == |s.callStack| + 1 <= MAX_CALL_DEPTH
    && StackOk(p, s.callStack, s.stackFrames, s.func)
    && FrameOk(p, |s.callStack|, s.func, s.values, s.stackFrames[|s.callStack|])
  }

  /** Holds in every reachable state between two instructions. */
  ghost predicate Inv(p: Program, s: State) {
    && FramesOk(p, s)
    && s.next.None?
    && s.cur.func == s.func
    && s.cur.index < |p[s.func].instructions|
    && s.slot == Slot(|s.callStack|, s.cur.index + |p[s.func].allocas|)
    && (s.returned ==> s.callStack == [])
  }

  ghost predicate Running(s: State) {
    !s.returned && !s.hasError
  }

  /** The program is not at an `unreachable` and the memory manager lays out the callee's allocas. */
  ghost predicate Enabled(p: Program, s: State, e: Effects)
    requires Inv(p, s)
  {
    match p[s.func].instructions[s.cur.index]
    case Unreachable => false
    case Call(callee, _, _) => callee < |p| && |e.objects| == |p[callee].allocas|
    case IndirectCall(_, _) => e.callee < |p| && |e.objects| == |p[e.callee].allocas|
    case _ => true
  }

  /** The loop can take a turn. */
  ghost predicate CanStep(p: Program, s: State, e: Effects) {
    WellFormed(p) && Inv(p, s) && Running(s) && Enabled(p, s, e)
  }

  /** What executing the current instruction relies on. */
  ghost predicate Ready(p: Program, s: State, e: Effects) {
    && s.func < |p| && s.cur.index < |p[s.func].instructions|
    && s.slot.depth == |s.callStack| && s.slot.index < |s.values|
    && match p[s.func].instructions[s.cur.index] {
         case Operation | RetVoid => true
         case Ret(operand) => operand < |s.values|
         case Call(callee, argsIndex, _) => CanCall(p, s, callee, argsIndex, e.objects)
         case IndirectCall(argsIndex, _) => CanCall(p, s, e.callee, argsIndex, e.objects)
         case Jump(dest) => dest < |p[s.func].instructions|
         case ConditionalJump(c, t, o) =>
           c < |s.values| && t < |p[s.func].instructions| && o < |p[s.func].instructions|
         case Switch(operand, cases, d) =>
           && operand < |s.values| && d < |p[s.func].instructions|
           && forall k :: 0 <= k < |cases| ==> cases[k].dest < |p[s.func].instructions|
         case Unreachable => false
       }
  }

  /** The instruction's own work. */
  function Dispatch(p: Program, s: State, e: Effects): (r: State)
    requires Ready(p, s, e)
    ensures r.slot == s.slot
    ensures || (r.callStack == s.callStack && r.values == s.values)
            || r.callStack == s.callStack + [Saved(s.func, s.cur, s.callSrc, s.args, s.values)]
  {
    match p[s.func].instructions[s.cur.index]
    case Operation => s.(hasError := s.hasError || e.reportsError)
    case Call(callee, argsIndex, src) => CallFunction(p, s, callee, argsIndex, src, e)
    case IndirectCall(argsIndex, src) => CallFunction(p, s, e.callee, argsIndex, src, e)
    case Jump(dest) => s.(next := Some(dest))
    case ConditionalJump(c, t, o) => s.(next := Some(if AsBoolean(s.values[c]) then t else o))
    case Switch(operand, cases, d) => s.(next := Some(Destination(cases, d, AsNumber(s.values[operand]))))
    case Ret(operand) => s.(retValue := s.values[operand], returned := true)
    case RetVoid => s.(returned := true)
    case Unreachable => s
  }

  function Result(p: Program, s: State, e: Effects): Value
    requires s.func < |p| && s.cur.index < |p[s.func].instructions|
  {
    if p[s.func].instructions[s.cur.index].Operation? then e.value else Nothing
  }

  /** `execute_current_instruction`: the instruction's result is written through the slot pointer afterwards. */
  function Execute(p: Program, s: State, e: Effects): State
    requires Ready(p, s, e)
  {
    SetSlot(Dispatch(p, s, e), Result(p, s, e))
  }

  /** A state `advance` can start from. */
  ghost predicate Executed(p: Program, s: State) {
    && FramesOk(p, s)
    && (s.next.Some? ==> s.next.value < |p[s.func].instructions| && !s.returned)
    && (s.next.None? ==>
          && s.cur.func == s.func
          && s.slot == Slot(|s.callStack|, s.cur.index + |p[s.func].allocas|)
          && s.cur.index < |p[s.func].instructions|
          && (!s.returned ==> !p[s.func].instructions[s.cur.index].IsTerminator()))
  }

  /** The last caller can go on behind its call. */
  ghost predicate CanResume(p: Program, s: State) {
    && s.callStack != [] && s.stackFrames != []
    && var frame := s.callStack[|s.callStack| - 1];
       && frame.func < |p| && frame.callInst.func == frame.func
       && frame.callInst.index + 1 < |p[frame.func].instructions|
       && |frame.values| == p[frame.func].ValueCount()
  }

  /** What `advance` relies on; the last case holds its three assertions. */
  ghost predicate CanAdvance(p: Program, s: State) {
    && s.func < |p|
    && if s.next.Some? then s.next.value < |p[s.func].instructions|
       else if s.returned then s.callStack == [] || CanResume(p, s)
       else
         && s.cur.index < |p[s.func].instructions| - 1
         && s.slot.index < |s.values| - 1
         && !p[s.func].instructions[s.cur.index].IsTerminator()
  }

  /** `advance` */
  function Advance(p: Program, s: State): State
    requires CanAdvance(p, s)
  {
    if s.next.Some? then
      s.(cur := InstructionPtr(s.func, s.next.value),
         slot := Slot(|s.callStack|, s.next.value + |p[s.func].allocas|),
         next := None)
    else if s.returned then
      if s.callStack == [] then s else Resume(p, s)
    else
      s.(cur := InstructionPtr(s.cur.func, s.cur.index + 1), slot := Slot(s.slot.depth, s.slot.index + 1))
  }

  /** The return path of `advance`. */
  function Resume(p: Program, s: State): State
    requires CanResume(p, s)
  {
    var last := |s.callStack| - 1;
    var frame := s.callStack[last];
    var index := frame.callInst.index + 1;
    var valueIndex := index + |p[frame.func].allocas|;
    s.(func := frame.func,
       args := frame.args,
       values := frame.values[valueIndex - 1 := s.retValue],
       callSrc := frame.callSrc,
       cur := InstructionPtr(frame.callInst.func, index),
       slot := Slot(last, valueIndex),
       returned := false,
       callStack := s.callStack[..last],
       stackFrames := s.stackFrames[..|s.stackFrames| - 1])
  }

  lemma WriteKeepsFrame(p: Program, depth: nat, func: nat, values: seq<Value>, objects: seq<StackObject>, i: nat,
                        v: Value)
    requires FrameOk(p, depth, func, values, objects)
    requires |objects| <= i < |values|
    ensures FrameOk(p, depth, func, values[i := v], objects)
  {
    assert values[i := v][..|objects|] == values[..|objects|];
  }

  lemma PushKeepsStack(
    p: Program, callStack: seq<Saved>, stackFrames: seq<seq<StackObject>>, func: nat, frame: Saved,
    objects: seq<StackObject>, callee: nat)
    requires StackOk(p, callStack, stackFrames, func) && |stackFrames| == |callStack| + 1
    requires frame.func == func
    requires SavedOk(p, |callStack|, frame, stackFrames[|callStack|], callee)
    ensures StackOk(p, callStack + [frame], stackFrames + [objects], callee)
  {
  }

  lemma PopKeepsStack(p: Program, callStack: seq<Saved>, stackFrames: seq<seq<StackObject>>, func: nat)
    requires callStack != [] && StackOk(p, callStack, stackFrames, func)
    ensures StackOk(p, callStack[..|callStack| - 1], stackFrames[..|stackFrames| - 1], callStack[|callStack| - 1].func)
  {
  }

  /** The invariant and well-formed code give everything an instruction relies on. */
  lemma ReadyToExecute(p: Program, s: State, e: Effects)
    requires WellFormed(p) && Inv(p, s) && Enabled(p, s, e)
    ensures Ready(p, s, e)
  {
    assert WellFormedFunction(p, p[s.func]);
    assert WellFormedInstruction(p, p[s.func], p[s.func].instructions[s.cur.index]);
  }

  lemma CallIsExecuted(p: Program, s: State, callee: nat, argsIndex: nat, src: nat, e: Effects)
    requires WellFormed(p) && Inv(p, s) && Running(s)
    requires CanCall(p, s, callee, argsIndex, e.objects)
    requires var i := p[s.func].instructions[s.cur.index];
             i.IsCall() && (i.Call? ==> i.callee == callee)
    ensures Executed(p, SetSlot(CallFunction(p, s, callee, argsIndex, src, e), Nothing))
  {
    assert WellFormedFunction(p, p[s.func]) && WellFormedFunction(p, p[callee]);
    var c := CallFunction(p, s, callee, argsIndex, src, e);
    var depth := |s.callStack|;
    WriteKeepsFrame(p, depth, s.func, s.values, s.stackFrames[depth], s.slot.index, Nothing);
    if c.next.Some? {
      var frame := Saved(s.func, s.cur, s.callSrc, s.args, s.values[s.slot.index := Nothing]);
      PushKeepsStack(p, s.callStack, s.stackFrames, s.func, frame, e.objects, callee);
      assert SetSlot(c, Nothing).callStack == s.callStack + [frame];
    }
  }

  lemma ExecuteIsExecuted(p: Program, s: State, e: Effects)
    requires CanStep(p, s, e)
    ensures Ready(p, s, e) && Executed(p, Execute(p, s, e))
  {
    ReadyToExecute(p, s, e);
    var i := p[s.func].instructions[s.cur.index];
    if i.IsCall() {
      CallIsExecuted(p, s, if i.Call? then i.callee else e.callee, i.argsIndex, i.srcTokensIndex, e);
    } else {
      WriteKeepsFrame(p, |s.callStack|, s.func, s.values, s.stackFrames[|s.callStack|], s.slot.index, Result(p, s, e));
    }
  }

  /** The assertions in `advance` hold. */
  lemma ExecutedCanAdvance(p: Program, s: State)
    requires WellFormed(p) && Executed(p, s)
    ensures CanAdvance(p, s)
  {
  }

  lemma ReturnKeepsInv(p: Program, s: State)
    requires WellFormed(p) && Executed(p, s) && CanAdvance(p, s)
    requires s.next.None? && s.returned && s.callStack != []
    ensures Inv(p, Resume(p, s))
  {
    ReturnKeepsFrames(p, s);
  }

  lemma ReturnKeepsFrames(p: Program, s: State)
    requires WellFormed(p) && Executed(p, s) && CanAdvance(p, s)
    requires s.next.None? && s.returned && s.callStack != []
    ensures FramesOk(p, Resume(p, s))
  {
    var last := |s.callStack| - 1;
    PopKeepsStack(p, s.callStack, s.stackFrames, s.func);
    var callee := FuncAt(s.callStack, s.func, last + 1);
    ReturnKeepsFrame(p, last, s.callStack[last], s.stackFrames[last], callee, s.retValue);
  }

  /** The caller's values after the returned one is written into the slot of the call. */
  lemma ReturnKeepsFrame(p: Program, depth: nat, frame: Saved, objects: seq<StackObject>, above: nat, v: Value)
    requires frame.func < |p| && SavedOk(p, depth, frame, objects, above)
    ensures var at := frame.callInst.index + |p[frame.func].allocas|;
            at < |frame.values| && FrameOk(p, depth, frame.func, frame.values[at := v], objects)
  {
    WriteKeepsFrame(p, depth, frame.func, frame.values, objects, frame.callInst.index + |p[frame.func].allocas|, v);
  }

  lemma AdvanceKeepsInv(p: Program, s: State)
    requires WellFormed(p) && Executed(p, s)
    ensures CanAdvance(p, s) && Inv(p, Advance(p, s))
  {
    ExecutedCanAdvance(p, s);
    if s.next.None? && s.returned && s.callStack != [] {
      ReturnKeepsInv(p, s);
    } else {
      assert WellFormedFunction(p, p[s.func]);
      assert FramesOk(p, Advance(p, s));
    }
  }

  // ----- runs -----

  /** One turn of the loop in `execute_expression`. */
  function Step(p: Program, s: State, e: Effects): (r: State)
    requires CanStep(p, s, e)
    ensures Inv(p, r)
  {
    ExecuteIsExecuted(p, s, e);
    AdvanceKeepsInv(p, Execute(p, s, e));
    Advance(p, Execute(p, s, e))
  }

  /** The state `execute_expression` enters its loop with. */
  function Start(p: Program, func: nat, objects: seq<StackObject>): (r: State)
    requires WellFormed(p) && func < |p| && |objects| == |p[func].allocas|
    ensures Inv(p, r)
  {
    assert WellFormedFunction(p, p[func]);
    State(InstructionPtr(func, 0), Slot(0, |p[func].allocas|), None, Nothing, false, false,
          func, [], ValuesAtDepth(p[func], 0, objects), 0, [], [objects])
  }

  /**
   * Where the loop is after at most `|es|` turns: it stops early when execution has returned, reported an error or
   * reached an `unreachable`. Every state that execution can reach satisfies the invariant.
   */
  ghost function Exec(p: Program, s: State, es: seq<Effects>): (r: State)
    requires WellFormed(p) && Inv(p, s)
    ensures Inv(p, r)
    decreases |es|
  {
    if es != [] && CanStep(p, s, es[0]) then Exec(p, Step(p, s, es[0]), es[1..]) else s
  }

  /** No turn meets an `unreachable`, and the memory manager lays out the allocas of every callee. */
  ghost predicate AllEnabled(p: Program, s: State, es: seq<Effects>)
    requires WellFormed(p) && Inv(p, s)
    decreases |es|
  {
    es != [] && Running(s) ==> Enabled(p, s, es[0]) && AllEnabled(p, Step(p, s, es[0]), es[1..])
  }

  /** What is left of the loop: from `s` it can take its turns and ends in `final`. */
  ghost predicate Remaining(p: Program, s: State, es: seq<Effects>, final: State) {
    && WellFormed(p) && Inv(p, s) && AllEnabled(p, s, es)
    && final == Exec(p, s, es)
  }

  lemma TakeTurn(p: Program, s: State, es: seq<Effects>, final: State)
    requires es != [] && Running(s) && Remaining(p, s, es, final)
    ensures CanStep(p, s, es[0])
    ensures Remaining(p, Step(p, s, es[0]), es[1..], final)
  {
  }

  /** A run is recorded with all of its states. */
  ghost predicate IsRun(p: Program, t: seq<State>, es: seq<Effects>) {
    && |t| == |es| + 1
    && Inv(p, t[0])
    && forall k {:trigger TurnAt(p, t, es, k)} :: 0 <= k < |es| ==> TurnAt(p, t, es, k)
  }

  ghost predicate TurnAt(p: Program, t: seq<State>, es: seq<Effects>, k: nat)
    requires |t| == |es| + 1 && k < |es|
  {
    CanStep(p, t[k], es[k]) && t[k + 1] == Step(p, t[k], es[k])
  }

  /** The caller's frame as a successful call saves it: the call's own slot has been overwritten with nothing. */
  function CallerFrame(s: State): Saved
    requires s.slot.index < |s.values|
  {
    Saved(s.func, s.cur, s.callSrc, s.args, s.values[s.slot.index := Nothing])
  }

  /** The running function goes on; at most the instruction's own slot has changed. */
  ghost predicate Stays(s: State, r: State) {
    && r.callStack == s.callStack && r.stackFrames == s.stackFrames
    && r.func == s.func && r.args == s.args && r.callSrc == s.callSrc
    && |r.values| == |s.values|
    && forall n :: 0 <= n < |s.values| && n != s.slot.index ==> r.values[n] == s.values[n]
  }

  /** The running function has become a caller. */
  ghost predicate Pushes(s: State, e: Effects, r: State)
    requires s.slot.index < |s.values|
  {
    && r.callStack == s.callStack + [CallerFrame(s)]
    && r.stackFrames == s.stackFrames + [e.objects]
    && r.cur.index == 0
  }

  /** `r` continues the saved frame just after its call, with the return value in the call's slot. */
  ghost predicate Resumes(p: Program, r: State, frame: Saved) {
    && frame.func < |p|
    && var slot := frame.callInst.index + |p[frame.func].allocas|;
       && slot < |frame.values|
       && r.func == frame.func && r.args == frame.args && r.callSrc == frame.callSrc
       && r.values == frame.values[slot := r.retValue]
       && r.cur == InstructionPtr(frame.callInst.func, frame.callInst.index + 1)
  }

  /** The last caller has been resumed. */
  ghost predicate Pops(p: Program, s: State, r: State) {
    && s.callStack != [] && s.stackFrames != []
    && s.callStack == r.callStack + [s.callStack[|s.callStack| - 1]]
    && s.stackFrames == r.stackFrames + [s.stackFrames[|s.stackFrames| - 1]]
    && Resumes(p, r, s.callStack[|s.callStack| - 1])
  }

  /** One turn keeps the stack of callers, or pushes the running function, or resumes the last caller. */
  lemma StepShape(p: Program, s: State, e: Effects)
    requires CanStep(p, s, e)
    ensures Stays(s, Step(p, s, e)) || Pushes(s, e, Step(p, s, e)) || Pops(p, s, Step(p, s, e))
  {
    var i := p[s.func].instructions[s.cur.index];
    ExecuteIsExecuted(p, s, e);
    if i.IsCall() {
      CallShape(p, s, e);
    } else if (i.Ret? || i.RetVoid?) && s.callStack != [] {
      ReturnShape(p, s, e);
    } else {
      assert Stays(s, Step(p, s, e));
    }
  }

  lemma CallShape(p: Program, s: State, e: Effects)
    requires CanStep(p, s, e) && p[s.func].instructions[s.cur.index].IsCall()
    ensures Stays(s, Step(p, s, e)) || Pushes(s, e, Step(p, s, e))
  {
    ExecuteIsExecuted(p, s, e);
    WriteAfterCall(s, e, Dispatch(p, s, e));
  }

  /** The instruction's result is written after the call, into the buffer that has been saved with the caller. */
  lemma WriteAfterCall(s: State, e: Effects, c: State)
    requires s.slot.depth == |s.callStack| && s.slot.index < |s.values| && c.slot == s.slot
    requires || c == s.(hasError := true)
             || (&& c.callStack == s.callStack + [Saved(s.func, s.cur, s.callSrc, s.args, s.values)]
                 && c.stackFrames == s.stackFrames + [e.objects])
    ensures c == s.(hasError := true) ==> Stays(s, SetSlot(c, Nothing))
    ensures c.callStack != s.callStack ==>
              && SetSlot(c, Nothing).callStack == s.callStack + [CallerFrame(s)]
              && SetSlot(c, Nothing).stackFrames == s.stackFrames + [e.objects]
  {
  }

  lemma ResumePops(p: Program, x: State)
    requires CanResume(p, x)
    ensures Pops(p, x, Resume(p, x))
  {
  }

  lemma ReturnShape(p: Program, s: State, e: Effects)
    requires CanStep(p, s, e) && s.callStack != []
    requires p[s.func].instructions[s.cur.index].Ret? || p[s.func].instructions[s.cur.index].RetVoid?
    ensures Pops(p, s, Step(p, s, e))
  {
    ExecuteIsExecuted(p, s, e);
    ExecutedCanAdvance(p, Execute(p, s, e));
    ResumePops(p, Execute(p, s, e));
  }

  ghost predicate AtRet(p: Program, s: State) {
    && s.func < |p| && s.cur.index < |p[s.func].instructions|
    && p[s.func].instructions[s.cur.index].Ret?
    && p[s.func].instructions[s.cur.index].operand < |s.values|
  }

  lemma RunKeepsInv(p: Program, t: seq<State>, es: seq<Effects>, k: nat)
    requires IsRun(p, t, es) && k <= |es|
    ensures Inv(p, t[k])
  {
    if k > 0 {
      assert TurnAt(p, t, es, k - 1);
    }
  }

  /** What the turns of a run do to the frames and to the return value. */
  lemma TurnShape(p: Program, t: seq<State>, es: seq<Effects>, k: nat)
    requires IsRun(p, t, es) && k < |es|
    ensures t[k].slot.index < |t[k].values|
    ensures Stays(t[k], t[k + 1]) || Pushes(t[k], es[k], t[k + 1]) || Pops(p, t[k], t[k + 1])
    ensures |t[k].stackFrames| == |t[k].callStack| + 1 && |t[k + 1].stackFrames| == |t[k + 1].callStack| + 1
    ensures t[k].func < |p| && t[k].cur.func == t[k].func
    ensures t[k].slot.index == t[k].cur.index + |p[t[k].func].allocas|
  {
    assert TurnAt(p, t, es, k);
    StepShape(p, t[k], es[k]);
  }

  /** The operand of the `ret` that is about to be executed. */
  function Returning(p: Program, s: State): Value
    requires AtRet(p, s)
  {
    s.values[p[s.func].instructions[s.cur.index].operand]
  }

  lemma ExecuteReturns(p: Program, s: State, e: Effects)
    requires Ready(p, s, e)
    ensures Execute(p, s, e).retValue == if AtRet(p, s) then Returning(p, s) else s.retValue
  {
  }

  lemma TurnReturns(p: Program, t: seq<State>, es: seq<Effects>, k: nat)
    requires IsRun(p, t, es) && k < |es|
    ensures t[k + 1].retValue == if AtRet(p, t[k]) then Returning(p, t[k]) else t[k].retValue
  {
    assert TurnAt(p, t, es, k);
    AdvanceKeepsReturnValue(p, t[k], es[k]);
    ExecuteReturns(p, t[k], es[k]);
  }

  lemma AdvanceKeepsReturnValue(p: Program, s: State, e: Effects)
    requires CanStep(p, s, e)
    ensures Ready(p, s, e) && Step(p, s, e).retValue == Execute(p, s, e).retValue
  {
    ExecuteIsExecuted(p, s, e);
  }

  /** While a run stays above a frame, that frame and everything below it are not touched. */
  lemma {:induction false} LowerFramesUntouched(p: Program, t: seq<State>, es: seq<Effects>, depth: nat, lo: nat,
                                                hi: nat)
    requires IsRun(p, t, es) && lo <= hi <= |es|
    requires forall i :: lo <= i <= hi ==> depth <= |t[i].callStack|
    ensures t[hi].callStack[..depth] == t[lo].callStack[..depth]
    ensures |t[hi].stackFrames| > depth && |t[lo].stackFrames| > depth
    ensures t[hi].stackFrames[..depth] == t[lo].stackFrames[..depth]
    decreases hi
  {
    if lo < hi {
      LowerFramesUntouched(p, t, es, depth, lo, hi - 1);
      TurnShape(p, t, es, hi - 1);
    } else {
      RunKeepsInv(p, t, es, lo);
    }
  }

  /**
   * From a successful call in turn `i` to the first state `j` that is back at the caller's depth, with any calls and
   * returns between: the caller's function, arguments and frame objects are as they were, so are all of its
   * instruction values except the call's own slot, that slot holds the value returned last, and execution goes on just
   * after the call.
   */
  lemma CallReturns(p: Program, t: seq<State>, es: seq<Effects>, i: nat, j: nat)
    requires IsRun(p, t, es) && i + 1 < j <= |es|
    requires |t[i + 1].callStack| == |t[i].callStack| + 1
    requires forall k :: i < k < j ==> |t[k].callStack| > |t[i].callStack|
    requires |t[j].callStack| == |t[i].callStack|
    ensures t[j].callStack == t[i].callStack && t[j].stackFrames == t[i].stackFrames
    ensures t[j].func == t[i].func && t[j].args == t[i].args && t[j].callSrc == t[i].callSrc
    ensures t[i].slot.index < |t[i].values|
    ensures t[j].values == t[i].values[t[i].slot.index := t[j].retValue]
    ensures t[j].cur == InstructionPtr(t[i].cur.func, t[i].cur.index + 1)
    ensures IsLastReturned(p, t, es, j, t[j].retValue)
  {
    TurnShape(p, t, es, i);
    LowerFramesUntouched(p, t, es, |t[i].callStack| + 1, i + 1, j - 1);
    TurnShape(p, t, es, j - 1);
    BackAfterCall(p, t[i], es[i], t[i + 1], t[j - 1], t[j]);
    ReturnValueIsLast(p, t, es, j);
  }

  /** Pushing a caller, working above it and popping it restores it. */
  lemma BackAfterCall(p: Program, s: State, e: Effects, called: State, returning: State, r: State)
    requires s.slot.index < |s.values| && s.func < |p| && s.slot.index == s.cur.index + |p[s.func].allocas|
    requires |s.stackFrames| == |s.callStack| + 1
    requires Pushes(s, e, called) && Pops(p, returning, r)
    requires var depth := |s.callStack| + 1;
             && |returning.callStack| == depth && returning.callStack[..depth] == called.callStack[..depth]
             && |returning.stackFrames| == depth + 1 && returning.stackFrames[..depth] == called.stackFrames[..depth]
    ensures r.callStack == s.callStack && r.stackFrames == s.stackFrames
    ensures r.func == s.func && r.args == s.args && r.callSrc == s.callSrc
    ensures r.values == s.values[s.slot.index := r.retValue]
    ensures r.cur == InstructionPtr(s.cur.func, s.cur.index + 1)
  {
    var depth := |s.callStack| + 1;
    var frame := CallerFrame(s);
    assert returning.callStack[depth - 1] == returning.callStack[..depth][depth - 1] == frame;
    assert r.callStack == returning.callStack[..depth][..depth - 1];
    assert r.stackFrames == returning.stackFrames[..depth];
    assert frame.values[s.slot.index := r.retValue] == s.values[s.slot.index := r.retValue];
  }

  /** `v` was the operand of the last `ret` executed before turn `j`; without one it is the initial value. */
  ghost predicate IsLastReturned(p: Program, t: seq<State>, es: seq<Effects>, j: nat, v: Value)
    requires |t| == |es| + 1 && j <= |es|
  {
    || (v == t[0].retValue && forall n :: 0 <= n < j ==> !AtRet(p, t[n]))
    || exists m :: 0 <= m < j && AtRet(p, t[m]) && v == Returning(p, t[m]) && forall n :: m < n < j ==> !AtRet(p, t[n])
  }

  lemma {:induction false} ReturnValueIsLast(p: Program, t: seq<State>, es: seq<Effects>, j: nat)
    requires IsRun(p, t, es) && j <= |es|
    ensures IsLastReturned(p, t, es, j, t[j].retValue)
  {
    if j > 0 {
      ReturnValueIsLast(p, t, es, j - 1);
      TurnReturns(p, t, es, j - 1);
      if AtRet(p, t[j - 1]) {
        assert t[j].retValue == Returning(p, t[j - 1]);
      }
    }
  }

  /**
   * A call instruction either pushes a frame, or reports an error and goes on to the next instruction: it fails exactly
   * when 1024 frames exist already or the memory manager cannot lay out the callee's allocas.
   */
  lemma CallOutcome(p: Program, s: State, e: Effects)
    requires CanStep(p, s, e) && p[s.func].instructions[s.cur.index].IsCall()
    ensures var r := Step(p, s, e);
            var fails := |s.stackFrames| == 1024 || !e.pushGood;
            && (fails <==> |r.callStack| == |s.callStack|)
            && (fails <==> r.hasError)
            && (fails ==> r == s.(hasError := true, values := s.values[s.slot.index := Nothing],
                                  cur := InstructionPtr(s.func, s.cur.index + 1),
                                  slot := Slot(s.slot.depth, s.slot.index + 1)))
  {
    ExecuteIsExecuted(p, s, e);
    CallShape(p, s, e);
  }

  /** Arguments are read from the caller's values before its frame is saved. */
  lemma CalleeSeesArguments(p: Program, s: State, e: Effects, a: nat)
    requires CanStep(p, s, e) && p[s.func].instructions[s.cur.index].IsCall()
    requires |Step(p, s, e).callStack| > |s.callStack|
    requires var i := p[s.func].instructions[s.cur.index];
             i.argsIndex < |p[s.func].callArgs| && a < |p[s.func].callArgs[i.argsIndex]|
    ensures var i := p[s.func].instructions[s.cur.index];
            var from := p[s.func].callArgs[i.argsIndex];
            && |Step(p, s, e).args| == |from| && from[a] < |s.values|
            && Step(p, s, e).args[a] == s.values[from[a]]
  {
    ExecuteIsExecuted(p, s, e);
    assert WellFormedFunction(p, p[s.func]);
  }
}
