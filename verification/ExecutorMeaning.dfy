/**
 * What the instructions of the virtual machine do, one by one, and what stands in the values of a function later on.
 * The statements speak of the instruction and the state before it.
 */
module ExecutorMeaning {
  import opened Options
  import opened ExecutorSpec

  function Current(p: Program, s: State): Instruction
    requires s.func < |p| && s.cur.index < |p[s.func].instructions|
  {
    p[s.func].instructions[s.cur.index]
  }

  /** The function goes on at `dest`; of its values only the instruction's own slot is overwritten, with nothing. */
  ghost predicate GoesTo(p: Program, s: State, dest: nat, r: State)
    requires s.func < |p| && s.slot.index < |s.values|
  {
    r == s.(cur := InstructionPtr(s.func, dest), slot := Slot(|s.callStack|, dest + |p[s.func].allocas|),
            values := s.values[s.slot.index := Nothing])
  }

  lemma {:induction false} AfterJump(p: Program, s: State, e: Effects)
    requires CanStep(p, s, e) && Current(p, s).Jump?
    ensures GoesTo(p, s, Current(p, s).dest, Step(p, s, e))
  {
    ExecuteIsExecuted(p, s, e);
  }

  /** Any number but zero is true. */
  lemma {:induction false} AfterConditionalJump(p: Program, s: State, e: Effects)
    requires CanStep(p, s, e) && Current(p, s).ConditionalJump?
    ensures Current(p, s).condition < |s.values|
    ensures var i := Current(p, s);
            match s.values[i.condition]
            case Bits(b) => GoesTo(p, s, if b == 0 then i.falseDest else i.trueDest, Step(p, s, e))
            case Nothing => GoesTo(p, s, i.falseDest, Step(p, s, e))
  {
    ExecuteIsExecuted(p, s, e);
  }

  /** `create_switch_info` sorts the cases by their values. */
  ghost predicate Ascending(cases: seq<SwitchCase>) {
    forall j, k :: 0 <= j < k < |cases| ==> cases[j].value < cases[k].value
  }

  lemma {:induction false} DestinationIsFound(cases: seq<SwitchCase>, d: nat, x: int)
    requires Ascending(cases)
    ensures forall k :: 0 <= k < |cases| && cases[k].value == x ==> Destination(cases, d, x) == cases[k].dest
    ensures (forall k :: 0 <= k < |cases| ==> cases[k].value != x) ==> Destination(cases, d, x) == d
  {
    if cases != [] && cases[0].value < x {
      DestinationIsFound(cases[1..], d, x);
      assert LowerBound(cases, x) == 1 + LowerBound(cases[1..], x);
    }
  }

  /** The case with the operand's value decides, and without one the default. */
  lemma {:induction false} AfterSwitch(p: Program, s: State, e: Effects, x: int)
    requires CanStep(p, s, e) && Current(p, s).Switch? && Ascending(Current(p, s).cases)
    requires Current(p, s).operand < |s.values| && s.values[Current(p, s).operand] == Bits(x)
    ensures var i := Current(p, s);
            && (forall k :: 0 <= k < |i.cases| && i.cases[k].value == x ==>
                  GoesTo(p, s, i.cases[k].dest, Step(p, s, e)))
            && ((forall k :: 0 <= k < |i.cases| ==> i.cases[k].value != x) ==>
                  GoesTo(p, s, i.defaultDest, Step(p, s, e)))
  {
    ExecuteIsExecuted(p, s, e);
    DestinationIsFound(Current(p, s).cases, Current(p, s).defaultDest, x);
  }

  /** An operation stores its value in its slot, and an error it reports ends the run. */
  lemma {:induction false} AfterOperation(p: Program, s: State, e: Effects)
    requires CanStep(p, s, e) && Current(p, s).Operation?
    ensures Step(p, s, e) ==
            s.(cur := InstructionPtr(s.func, s.cur.index + 1), slot := Slot(|s.callStack|, s.slot.index + 1),
               values := s.values[s.slot.index := e.value], hasError := e.reportsError)
  {
    ExecuteIsExecuted(p, s, e);
  }

  /** The value at the start of a function: an alloca's address, plain or by frame, and nothing for an instruction. */
  ghost predicate Fresh(f: Function, objects: seq<StackObject>, values: seq<Value>) {
    && |objects| == |f.allocas| && |values| == |f.allocas| + |f.instructions|
    && (forall i :: 0 <= i < |f.allocas| && (f.canStackAddressLeak ==> f.allocas[i]) ==>
          values[i] == Bits(objects[i].address))
    && (forall i :: 0 <= i < |f.allocas| && f.canStackAddressLeak && !f.allocas[i] ==>
          values[i] == Bits(objects[i].frameAddress))
    && (forall i :: |f.allocas| <= i < |values| ==> values[i] == Nothing)
  }

  /** A successful call goes on at the first instruction of the callee, with the frame that the memory manager made. */
  lemma {:induction false} AfterCall(p: Program, s: State, e: Effects, callee: nat)
    requires CanStep(p, s, e) && Current(p, s).IsCall() && |s.stackFrames| < 1024 && e.pushGood
    requires callee == if Current(p, s).Call? then Current(p, s).callee else e.callee
    ensures var r := Step(p, s, e);
            && r.func == callee < |p| && r.cur == InstructionPtr(callee, 0) && r.slot.index == |p[callee].allocas|
            && r.slot.depth == |s.callStack| + 1
            && Fresh(p[callee], e.objects, r.values)
            && r.callSrc == Current(p, s).srcTokensIndex && r.retValue == s.retValue && !r.returned && !r.hasError
            && r.stackFrames == s.stackFrames + [e.objects]
            && r.callStack == s.callStack
               + [Saved(s.func, s.cur, s.callSrc, s.args, s.values[s.slot.index := Nothing])]
  {
    ExecuteIsExecuted(p, s, e);
    CallShape(p, s, e);
  }

  /** The outermost function starts with the plain addresses of its allocas, whether they can leak or not. */
  lemma {:induction false} AtStart(p: Program, func: nat, objects: seq<StackObject>)
    requires WellFormed(p) && func < |p| && |objects| == |p[func].allocas|
    ensures var s := Start(p, func, objects);
            && s.func == func && s.cur == InstructionPtr(func, 0) && s.callStack == [] && s.stackFrames == [objects]
            && Fresh(p[func].(canStackAddressLeak := false), objects, s.values)
            && !s.returned && !s.hasError && s.args == []
  {
  }

  /** `ret` hands its operand over; in the outermost function it ends the run. */
  lemma {:induction false} AfterRet(p: Program, s: State, e: Effects)
    requires CanStep(p, s, e) && Current(p, s).Ret?
    ensures Current(p, s).operand < |s.values|
    ensures Step(p, s, e).retValue == s.values[Current(p, s).operand]
    ensures Step(p, s, e).returned <==> s.callStack == []
    ensures !Step(p, s, e).hasError
    ensures s.callStack != [] ==> Pops(p, s, Step(p, s, e))
  {
    ExecuteIsExecuted(p, s, e);
    if s.callStack != [] {
      ReturnShape(p, s, e);
    }
  }

  lemma {:induction false} AfterRetVoid(p: Program, s: State, e: Effects)
    requires CanStep(p, s, e) && Current(p, s).RetVoid?
    ensures Step(p, s, e).retValue == s.retValue
    ensures Step(p, s, e).returned <==> s.callStack == []
    ensures !Step(p, s, e).hasError
    ensures s.callStack != [] ==> Pops(p, s, Step(p, s, e))
  {
    ExecuteIsExecuted(p, s, e);
    if s.callStack != [] {
      ReturnShape(p, s, e);
    }
  }

  // ----- runs -----

  /** The values of the activation at a depth, which is the running one or a saved caller. */
  function ValuesOf(s: State, depth: nat): seq<Value>
    requires depth <= |s.callStack|
  {
    if depth < |s.callStack| then s.callStack[depth].values else s.values
  }

  function FunctionOf(s: State, depth: nat): nat
    requires depth <= |s.callStack|
  {
    FuncAt(s.callStack, s.func, depth)
  }

  /** The activation exists from `lo` to `hi` and executes instruction `index` at no turn between. */
  ghost predicate NotAgain(t: seq<State>, depth: nat, index: nat, lo: nat, hi: nat) {
    && lo <= hi < |t|
    && (forall k :: lo <= k <= hi ==> depth <= |t[k].callStack|)
    && (forall k :: lo <= k < hi && |t[k].callStack| == depth ==> t[k].cur.index != index)
  }

  /** If the activation is a caller, the call it waits for is not instruction `index`. */
  ghost predicate WaitsElsewhere(s: State, depth: nat, index: nat)
    requires depth <= |s.callStack|
  {
    depth < |s.callStack| ==> s.callStack[depth].callInst.index != index
  }

  /** The slot of instruction `index` in the activation. */
  ghost predicate Holds(p: Program, s: State, depth: nat, index: nat, func: nat, v: Value) {
    && depth <= |s.callStack| && FunctionOf(s, depth) == func < |p|
    && index + |p[func].allocas| < |ValuesOf(s, depth)|
    && ValuesOf(s, depth)[index + |p[func].allocas|] == v
  }

  /** A slot is not touched while its instruction is not executed, whatever is called in between. */
  lemma {:induction false} SlotIsKept(p: Program, t: seq<State>, es: seq<Effects>, depth: nat, index: nat, func: nat,
                                      v: Value, lo: nat, hi: nat)
    requires IsRun(p, t, es) && NotAgain(t, depth, index, lo, hi)
    requires Holds(p, t[lo], depth, index, func, v) && WaitsElsewhere(t[lo], depth, index)
    ensures Holds(p, t[hi], depth, index, func, v) && WaitsElsewhere(t[hi], depth, index)
    decreases hi
  {
    if lo < hi {
      SlotIsKept(p, t, es, depth, index, func, v, lo, hi - 1);
      TurnShape(p, t, es, hi - 1);
      TurnKeepsSlot(p, t[hi - 1], es[hi - 1], t[hi], depth, index, func, v);
    }
  }

  lemma {:induction false} TurnKeepsSlot(p: Program, s: State, e: Effects, r: State, depth: nat, index: nat,
                                         func: nat, v: Value)
    requires depth <= |s.callStack| && depth <= |r.callStack|
    requires |s.callStack| == depth ==> s.cur.index != index
    requires s.slot.index < |s.values| && s.func < |p| && s.slot.index == s.cur.index + |p[s.func].allocas|
    requires Stays(s, r) || Pushes(s, e, r) || Pops(p, s, r)
    requires Holds(p, s, depth, index, func, v) && WaitsElsewhere(s, depth, index)
    ensures Holds(p, r, depth, index, func, v) && WaitsElsewhere(r, depth, index)
  {
  }

  /** Until an activation executes an operation again, its slot holds what the last execution computed. */
  lemma {:induction false} OperationIsKept(p: Program, t: seq<State>, es: seq<Effects>, i: nat, j: nat)
    requires IsRun(p, t, es) && i < j <= |es|
    requires Inv(p, t[i]) && Current(p, t[i]).Operation?
    requires NotAgain(t, |t[i].callStack|, t[i].cur.index, i + 1, j)
    ensures Holds(p, t[j], |t[i].callStack|, t[i].cur.index, t[i].func, es[i].value)
  {
    assert TurnAt(p, t, es, i);
    AfterOperation(p, t[i], es[i]);
    SlotIsKept(p, t, es, |t[i].callStack|, t[i].cur.index, t[i].func, es[i].value, i + 1, j);
  }

  /** Until an activation executes a call again, its slot holds what the call returned. */
  lemma {:induction false} ReturnIsKept(p: Program, t: seq<State>, es: seq<Effects>, i: nat, back: nat, j: nat)
    requires IsRun(p, t, es) && i + 1 < back <= j <= |es|
    requires |t[i + 1].callStack| == |t[i].callStack| + 1
    requires forall k :: i < k < back ==> |t[k].callStack| > |t[i].callStack|
    requires |t[back].callStack| == |t[i].callStack|
    requires NotAgain(t, |t[i].callStack|, t[i].cur.index, back, j)
    ensures Holds(p, t[j], |t[i].callStack|, t[i].cur.index, t[i].func, t[back].retValue)
    ensures IsLastReturned(p, t, es, back, t[back].retValue)
  {
    CallReturns(p, t, es, i, back);
    RunKeepsInv(p, t, es, i);
    SlotIsKept(p, t, es, |t[i].callStack|, t[i].cur.index, t[i].func, t[back].retValue, back, j);
  }
}
