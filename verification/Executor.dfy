/**
 * `executor_context` from src/comptime/executor_context.cpp as a class whose methods update its fields in place. The
 * buffers of instruction values are arrays that move into the call stack and back, while `current_instruction_value`
 * goes on pointing into the buffer it was set to.
 */
module Executor {
  import opened Options
  import opened ExecutorSpec

  /** `execution_frame_info_t` */
  datatype Frame = Frame(
    func: nat, callInst: InstructionPtr, callSrc: nat, args: seq<Value>, instructionValues: array<Value>)

  /** The buffer of frame `k`; frame `|frames|` is the running function, whose buffer is `top`. */
  function BufferOf(frames: seq<Frame>, top: array<Value>, k: nat): array<Value>
    requires k <= |frames|
  {
    if k < |frames| then frames[k].instructionValues else top
  }

  ghost function Arrays(frames: seq<Frame>): set<array<Value>> {
    set k | 0 <= k < |frames| :: frames[k].instructionValues
  }

  /** No two frames share a buffer. */
  ghost predicate Separate(frames: seq<Frame>, top: array<Value>) {
    forall j, k :: 0 <= j < k <= |frames| ==> BufferOf(frames, top, j) != BufferOf(frames, top, k)
  }

  ghost predicate Matches(f: Frame, s: Saved)
    reads f.instructionValues
  {
    s == Saved(f.func, f.callInst, f.callSrc, f.args, f.instructionValues[..])
  }

  ghost predicate AllMatch(frames: seq<Frame>, saved: seq<Saved>)
    reads Arrays(frames)
  {
    && |frames| == |saved|
    && forall k :: 0 <= k < |frames| ==> frames[k].instructionValues in Arrays(frames) && Matches(frames[k], saved[k])
  }

  lemma SeparateAppend(frames: seq<Frame>, top: array<Value>, f: Frame, newTop: array<Value>)
    requires Separate(frames, top) && f.instructionValues == top
    requires newTop !in Arrays(frames) && newTop != top
    ensures Separate(frames + [f], newTop)
    ensures Arrays(frames + [f]) == Arrays(frames) + {top}
  {
    var fs := frames + [f];
    forall j, k | 0 <= j < k <= |fs| ensures BufferOf(fs, newTop, j) != BufferOf(fs, newTop, k) {
      assert BufferOf(fs, newTop, j) == BufferOf(frames, top, j);
      if k < |fs| {
        assert BufferOf(fs, newTop, k) == BufferOf(frames, top, k);
      } else if j < |frames| {
        assert frames[j].instructionValues in Arrays(frames);
      }
    }
    forall b | b in Arrays(frames) + {top} ensures b in Arrays(fs) {
      if b == top {
        assert fs[|frames|].instructionValues == b;
      } else {
        var k :| 0 <= k < |frames| && frames[k].instructionValues == b;
        assert fs[k].instructionValues == b;
      }
    }
  }

  lemma SeparateDropLast(frames: seq<Frame>, top: array<Value>)
    requires frames != [] && Separate(frames, top)
    ensures var last := |frames| - 1;
            && Separate(frames[..last], frames[last].instructionValues)
            && Arrays(frames[..last]) + {frames[last].instructionValues} == Arrays(frames)
            && frames[last].instructionValues !in Arrays(frames[..last])
  {
    var last := |frames| - 1;
    forall j, k | 0 <= j < k <= last
      ensures BufferOf(frames[..last], frames[last].instructionValues, j)
           != BufferOf(frames[..last], frames[last].instructionValues, k)
    {
      assert BufferOf(frames, top, j) != BufferOf(frames, top, k);
    }
    forall k | 0 <= k < last ensures frames[k].instructionValues != frames[last].instructionValues {
      assert BufferOf(frames, top, k) != BufferOf(frames, top, last);
    }
    forall k | 0 <= k < last ensures frames[k].instructionValues in Arrays(frames[..last]) {
      assert frames[..last][k].instructionValues == frames[k].instructionValues;
    }
    assert frames[last].instructionValues in Arrays(frames);
    forall b | b in Arrays(frames) ensures b in Arrays(frames[..last]) + {frames[last].instructionValues} {
      var k :| 0 <= k < |frames| && frames[k].instructionValues == b;
    }
  }

  lemma AllMatchAppend(frames: seq<Frame>, saved: seq<Saved>, f: Frame, s: Saved)
    requires AllMatch(frames, saved) && Matches(f, s)
    ensures AllMatch(frames + [f], saved + [s])
  {
  }

  lemma AllMatchDropLast(frames: seq<Frame>, saved: seq<Saved>)
    requires frames != [] && AllMatch(frames, saved)
    ensures AllMatch(frames[..|frames| - 1], saved[..|saved| - 1])
    ensures Matches(frames[|frames| - 1], saved[|saved| - 1])
  {
  }

  class ExecutorContext {
    const program: Program

    var currentInstruction: InstructionPtr
    var currentValueBuffer: array<Value>
    var currentValueIndex: nat
    var nextInstruction: Option<nat>
    var retValue: Value
    var returned: bool
    var hasError: bool

    var currentFunction: nat
    var args: seq<Value>
    var instructionValues: array<Value>
    var instructions: seq<Instruction>
    var allocaOffset: nat
    var callSrcTokensIndex: nat

    var callStack: seq<Frame>
    var stackFrames: seq<seq<StackObject>>

    /** The state of the transition system that the fields stand for. */
    ghost var model: State

    ghost function Buffers(): set<array<Value>>
      reads this
    {
      Arrays(callStack) + {instructionValues}
    }

    ghost predicate Valid()
      reads this, Buffers()
    {
      && Separate(callStack, instructionValues)
      && currentFunction < |program|
      && (instructions, allocaOffset) == (program[currentFunction].instructions, |program[currentFunction].allocas|)
      && model.slot.depth <= |callStack|
      && currentValueBuffer == BufferOf(callStack, instructionValues, model.slot.depth)
      && AllMatch(callStack, model.callStack)
      && model == State(
           currentInstruction, Slot(model.slot.depth, currentValueIndex), nextInstruction, retValue, returned, hasError,
           currentFunction, args, instructionValues[..], callSrcTokensIndex, model.callStack, stackFrames)
    }

    method SetCurrentInstructionValue(value: Value)
      requires Valid() && currentValueIndex < currentValueBuffer.Length
      modifies currentValueBuffer, this`model
      ensures Valid() && model == SetSlot(old(model), value)
    {
      assert model.slot.depth < |callStack| ==> Matches(callStack[model.slot.depth], model.callStack[model.slot.depth]);
      model := SetSlot(model, value);
      currentValueBuffer[currentValueIndex] := value;
      assert BufferOf(callStack, instructionValues, |callStack|) == instructionValues;
      forall k | 0 <= k < |callStack|
        ensures callStack[k].instructionValues in Arrays(callStack) && Matches(callStack[k], model.callStack[k])
      {
        assert BufferOf(callStack, instructionValues, k) == callStack[k].instructionValues;
        assert old(Matches(callStack[k], model.callStack[k]));
      }
    }

    method ReportError()
      requires Valid()
      modifies this`hasError, this`model
      ensures Valid() && model == old(model).(hasError := true)
    {
      hasError := true;
      model := model.(hasError := true);
    }

    method DoJump(dest: nat)
      requires Valid() && dest < |instructions|
      modifies this`nextInstruction, this`model
      ensures Valid() && model == old(model).(next := Some(dest))
    {
      nextInstruction := Some(dest);
      model := model.(next := Some(dest));
    }

    method DoRet(value: Value)
      requires Valid()
      modifies this`retValue, this`returned, this`model
      ensures Valid() && model == old(model).(retValue := value, returned := true)
    {
      retValue := value;
      returned := true;
      model := model.(retValue := value, returned := true);
    }

    method DoRetVoid()
      requires Valid()
      modifies this`returned, this`model
      ensures Valid() && model == old(model).(returned := true)
    {
      returned := true;
      model := model.(returned := true);
    }

    /** The memory manager pushes the frame in any case and says whether the stack still fits. */
    method PushStackFrame(e: Effects) returns (good: bool)
      requires Valid()
      modifies this`stackFrames, this`model
      ensures Valid() && model == old(model).(stackFrames := old(stackFrames) + [e.objects])
      ensures good == e.pushGood
    {
      stackFrames := stackFrames + [e.objects];
      model := model.(stackFrames := stackFrames);
      good := e.pushGood;
    }

    method PopStackFrame()
      requires Valid() && stackFrames != []
      modifies this`stackFrames, this`model
      ensures Valid() && model == old(model).(stackFrames := old(stackFrames)[..|old(stackFrames)| - 1])
    {
      stackFrames := stackFrames[..|stackFrames| - 1];
      model := model.(stackFrames := stackFrames);
    }

    /** `call_function`, with the early return on a failed push that pops the frame again. */
    method CallFunction(callee: nat, argsIndex: nat, src: nat, e: Effects)
      requires Valid() && CanCall(program, model, callee, argsIndex, e.objects)
      modifies this
      ensures Valid() && forall b :: b in Buffers() ==> b in old(Buffers()) || fresh(b)
      ensures currentValueBuffer == old(currentValueBuffer)
      ensures model == ExecutorSpec.CallFunction(program, old(model), callee, argsIndex, src, e)
    {
      if |stackFrames| >= MAX_CALL_DEPTH {
        ReportError();
      } else {
        var good := PushStackFrame(e);
        if !good {
          PopStackFrame();
          ReportError();
        } else {
          EnterFunction(callee, argsIndex, src, e.objects);
        }
      }
    }

    /** The part of `call_function` after the frame has been pushed. */
    method EnterFunction(callee: nat, argsIndex: nat, src: nat, objects: seq<StackObject>)
      requires Valid() && CanCall(program, model, callee, argsIndex, objects)
      modifies this
      ensures Valid() && forall b :: b in Buffers() ==> b in old(Buffers()) || fresh(b)
      ensures currentValueBuffer == old(currentValueBuffer)
      ensures model == Enter(program, old(model), callee, argsIndex, src, objects)
    {
      ghost var saved := model.callStack;
      ghost var frame := Frame(currentFunction, currentInstruction, callSrcTokensIndex, args, instructionValues);
      SwitchTo(callee, argsIndex, src, objects);
      model := Enter(program, model, callee, argsIndex, src, objects);
      SeparateAppend(old(callStack), frame.instructionValues, frame, instructionValues);
      assert AllMatch(old(callStack), saved);
      AllMatchAppend(old(callStack), saved, frame, model.callStack[|saved|]);
    }

    /** The assignments of `call_function`: the buffer moves into the call stack and a new one takes its place. */
    method SwitchTo(callee: nat, argsIndex: nat, src: nat, objects: seq<StackObject>)
      requires currentFunction < |program| && callee < |program|
      requires argsIndex < |program[currentFunction].callArgs|
      requires forall a :: 0 <= a < |program[currentFunction].callArgs[argsIndex]| ==>
                 program[currentFunction].callArgs[argsIndex][a] < instructionValues.Length
      requires |objects| == |program[callee].allocas|
      modifies this`callStack, this`currentFunction, this`args, this`instructionValues, this`instructions,
               this`allocaOffset, this`callSrcTokensIndex, this`nextInstruction
      ensures fresh(instructionValues)
      ensures callStack == old(callStack) + [Frame(old(currentFunction), currentInstruction, old(callSrcTokensIndex),
                                                   old(args), old(instructionValues))]
      ensures currentFunction == callee && callSrcTokensIndex == src && nextInstruction == Some(0)
      ensures instructions == program[callee].instructions && allocaOffset == |program[callee].allocas|
      ensures args == CallArguments(old(instructionValues[..]), program[old(currentFunction)].callArgs[argsIndex])
      ensures instructionValues[..] == ValuesAtDepth(program[callee], |callStack|, objects)
    {
      callStack := callStack
        + [Frame(currentFunction, currentInstruction, callSrcTokensIndex, args, instructionValues)];

      var prev := callStack[|callStack| - 1].instructionValues;
      var callArgs := program[currentFunction].callArgs[argsIndex];
      currentFunction := callee;
      args := CallArguments(prev[..], callArgs);
      var f := program[callee];
      instructionValues := NewValues(f, |callStack|, objects);
      instructions := f.instructions;
      allocaOffset := |f.allocas|;
      callSrcTokensIndex := src;
      nextInstruction := Some(0);
    }

    /** The new buffer of `call_function`, and the loop that fills in the addresses of the allocas. */
    static method NewValues(f: Function, depth: nat, objects: seq<StackObject>) returns (buffer: array<Value>)
      requires |objects| == |f.allocas|
      ensures fresh(buffer) && buffer[..] == ValuesAtDepth(f, depth, objects)
    {
      buffer := new Value[|f.allocas| + |f.instructions|](_ => Nothing);
      var i := 0;
      while i < |objects|
        invariant 0 <= i <= |objects|
        invariant forall k :: 0 <= k < i ==> buffer[k] == ValuesAtDepth(f, depth, objects)[k]
        invariant forall k :: i <= k < buffer.Length ==> buffer[k] == Nothing
      {
        if depth == 0 || !f.canStackAddressLeak || f.allocas[i] {
          buffer[i] := Bits(objects[i].address);
        } else {
          buffer[i] := Bits(objects[i].frameAddress);
        }
        i := i + 1;
      }
    }

    /** `execute_current_instruction`: dispatch on the instruction, then write its result through the slot pointer. */
    method ExecuteCurrentInstruction(e: Effects)
      requires Valid() && Ready(program, model, e)
      modifies this, currentValueBuffer
      ensures Valid() && forall b :: b in Buffers() ==> b in old(Buffers()) || fresh(b)
      ensures model == Execute(program, old(model), e)
    {
      ghost var was := model;
      var result := if instructions[currentInstruction.index].Operation? then e.value else Nothing;
      DispatchInstruction(e);
      assert currentValueBuffer == BufferOf(callStack, instructionValues, model.slot.depth);
      assert model.slot.depth < |callStack| ==> Matches(callStack[model.slot.depth], model.callStack[model.slot.depth]);
      SetCurrentInstructionValue(result);
    }

    /** The switch of `execute_current_instruction`. */
    method DispatchInstruction(e: Effects)
      requires Valid() && Ready(program, model, e)
      modifies this
      ensures Valid() && forall b :: b in Buffers() ==> b in old(Buffers()) || fresh(b)
      ensures currentValueBuffer == old(currentValueBuffer)
      ensures model == Dispatch(program, old(model), e)
    {
      match instructions[currentInstruction.index] {
        case Operation =>
          if e.reportsError {
            ReportError();
          }
        case Call(callee, argsIndex, src) =>
          CallFunction(callee, argsIndex, src, e);
        case IndirectCall(argsIndex, src) =>
          CallFunction(e.callee, argsIndex, src, e);
        case Jump(dest) =>
          DoJump(dest);
        case ConditionalJump(condition, trueDest, falseDest) =>
          if AsBoolean(instructionValues[condition]) {
            DoJump(trueDest);
          } else {
            DoJump(falseDest);
          }
        case Switch(operand, cases, defaultDest) =>
          var value := AsNumber(instructionValues[operand]);
          var it := LowerBound(cases, value);
          if it != |cases| && cases[it].value == value {
            DoJump(cases[it].dest);
          } else {
            DoJump(defaultDest);
          }
        case Ret(operand) =>
          DoRet(instructionValues[operand]);
        case RetVoid =>
          DoRetVoid();
      }
    }

    /** `advance` */
    method Advance()
      requires Valid() && CanAdvance(program, model)
      modifies this, Buffers()
      ensures Valid() && Buffers() <= old(Buffers())
      ensures model == ExecutorSpec.Advance(program, old(model))
    {
      if nextInstruction != None {
        TakeJump();
      } else if returned {
        if callStack == [] {
          return;
        }
        ResumeCaller();
      } else {
        currentInstruction := InstructionPtr(currentInstruction.func, currentInstruction.index + 1);
        currentValueIndex := currentValueIndex + 1;
        model := ExecutorSpec.Advance(program, model);
      }
    }

    /** The path of `advance` behind a jump or a call. */
    method TakeJump()
      requires Valid() && CanAdvance(program, model) && nextInstruction != None
      modifies this`currentInstruction, this`currentValueBuffer, this`currentValueIndex, this`nextInstruction,
               this`model
      ensures Valid() && model == ExecutorSpec.Advance(program, old(model))
    {
      var nextInstructionIndex := nextInstruction.value;
      SetPosition(InstructionPtr(currentFunction, nextInstructionIndex), nextInstructionIndex + allocaOffset);
      nextInstruction := None;
      model := model.(next := None);
    }

    /** Points both pointers at an instruction of the running function. */
    method SetPosition(instruction: InstructionPtr, valueIndex: nat)
      requires Valid()
      modifies this`currentInstruction, this`currentValueBuffer, this`currentValueIndex, this`model
      ensures Valid() && model == old(model).(cur := instruction, slot := Slot(|callStack|, valueIndex))
    {
      currentInstruction := instruction;
      currentValueBuffer := instructionValues;
      currentValueIndex := valueIndex;
      model := model.(cur := instruction, slot := Slot(|callStack|, valueIndex));
    }

    /** The return path of `advance`: the caller's registers come back, then its call's slot gets the return value. */
    method ResumeCaller()
      requires Valid() && CanResume(program, model)
      modifies this, Buffers()
      ensures Valid() && Buffers() <= old(Buffers())
      ensures model == Resume(program, old(model))
    {
      PopCaller();
      WriteReturnValue();
    }

    /** `*(current_instruction_value - 1) = ret_value` */
    method WriteReturnValue()
      requires Valid() && model.slot.depth == |callStack| && 0 < currentValueIndex <= instructionValues.Length
      modifies instructionValues, this`model
      ensures Valid()
      ensures model == old(model).(values := old(model).values[currentValueIndex - 1 := retValue])
    {
      assert BufferOf(callStack, instructionValues, |callStack|) == instructionValues;
      assert forall k :: 0 <= k < |callStack| ==>
          BufferOf(callStack, instructionValues, k) == callStack[k].instructionValues;
      currentValueBuffer[currentValueIndex - 1] := retValue;
      model := model.(values := model.values[currentValueIndex - 1 := retValue]);
    }

    /** Takes the last frame off the call stack and makes it the running one, placed behind its call. */
    method PopCaller()
      requires Valid() && CanResume(program, model)
      modifies this
      ensures Valid() && Buffers() <= old(Buffers())
      ensures model == Resume(program, old(model)).(values := old(model).callStack[|old(callStack)| - 1].values)
    {
      ghost var was := model;
      RestoreRegisters();
      SeparateDropLast(old(callStack), old(instructionValues));
      AllMatchDropLast(old(callStack), was.callStack);
      model := Resume(program, was).(values := was.callStack[|was.callStack| - 1].values);
    }

    method RestoreRegisters()
      requires callStack != [] && stackFrames != []
      requires callStack[|callStack| - 1].func < |program|
      modifies this`callStack, this`stackFrames, this`currentFunction, this`args, this`instructionValues,
               this`instructions, this`allocaOffset, this`callSrcTokensIndex, this`currentInstruction,
               this`currentValueBuffer, this`currentValueIndex, this`returned
      ensures var frame := old(callStack)[|old(callStack)| - 1];
              && (currentFunction, args, callSrcTokensIndex) == (frame.func, frame.args, frame.callSrc)
              && instructionValues == frame.instructionValues == currentValueBuffer
              && (instructions, allocaOffset) == (program[frame.func].instructions, |program[frame.func].allocas|)
              && currentInstruction == InstructionPtr(frame.callInst.func, frame.callInst.index + 1)
              && (returned, currentValueIndex) == (false, frame.callInst.index + 1 + allocaOffset)
      ensures callStack == old(callStack)[..|old(callStack)| - 1]
      ensures stackFrames == old(stackFrames)[..|old(stackFrames)| - 1]
    {
      var prevCall := callStack[|callStack| - 1];
      currentFunction := prevCall.func;
      args := prevCall.args;
      instructionValues := prevCall.instructionValues;
      instructions := program[currentFunction].instructions;
      allocaOffset := |program[currentFunction].allocas|;
      callSrcTokensIndex := prevCall.callSrc;

      currentInstruction := InstructionPtr(prevCall.callInst.func, prevCall.callInst.index + 1);
      var instructionIndex := currentInstruction.index;
      currentValueBuffer := instructionValues;
      currentValueIndex := instructionIndex + allocaOffset;
      returned := false;
      callStack := callStack[..|callStack| - 1];
      stackFrames := stackFrames[..|stackFrames| - 1];
    }

    /** The first half of `execute_expression`: the outermost frame, whose allocas keep their plain addresses. */
    constructor (p: Program, func: nat, objects: seq<StackObject>)
      requires WellFormed(p) && func < |p| && |objects| == |p[func].allocas|
      ensures Valid() && fresh(Buffers())
      ensures program == p && model == Start(p, func, objects)
    {
      program := p;
      var buffer := NewValues(p[func], 0, objects);
      currentFunction := func;
      args := [];
      instructionValues := buffer;
      instructions := p[func].instructions;
      allocaOffset := |p[func].allocas|;
      callSrcTokensIndex := 0;
      currentInstruction := InstructionPtr(func, 0);
      currentValueBuffer := buffer;
      currentValueIndex := |p[func].allocas|;
      nextInstruction := None;
      retValue := Nothing;
      returned := false;
      hasError := false;
      callStack := [];
      stackFrames := [objects];
      model := Start(p, func, objects);
    }

    method Turn(e: Effects)
      requires Valid() && CanStep(program, model, e)
      modifies this, Buffers()
      ensures Valid() && forall b :: b in Buffers() ==> b in old(Buffers()) || fresh(b)
      ensures model == Step(program, old(model), e)
    {
      ExecuteIsExecuted(program, model, e);
      ExecuteCurrentInstruction(e);
      ExecutedCanAdvance(program, model);
      Advance();
    }

    /** The loop of `execute_expression`, followed for at most `|es|` turns. */
    method ExecuteExpression(es: seq<Effects>)
      requires Valid() && WellFormed(program) && Inv(program, model) && AllEnabled(program, model, es)
      modifies this, Buffers()
      ensures Valid()
      ensures model == Exec(program, old(model), es)
    {
      ghost var final := Exec(program, model, es);
      assert es[0..] == es;
      var k := 0;
      while k < |es| && !returned && !hasError
        invariant k <= |es|
        invariant Valid() && forall b :: b in Buffers() ==> b in old(Buffers()) || fresh(b)
        invariant Remaining(program, model, es[k..], final)
      {
        TakeTurn(program, model, es[k..], final);
        assert es[k..][1..] == es[k + 1..];
        Turn(es[k]);
        k := k + 1;
      }
    }
  }
}
