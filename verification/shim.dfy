/**
 A shim target binds one callee to a finalized parameter mapping and
 resolves, for a call instruction of the shimmed method, which operand
 supplies each of the callee's parameters. A shim is the shimmed method
 with its targets in declaration order.
 */
module Shims {
  import opened Wrappers
  import opened Dex
  import opened ShimMethods
  import opened ShimParameterMappings

  datatype ShimTarget = ShimTarget(callTarget: Method, parameterMapping: ShimParameterMapping) {

    /** The receiver read below is a valid operand index. */
    predicate ReceiverInRange(instruction: Instruction) {
      !callTarget.isStatic && parameterMapping.At(0).Some? ==> parameterMapping.At(0).value < |instruction|
    }

    /** Every mapped position of the callee reads a valid operand index. */
    predicate RegistersInRange(instruction: Instruction) {
      forall p: ParameterPosition :: p < callTarget.NumberOfParameters() && parameterMapping.At(p).Some? ==>
        parameterMapping.At(p).value < |instruction|
    }

    /**
     The operand supplying the callee's receiver: none for a static callee
     or when position 0 has no correspondence, otherwise the operand at the
     mapped shimmed position.
     */
    function ReceiverRegister(instruction: Instruction): (r: Option<Register>)
      requires ReceiverInRange(instruction)
      ensures r.None? <==> callTarget.isStatic || !parameterMapping.Contains(0)
      ensures r.Some? ==> r.value == instruction[parameterMapping.At(0).value]
    {
      if callTarget.isStatic then
        None
      else
        match parameterMapping.At(0)
        case None => None
        case Some(receiverPosition) => Some(instruction[receiverPosition])
    }

    /**
     The operand bound to each callee position that has a correspondence;
     positions without one are absent, never defaulted.
     */
    function ParameterRegisters(instruction: Instruction): (r: map<ParameterPosition, Register>)
      requires RegistersInRange(instruction)
      ensures forall p: ParameterPosition :: p in r <==>
        p < callTarget.NumberOfParameters() && parameterMapping.Contains(p)
      ensures forall p: ParameterPosition :: p in r ==>
        parameterMapping.At(p).Some? && r[p] == instruction[parameterMapping.At(p).value]
    {
      map p: ParameterPosition | p < callTarget.NumberOfParameters() && parameterMapping.At(p).Some? ::
        instruction[parameterMapping.At(p).value]
    }
  }

  datatype Shim = Shim(shimmed: Method, targets: seq<ShimTarget>) {

    function Empty(): (b: bool)
      ensures b <==> targets == []
    {
      |targets| == 0
    }
  }

  /** Receiver and parameter bindings agree: whenever a receiver operand is
      found it is also the binding of callee position 0. */
  lemma ReceiverAgreesWithParameterRegisters(target: ShimTarget, instruction: Instruction)
    requires target.RegistersInRange(instruction)
    ensures target.ReceiverInRange(instruction)
    ensures target.ReceiverRegister(instruction).Some? ==>
      0 in target.ParameterRegisters(instruction) &&
      target.ParameterRegisters(instruction)[0] == target.ReceiverRegister(instruction).value
  {
  }

  /**
   A callee whose mapping was instantiated against the shimmed method only
   reads operands that exist in a call of the shimmed method, and every
   operand it binds was passed at a position of the same type as the
   callee parameter it feeds.
   */
  lemma InstantiatedTargetBindsWellTyped(
    declared: ShimParameterMapping, callee: Method, shim: ShimMethod, instruction: Instruction)
    requires |instruction| == shim.shimmed.NumberOfParameters()
    ensures ShimTarget(callee, declared.Instantiate(callee, shim)).ReceiverInRange(instruction)
    ensures ShimTarget(callee, declared.Instantiate(callee, shim)).RegistersInRange(instruction)
    ensures forall p: ParameterPosition ::
      p in ShimTarget(callee, declared.Instantiate(callee, shim)).ParameterRegisters(instruction) ==>
        callee.ParameterType(p).Some? &&
        callee.ParameterType(p) == shim.ParameterType(declared.Instantiate(callee, shim).At(p).value)
  {
  }

  /** The receiver slot of an instance callee is never inferred, so a
      callee relying on inference has no receiver operand. */
  lemma InferredInstanceTargetHasNoReceiver(callee: Method, shim: ShimMethod, instruction: Instruction)
    requires !callee.isStatic
    ensures ShimTarget(callee, ShimParameterMapping(map[]).Instantiate(callee, shim)).ReceiverInRange(instruction)
    ensures ShimTarget(callee, ShimParameterMapping(map[]).Instantiate(callee, shim)).ReceiverRegister(instruction).None?
  {
  }

  /**
   A shim target hands back the callee and the mapping it was built with;
   a shim hands back the shimmed method and its targets, in order, and is
   empty exactly when there are none.
   */
  lemma Construction(callee: Method, mapping: ShimParameterMapping, shimmed: Method, targets: seq<ShimTarget>)
    ensures ShimTarget(callee, mapping).callTarget == callee
    ensures ShimTarget(callee, mapping).parameterMapping == mapping
    ensures Shim(shimmed, targets).shimmed == shimmed
    ensures Shim(shimmed, targets).targets == targets
    ensures Shim(shimmed, targets).Empty() <==> targets == []
  {
  }

  /** In bar(int, String, Object) with distinct types, each argument type
      is found at its own position. */
  lemma ScenarioTypePositions(intType: TypeId, stringType: TypeId, objectType: TypeId, cls: TypeId)
    requires intType != stringType && intType != objectType && stringType != objectType
    ensures ShimMethod(Method(cls, true, [intType, stringType, objectType])).TypePosition(intType) == Some(0)
    ensures ShimMethod(Method(cls, true, [intType, stringType, objectType])).TypePosition(stringType) == Some(1)
  {
    var bar := Method(cls, true, [intType, stringType, objectType]);
    ArgumentPosition(bar, 0);
    ArgumentPosition(bar, 1);
    assert bar.Layout()[0] != bar.args[1];
  }

  /** Inference for foo(int, String) against bar(int, String, Object). */
  lemma InferScenario(intType: TypeId, stringType: TypeId, objectType: TypeId, cls: TypeId)
    requires intType != stringType && intType != objectType && stringType != objectType
    ensures Infer(Method(cls, true, [intType, stringType]),
                  ShimMethod(Method(cls, true, [intType, stringType, objectType]))).entries == map[0 := 0, 1 := 1]
  {
    var callee := Method(cls, true, [intType, stringType]);
    var shim := ShimMethod(Method(cls, true, [intType, stringType, objectType]));
    ScenarioTypePositions(intType, stringType, objectType, cls);
    var r := Infer(callee, shim);
    assert r.At(0) == Some(0) by {
      assert r.At(0) == Inferred(callee, shim, 0);
    }
    assert r.At(1) == Some(1) by {
      assert r.At(1) == Inferred(callee, shim, 1);
    }
    forall p: ParameterPosition | p in r.entries
      ensures p == 0 || p == 1
    {
      assert r.At(p) == Inferred(callee, shim, p);
    }
    assert r.entries == map[0 := 0, 1 := 1] by {
      assert 0 in r.entries && 1 in r.entries;
    }
  }

  /**
   A static callee foo(int, String) shimmed from a static bar(int, String,
   Object) with no declared mapping: instantiation pairs 0 with 0 and 1
   with 1, and nothing else.
   */
  lemma StaticInferenceScenario(intType: TypeId, stringType: TypeId, objectType: TypeId, cls: TypeId)
    requires intType != stringType && intType != objectType && stringType != objectType
    ensures ShimParameterMapping(map[]).Instantiate(
      Method(cls, true, [intType, stringType]),
      ShimMethod(Method(cls, true, [intType, stringType, objectType]))).entries == map[0 := 0, 1 := 1]
  {
    InferScenario(intType, stringType, objectType, cls);
  }

  /** With that mapping, a call bar(r0, r1, r2) binds foo's parameters to
      r0 and r1, and position 2 stays unbound. */
  lemma StaticRegistersScenario(intType: TypeId, stringType: TypeId, cls: TypeId, r0: Register, r1: Register, r2: Register)
    ensures ShimTarget(
      Method(cls, true, [intType, stringType]),
      ShimParameterMapping(map[0 := 0, 1 := 1])).ParameterRegisters([r0, r1, r2]) == map[0 := r0, 1 := r1]
  {
    var target := ShimTarget(Method(cls, true, [intType, stringType]), ShimParameterMapping(map[0 := 0, 1 := 1]));
    var registers := target.ParameterRegisters([r0, r1, r2]);
    assert registers.Keys == {0, 1};
  }

  /** An instance callee whose receiver is mapped to shimmed position 2
      reads its receiver from the third operand. */
  lemma ReceiverScenario(callee: Method, r0: Register, r1: Register, r2: Register, r3: Register)
    requires !callee.isStatic
    ensures ShimTarget(callee, ShimParameterMapping(map[0 := 2])).ReceiverRegister([r0, r1, r2, r3]) == Some(r2)
  {
  }
}
