/**
 The shimmed method with its reverse index from parameter type to the
 logical position that declares it.
 */
module ShimMethods {
  import opened Wrappers
  import opened Dex

  /** A position in the shimmed method; the same numeric type as ParameterPosition. */
  type ShimParameterPosition = ParameterPosition

  /**
   The index built by emplacing each type of `types` in order at its
   position: an emplace never overwrites, so every type keeps the first
   position at which it occurs.
   */
  function FirstOccurrences(types: seq<TypeId>): (index: map<TypeId, ShimParameterPosition>)
    ensures forall t :: t in index <==> t in types
    ensures forall t :: t in index ==> index[t] < |types| && types[index[t]] == t
    ensures forall j :: 0 <= j < |types| ==> types[j] in index && index[types[j]] <= j
  {
    if types == [] then
      map[]
    else
      var index := FirstOccurrences(types[..|types| - 1]);
      var last := types[|types| - 1];
      if last in index then index else index[last := |types| - 1]
  }

  datatype ShimMethod = ShimMethod(shimmed: Method) {

    /** The receiver type (instance methods) then each argument type,
        emplaced with increasing positions from 0. */
    function TypesToPosition(): map<TypeId, ShimParameterPosition> {
      FirstOccurrences(shimmed.Layout())
    }

    /** The type declared at a position of the shimmed method, absent past
        its last parameter; the index finds that type there or earlier. */
    function ParameterType(position: ShimParameterPosition): (r: Option<TypeId>)
      ensures r.None? <==> position >= shimmed.NumberOfParameters()
      ensures r.Some? ==> position < shimmed.NumberOfParameters() && r.value == shimmed.Layout()[position]
      ensures r.Some? ==> TypePosition(r.value).Some? && TypePosition(r.value).value <= position
    {
      shimmed.ParameterType(position)
    }

    /**
     The least position whose parameter has type `t`, or None when `t` is
     neither the receiver type nor any argument type.
     */
    function TypePosition(t: TypeId): (r: Option<ShimParameterPosition>)
      ensures r.None? <==> t !in shimmed.Layout()
      ensures r.Some? ==> r.value < shimmed.NumberOfParameters() && shimmed.Layout()[r.value] == t
      ensures r.Some? ==> forall j :: 0 <= j < r.value ==> shimmed.Layout()[j] != t
    {
      var index := TypesToPosition();
      if t in index then Some(index[t]) else None
    }
  }

  /**
   TypePosition and ParameterType are inverse where the index is not
   lossy: the position found for a type declares that type, and a type
   declared at p is found at p or at an earlier position.
   */
  lemma TypePositionInvertsParameterType(s: ShimMethod, t: TypeId, p: ShimParameterPosition)
    ensures s.TypePosition(t) == Some(p) ==> s.ParameterType(p) == Some(t)
    ensures s.ParameterType(p) == Some(t) ==> s.TypePosition(t).Some? && s.TypePosition(t).value <= p
  {
  }

  /** Argument i of the shimmed method is found at its own slot exactly
      when no earlier slot declares the same type, and never later. */
  lemma ArgumentPosition(m: Method, i: nat)
    requires i < |m.args|
    ensures ShimMethod(m).TypePosition(m.args[i]).Some?
    ensures ShimMethod(m).TypePosition(m.args[i]).value <= i + m.Offset()
    ensures ShimMethod(m).TypePosition(m.args[i]) == Some(i + m.Offset()) <==>
            forall j :: 0 <= j < i + m.Offset() ==> m.Layout()[j] != m.args[i]
  {
    var layout := m.Layout();
    assert layout[i + m.Offset()] == m.args[i];
    var r := ShimMethod(m).TypePosition(m.args[i]);
    if forall j :: 0 <= j < i + m.Offset() ==> layout[j] != m.args[i] {
      assert r.value == i + m.Offset();
    }
  }

  /**
   The index layout of the constructor: the class of an instance method is
   at 0, argument i is found at i shifted by the receiver slot unless the
   same type occurs earlier, in which case the earlier position is kept.
   */
  lemma ShimMethodIndexLayout(m: Method)
    ensures !m.isStatic ==> ShimMethod(m).TypePosition(m.cls) == Some(0)
    ensures forall i :: 0 <= i < |m.args| ==>
      ShimMethod(m).TypePosition(m.args[i]).Some? &&
      ShimMethod(m).TypePosition(m.args[i]).value <= i + m.Offset()
    ensures forall i :: 0 <= i < |m.args| ==>
      (ShimMethod(m).TypePosition(m.args[i]) == Some(i + m.Offset()) <==>
       forall j :: 0 <= j < i + m.Offset() ==> m.Layout()[j] != m.args[i])
  {
    if !m.isStatic {
      assert m.Layout()[0] == m.cls;
    }
    forall i | 0 <= i < |m.args|
      ensures ShimMethod(m).TypePosition(m.args[i]).Some?
      ensures ShimMethod(m).TypePosition(m.args[i]).value <= i + m.Offset()
      ensures ShimMethod(m).TypePosition(m.args[i]) == Some(i + m.Offset()) <==>
              forall j :: 0 <= j < i + m.Offset() ==> m.Layout()[j] != m.args[i]
    {
      ArgumentPosition(m, i);
    }
  }
}
