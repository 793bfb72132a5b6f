/**
 Method handles as the shim code consumes them: a declaring class, a
 static/instance flag and the ordered argument types of the prototype.
 Types are interned handles compared by identity; a call instruction is
 the sequence of its source registers.
 */
module Dex {
  import opened Wrappers

  /** An interned type handle: two types are the same exactly when their ids are. */
  datatype TypeId = TypeId(id: nat)

  type Register = nat

  /** A logical parameter slot; 0 is the receiver of an instance method. */
  type ParameterPosition = nat

  /** The source registers of a call instruction, by operand index. */
  type Instruction = seq<Register>

  datatype Method = Method(cls: TypeId, isStatic: bool, args: seq<TypeId>) {

    /** Number of logical slots taken by the receiver before the arguments. */
    function Offset(): nat {
      if isStatic then 0 else 1
    }

    function NumberOfParameters(): nat {
      |args| + Offset()
    }

    /** The type of every logical position, receiver first for instance methods. */
    function Layout(): (layout: seq<TypeId>)
      ensures |layout| == NumberOfParameters()
    {
      (if isStatic then [] else [cls]) + args
    }

    /** The type at a logical position, or None past the last parameter. */
    function ParameterType(position: ParameterPosition): Option<TypeId> {
      GetParameterType(cls, args, isStatic, position)
    }
  }

  /**
   The type declared at `position` of a method given by its class,
   argument types and static flag: None when the position is past the
   parameter count, the class for position 0 of an instance method, and
   otherwise the argument shifted by the receiver slot.
   */
  function GetParameterType(
    cls: TypeId,
    args: seq<TypeId>,
    isStatic: bool,
    position: ParameterPosition
  ): (r: Option<TypeId>)
    ensures r.None? <==> position >= Method(cls, isStatic, args).NumberOfParameters()
    ensures r.Some? ==> r.value == Method(cls, isStatic, args).Layout()[position]
  {
    var numberOfParameters := |args| + (if isStatic then 0 else 1);
    if position >= numberOfParameters then
      None
    else if !isStatic && position == 0 then
      Some(cls)
    else
      Some(args[position - (if isStatic then 0 else 1)])
  }

  /** Position 0 of an instance method is its class; every argument i
      sits at i shifted by the receiver slot. */
  lemma ParameterTypeLayout(m: Method)
    ensures !m.isStatic ==> m.ParameterType(0) == Some(m.cls)
    ensures forall i :: 0 <= i < |m.args| ==> m.ParameterType(i + m.Offset()) == Some(m.args[i])
    ensures m.ParameterType(m.NumberOfParameters()).None?
  {
  }
}
