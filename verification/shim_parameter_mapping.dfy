/**
 The correspondence from a shim target's parameter positions to the
 shimmed method's positions: its queries, insert-or-overwrite, the
 declaration decoder and the instantiation against real signatures.
 */
module ShimParameterMappings {
  import opened Wrappers
  import opened Dex
  import opened ShimMethods
  import opened Pairs

  datatype ShimParameterMapping = ShimParameterMapping(entries: map<ParameterPosition, ShimParameterPosition>) {

    /** The shimmed position recorded for a target position, if any. */
    function At(position: ParameterPosition): (r: Option<ShimParameterPosition>)
      ensures r.Some? <==> position in entries
      ensures r.Some? ==> r.value == entries[position]
    {
      if position in entries then Some(entries[position]) else None
    }

    /** No target position has a recorded correspondence. */
    function Empty(): (b: bool)
      ensures b <==> forall p: ParameterPosition :: At(p).None?
    {
      EmptyMeansNoEntry();
      entries == map[]
    }

    lemma EmptyMeansNoEntry()
      ensures entries == map[] <==> forall p: ParameterPosition :: At(p).None?
    {
      if entries != map[] {
        assert entries.Keys != {};
        var p :| p in entries.Keys;
        assert At(p).Some?;
      }
    }

    function Contains(position: ParameterPosition): (b: bool)
      ensures b <==> At(position).Some?
    {
      position in entries
    }

    /** Insert-or-overwrite: the new pair replaces any earlier one for the
        same target position and leaves every other position alone. */
    function Insert(position: ParameterPosition, shimPosition: ShimParameterPosition): (r: ShimParameterMapping)
      ensures r.At(position) == Some(shimPosition)
      ensures forall q: ParameterPosition :: q != position ==> r.At(q) == At(q)
      ensures !r.Empty()
    {
      ShimParameterMapping(entries[position := shimPosition])
    }

    /**
     The declared path of instantiate: every pair whose target position is
     out of range or whose types differ is dropped, every other pair is
     kept unchanged.
     */
    function Validate(target: Method, shim: ShimMethod): (r: ShimParameterMapping)
      ensures forall p: ParameterPosition :: r.At(p).Some? ==> r.At(p) == At(p)
      ensures forall p: ParameterPosition :: r.At(p).Some? ==> p < target.NumberOfParameters() && Compatible(target, shim, p, r.At(p).value)
      ensures forall p: ParameterPosition :: At(p).Some? && Compatible(target, shim, p, At(p).value) ==> r.At(p) == At(p)
      ensures (forall p: ParameterPosition :: At(p).Some? ==> !Compatible(target, shim, p, At(p).value)) ==> r.Empty()
    {
      ShimParameterMapping(map p | p in entries && Compatible(target, shim, p, entries[p]) :: entries[p])
    }

    /**
     The declared path as the C++ loop over `map_` runs it, visiting the
     stored pairs in the order given by `keys`: each pair is checked and,
     if it passes, inserted. Only visited, compatible pairs are kept, and
     they are kept unaltered.
     */
    function ValidateInOrder(target: Method, shim: ShimMethod, keys: seq<ParameterPosition>): (r: ShimParameterMapping)
      requires forall i :: 0 <= i < |keys| ==> keys[i] in entries
      ensures KeepsVisitedCompatible(target, shim, keys, r)
    {
      if keys == [] then
        ShimParameterMapping(map[])
      else
        var visited := keys[..|keys| - 1];
        var prefix := ValidateInOrder(target, shim, visited);
        var position := keys[|keys| - 1];
        var r := if Compatible(target, shim, position, entries[position]) then
          prefix.Insert(position, entries[position])
        else
          prefix;
        ValidateStep(target, shim, keys, prefix, r);
        r
    }

    /**
     `r` holds only visited pairs that are compatible, unaltered, and holds
     every visited compatible pair.
     */
    ghost predicate KeepsVisitedCompatible(target: Method, shim: ShimMethod, keys: seq<ParameterPosition>, r: ShimParameterMapping)
      requires forall i :: 0 <= i < |keys| ==> keys[i] in entries
    {
      && (forall p: ParameterPosition :: r.At(p).Some? ==>
            p in keys && r.At(p) == At(p) && Compatible(target, shim, p, r.At(p).value))
      && (forall i :: 0 <= i < |keys| && Compatible(target, shim, keys[i], entries[keys[i]]) ==>
            r.At(keys[i]) == At(keys[i]))
    }

    /** One iteration of the validation loop keeps the loop's invariant. */
    lemma ValidateStep(
      target: Method, shim: ShimMethod, keys: seq<ParameterPosition>, prefix: ShimParameterMapping, r: ShimParameterMapping)
      requires keys != [] && forall i :: 0 <= i < |keys| ==> keys[i] in entries
      requires KeepsVisitedCompatible(target, shim, keys[..|keys| - 1], prefix)
      requires var position := keys[|keys| - 1];
        r == if Compatible(target, shim, position, entries[position]) then
          prefix.Insert(position, entries[position])
        else
          prefix
      ensures KeepsVisitedCompatible(target, shim, keys, r)
    {
      var n := |keys| - 1;
      var visited := keys[..n];
      var position := keys[n];
      assert forall i :: 0 <= i < n ==> visited[i] == keys[i];
      forall p: ParameterPosition | r.At(p).Some?
        ensures p in keys && r.At(p) == At(p) && Compatible(target, shim, p, r.At(p).value)
      {
        if p != position {
          assert r.At(p) == prefix.At(p);
          var i :| 0 <= i < n && visited[i] == p;
          assert keys[i] == p;
        }
      }
      forall i | 0 <= i < |keys| && Compatible(target, shim, keys[i], entries[keys[i]])
        ensures r.At(keys[i]) == At(keys[i])
      {
        if keys[i] != position {
          assert visited[i] == keys[i];
        }
      }
    }

    /**
     What the mapping becomes for a concrete target: an empty mapping is
     inferred from the types, a declared one is validated pair by pair.
     */
    function Instantiate(target: Method, shim: ShimMethod): (r: ShimParameterMapping)
      ensures Empty() ==> forall p: ParameterPosition :: r.At(p) == Inferred(target, shim, p)
      ensures !Empty() ==> forall p: ParameterPosition :: r.At(p).Some? ==> r.At(p) == At(p)
      ensures !Empty() ==> forall p: ParameterPosition :: At(p).Some? ==>
        (r.At(p) == At(p) <==> Compatible(target, shim, p, At(p).value))
      ensures forall p: ParameterPosition :: r.At(p).Some? ==> Compatible(target, shim, p, r.At(p).value)
    {
      if Empty() then
        var inferred := Infer(target, shim);
        InferredIsCompatible(target, shim);
        inferred
      else
        Validate(target, shim)
    }
  }

  /**
   A declared pair survives validation when the target really has a
   parameter at `position` and the shimmed method declares the very same
   type at `shimPosition`.
   */
  predicate Compatible(target: Method, shim: ShimMethod, position: ParameterPosition, shimPosition: ShimParameterPosition) {
    target.ParameterType(position).Some? && target.ParameterType(position) == shim.ParameterType(shimPosition)
  }

  /**
   The shimmed position type inference assigns to target position `p`: the
   one found for the type of the target argument at `p`, if `p` is an
   argument slot (never the receiver slot) and that type is in the index.
   */
  function Inferred(target: Method, shim: ShimMethod, p: ParameterPosition): Option<ShimParameterPosition> {
    if target.Offset() <= p < target.NumberOfParameters() then
      shim.TypePosition(target.args[p - target.Offset()])
    else
      None
  }

  /**
   The mapping after the inference loop has visited the first `n` target
   arguments: each argument whose type is in the shimmed method's index
   is recorded at its own position shifted by the receiver slot.
   */
  function InferPrefix(target: Method, shim: ShimMethod, n: nat): (r: ShimParameterMapping)
    requires n <= |target.args|
    ensures InferredBelow(target, shim, target.Offset() + n, r)
  {
    if n == 0 then
      var r := ShimParameterMapping(map[]);
      assert InferredBelow(target, shim, target.Offset(), r) by {
        forall p: ParameterPosition ensures r.At(p) == (if p < target.Offset() then Inferred(target, shim, p) else None) {
          if p < target.Offset() {
            assert Inferred(target, shim, p) == None;
          }
        }
      }
      r
    else
      var prefix := InferPrefix(target, shim, n - 1);
      var found := shim.TypePosition(target.args[n - 1]);
      var r := if found.Some? then prefix.Insert(n - 1 + target.Offset(), found.value) else prefix;
      InferStep(target, shim, n, prefix, r);
      r
  }

  /** `r` holds exactly the inferred pairs of the target positions below `bound`. */
  ghost predicate InferredBelow(target: Method, shim: ShimMethod, bound: nat, r: ShimParameterMapping) {
    forall p: ParameterPosition :: r.At(p) == (if p < bound then Inferred(target, shim, p) else None)
  }

  /** One iteration of the inference loop extends the inferred range by one slot. */
  lemma InferStep(target: Method, shim: ShimMethod, n: nat, prefix: ShimParameterMapping, r: ShimParameterMapping)
    requires 0 < n <= |target.args|
    requires InferredBelow(target, shim, target.Offset() + n - 1, prefix)
    requires var found := shim.TypePosition(target.args[n - 1]);
      r == if found.Some? then prefix.Insert(n - 1 + target.Offset(), found.value) else prefix
    ensures InferredBelow(target, shim, target.Offset() + n, r)
  {
    var position := n - 1 + target.Offset();
    var found := shim.TypePosition(target.args[n - 1]);
    assert Inferred(target, shim, position) == found;
    assert r.At(position) == found;
    forall p: ParameterPosition | p != position
      ensures r.At(p) == (if p < target.Offset() + n then Inferred(target, shim, p) else None)
    {
      assert r.At(p) == prefix.At(p);
    }
  }

  /** Inference over all target arguments; the receiver slot of an
      instance target is never inferred. */
  function Infer(target: Method, shim: ShimMethod): (r: ShimParameterMapping)
    ensures forall p: ParameterPosition :: r.At(p) == Inferred(target, shim, p)
    ensures !target.isStatic ==> r.At(0).None?
  {
    InferPrefix(target, shim, |target.args|)
  }

  /** Every inferred pair links two slots of the same type. */
  lemma InferredIsCompatible(target: Method, shim: ShimMethod)
    ensures forall p: ParameterPosition :: Infer(target, shim).At(p).Some? ==>
      Compatible(target, shim, p, Infer(target, shim).At(p).value)
  {
  }

  /**
   The hash-map iteration order of the declared path does not matter: for
   any enumeration of the stored target positions, the loop yields the
   validated mapping.
   */
  lemma ValidateOrderInsensitive(
    mapping: ShimParameterMapping, target: Method, shim: ShimMethod, keys: seq<ParameterPosition>)
    requires forall p :: p in mapping.entries <==> p in keys
    ensures mapping.ValidateInOrder(target, shim, keys) == mapping.Validate(target, shim)
  {
    var looped := mapping.ValidateInOrder(target, shim, keys);
    var validated := mapping.Validate(target, shim);
    forall p: ParameterPosition
      ensures looped.At(p) == validated.At(p)
    {
      if mapping.At(p).Some? && Compatible(target, shim, p, mapping.At(p).value) {
        var i :| 0 <= i < |keys| && keys[i] == p;
      }
    }
    SameLookupsSameMapping(looped, validated);
  }

  /** Two mappings that answer every lookup alike are the same mapping. */
  lemma SameLookupsSameMapping(a: ShimParameterMapping, b: ShimParameterMapping)
    requires forall p: ParameterPosition :: a.At(p) == b.At(p)
    ensures a == b
  {
    assert a.entries.Keys == b.entries.Keys by {
      forall p | p in a.entries ensures p in b.entries {
        assert a.At(p).Some?;
      }
      forall p | p in b.entries ensures p in a.entries {
        assert b.At(p).Some?;
      }
    }
    forall p | p in a.entries ensures a.entries[p] == b.entries[p] {
      assert a.At(p) == b.At(p);
    }
    assert a.entries == b.entries;
  }

  /**
   The declaration decoder after the textual ports have been resolved to
   positions: an absent declaration is the empty mapping, otherwise every
   pair is inserted in order.
   */
  function FromDeclaration(declaration: Option<seq<(ParameterPosition, ShimParameterPosition)>>): (r: ShimParameterMapping)
    ensures declaration.None? ==> r.Empty()
    ensures declaration.Some? ==> forall i :: 0 <= i < |declaration.value| ==> r.Contains(declaration.value[i].0)
    ensures declaration.Some? ==> r.entries.Keys == Firsts(declaration.value)
    ensures declaration.Some? ==> forall i ::
      (0 <= i < |declaration.value| && LastWrite(declaration.value, i, declaration.value[i].0, declaration.value[i].1)) ==>
      r.At(declaration.value[i].0) == Some(declaration.value[i].1)
  {
    match declaration
    case None => ShimParameterMapping(map[])
    case Some(pairs) =>
      var r := FromPairs(pairs);
      assert forall i :: (0 <= i < |pairs| && LastWrite(pairs, i, pairs[i].0, pairs[i].1)) ==>
        r.At(pairs[i].0) == Some(pairs[i].1) by {
        forall i | 0 <= i < |pairs| && LastWrite(pairs, i, pairs[i].0, pairs[i].1)
          ensures r.At(pairs[i].0) == Some(pairs[i].1)
        {
          FromPairsLastWriteWins(pairs, pairs[i].0, pairs[i].1);
        }
      }
      r
  }

  /** A declaration decodes last-write-wins: a position maps to v iff some
      pair (p, v) has no later pair naming p. */
  lemma FromDeclarationLastWriteWins(
    pairs: seq<(ParameterPosition, ShimParameterPosition)>, p: ParameterPosition, v: ShimParameterPosition)
    ensures FromDeclaration(Some(pairs)).At(p).None? <==> forall i :: 0 <= i < |pairs| ==> pairs[i].0 != p
    ensures FromDeclaration(Some(pairs)).At(p) == Some(v) <==> exists i: nat :: LastWrite(pairs, i, p, v)
  {
    FromPairsLastWriteWins(pairs, p, v);
  }

  /** Insert every pair in order, starting from the empty mapping: exactly
      the positions named by some pair are present. */
  function FromPairs(pairs: seq<(ParameterPosition, ShimParameterPosition)>): (r: ShimParameterMapping)
    ensures r.entries.Keys == Firsts(pairs)
  {
    if pairs == [] then
      ShimParameterMapping(map[])
    else
      var last := pairs[|pairs| - 1];
      FirstsOfSnoc(pairs);
      FromPairs(pairs[..|pairs| - 1]).Insert(last.0, last.1)
  }

  /** Pair i writes v at p and no later pair names p. */
  predicate LastWrite(
    pairs: seq<(ParameterPosition, ShimParameterPosition)>, i: nat, p: ParameterPosition, v: ShimParameterPosition)
  {
    i < |pairs| && pairs[i] == (p, v) && forall j :: i < j < |pairs| ==> pairs[j].0 != p
  }

  /**
   Last write wins: after inserting `pairs` in order, a position maps to
   the value of the last pair naming it, and to nothing if no pair does.
   */
  lemma {:induction false} FromPairsLastWriteWins(
    pairs: seq<(ParameterPosition, ShimParameterPosition)>, p: ParameterPosition, v: ShimParameterPosition)
    ensures FromPairs(pairs).At(p).None? <==> forall i :: 0 <= i < |pairs| ==> pairs[i].0 != p
    ensures FromPairs(pairs).At(p) == Some(v) <==> exists i: nat :: LastWrite(pairs, i, p, v)
  {
    if pairs == [] {
      return;
    }
    var n := |pairs| - 1;
    assert FromPairs(pairs).At(p).None? <==> p !in Firsts(pairs);
    if pairs[n].0 == p {
      LastPairWins(pairs, p, v);
    } else {
      FromPairsLastWriteWins(pairs[..n], p, v);
      assert pairs == pairs[..n] + [pairs[n]];
      EarlierPairWins(pairs[..n], pairs[n], p, v);
    }
  }

  /** When the last pair names p, it decides p's value. */
  lemma LastPairWins(
    pairs: seq<(ParameterPosition, ShimParameterPosition)>, p: ParameterPosition, v: ShimParameterPosition)
    requires pairs != [] && pairs[|pairs| - 1].0 == p
    ensures FromPairs(pairs).At(p) == Some(v) <==> exists i: nat :: LastWrite(pairs, i, p, v)
  {
    var n := |pairs| - 1;
    if FromPairs(pairs).At(p) == Some(v) {
      assert LastWrite(pairs, n, p, v);
    } else {
      assert forall i: nat :: !LastWrite(pairs, i, p, v);
    }
  }

  /** When the last pair names another position, p keeps what the earlier
      pairs gave it. */
  lemma EarlierPairWins(
    prefix: seq<(ParameterPosition, ShimParameterPosition)>, last: (ParameterPosition, ShimParameterPosition),
    p: ParameterPosition, v: ShimParameterPosition)
    requires last.0 != p
    requires FromPairs(prefix).At(p) == Some(v) <==> exists i: nat :: LastWrite(prefix, i, p, v)
    ensures FromPairs(prefix + [last]).At(p) == Some(v) <==> exists i: nat :: LastWrite(prefix + [last], i, p, v)
  {
    var pairs := prefix + [last];
    assert pairs[..|prefix|] == prefix;
    assert FromPairs(pairs).At(p) == FromPairs(prefix).At(p);
    forall i: nat ensures LastWrite(pairs, i, p, v) <==> LastWrite(prefix, i, p, v) {
      if i < |prefix| {
        assert pairs[i] == prefix[i];
        assert forall j :: i < j < |prefix| ==> pairs[j] == prefix[j];
      }
    }
  }

  /** An absent declaration decodes to the empty mapping. */
  lemma AbsentDeclarationIsEmpty()
    ensures FromDeclaration(None).Empty()
  {
  }
}
