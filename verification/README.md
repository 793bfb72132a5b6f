# Shim parameter correlation and transform application

A Dafny model of two pure pieces of a taint-analysis engine for compiled
application bytecode.

**Shims** let the analysis follow data through calls that the bytecode does
not expose. A shim links the call sites of a *shimmed method* to one or
more *shim targets* that really receive the data. The model covers:

- the shimmed method's type-to-position index;
- the sparse target-position → shimmed-position mapping;
- its instantiation against real signatures, either inferred from types
  or validated from a declaration;
- the operand (register) bindings a target reads from a call instruction
  of the shimmed method.

**Transform application** resolves a propagation edge. A plain
propagation kind passes the taint tree through unchanged. A transform kind
rewrites every taint of the tree through its local transforms into a fresh
tree, and yields the transform kind's base kind.

Files (one module each):

- `wrappers.dfy`: `Option`, the "may be absent" result.
- `pairs.dfy`: `Firsts`, the first components of a sequence of pairs, and
  its snoc law. Both the declaration decoder and the propagation loop
  walk such sequences.
- `dex.dfy`: method handles (`Method(cls, isStatic, args)`), type ids,
  registers, instructions, and `get_parameter_type`.
- `shim_method.dfy`: `ShimMethod` and its first-occurrence type index.
- `shim_parameter_mapping.dfy`: `ShimParameterMapping`. This covers its
  queries, insert, the declaration decoder, inference, validation and
  `instantiate`.
- `shim.dfy`: `ShimTarget` (receiver and parameter registers), `Shim`,
  and the worked scenarios.
- `transform_operations.dfy`: `Kind`, the flat taint-tree abstraction, and
  `apply_propagation`.

Modelling choices:

- A method handle is the record `Method(cls, isStatic, args)`. Its
  `parameter_type` is assumed to use the same layout as
  `get_parameter_type`: the receiver at 0 for an instance method, then
  the arguments. `Method` itself is not part of this model.
- A null argument list of a prototype is the empty sequence. This
  matches the null checks in the `ShimMethod` constructor and in
  inference. `get_parameter_type` does not check for null: on the
  declared path of `instantiate`, a null list would crash in C++, where
  `GetParameterType` returns a value.
- Types are compared by identity (`TypeId`). A call instruction is the
  sequence of its source registers.
- `ShimMethod` stores only the method. Its index is computed from the
  layout by emplacing each type in order, so the first position of a
  type wins.
- Every class is an immutable value, and every operation is a pure
  function of its inputs. This models `const` members, the input tree
  taken by const reference, and the fact that `instantiate` never
  mutates its receiver. Calling `instantiate` twice with equal inputs
  gives equal mappings.
- The `mt_assert` checks become `requires` clauses. These are: the frame's
  kind is present; a non-propagation kind is a transform kind with no
  global transforms and a propagation base; the receiver position is
  within the instruction's operands. `parameter_registers` reads operands
  unchecked, so it gets the same bound for every mapped position below the callee's
  parameter count, the only operands its loop reads.
- The declared path of `instantiate` iterates a hash map, so its order
  is unspecified. `Validate` is the order-free result.
  `ValidateInOrder` is the loop over one given enumeration of the keys,
  and `ValidateOrderInsensitive` proves that every enumeration gives
  `Validate`.
- The taint tree is a flat `map<Path, set<Fact>>`. A weak write is set
  union at a path. `Taint::apply_transform` is the function parameter
  `applyTransform`. `WriteElements` is the C++ loop over
  `elements()` in one visiting order, and `TransformLoopMatches` proves
  that every visiting order gives `ApplyPropagation`'s tree.

## Model

| member | source | states |
|---|---|---|
| Dex.GetParameterType | source/shim-generator/Shim.cpp:21-47 | The result is absent exactly when the position is at or past the parameter count (arguments plus one for an instance receiver). Otherwise it is the type at that position of the receiver-then-arguments layout. |
| Dex.ParameterTypeLayout | source/shim-generator/Shim.cpp:41-46 | Position 0 of an instance method is its class, argument i is at i plus the receiver slot, and the position equal to the parameter count is absent. |
| ShimMethods.FirstOccurrences | source/shim-generator/Shim.cpp:76-92 | The emplace-in-order index holds exactly the types of the layout. Each type maps to a position that declares it, and that position is no later than any other position declaring it. |
| ShimMethods.ShimMethod.ParameterType | source/shim-generator/Shim.cpp:98-101 | The type at a position of the shimmed method. It is absent exactly past the last parameter. When present, the index finds that type at that position or earlier. |
| ShimMethods.ShimMethod.TypePosition | source/shim-generator/Shim.cpp:103-116 | Absent exactly when the type is neither the receiver type nor any argument type. Otherwise it is in range, declares the type, and is the least such position. |
| ShimMethods.TypePositionInvertsParameterType | source/shim-generator/Shim.cpp:98-116 | A position found for a type declares that type. A type declared at p is found at p or earlier. |
| ShimMethods.ShimMethodIndexLayout | source/shim-generator/Shim.cpp:76-92 | An instance method's class is at 0. Argument i is found at or before i plus the receiver slot, and exactly there iff no earlier slot has the same type. |
| ShimMethods.ArgumentPosition | source/shim-generator/Shim.cpp:89-91 | For one argument: it is found, never after its own slot, and at its own slot iff no earlier slot repeats its type. |
| ShimParameterMappings.ShimParameterMapping.At | source/shim-generator/Shim.cpp:128-136 | Some(entries[p]) when p is a key, None otherwise. |
| ShimParameterMappings.ShimParameterMapping.Empty | source/shim-generator/Shim.cpp:120-122 | True iff no position has a correspondence (`At` is absent everywhere). |
| ShimParameterMappings.ShimParameterMapping.Contains | source/shim-generator/Shim.cpp:124-126 | True iff `At` of the position is present. |
| ShimParameterMappings.ShimParameterMapping.Insert | source/shim-generator/Shim.cpp:138-142 | Insert-or-overwrite. Afterwards the position maps to the new value, every other position is unchanged, and the mapping is not empty. |
| ShimParameterMappings.ShimParameterMapping.Validate | source/shim-generator/Shim.cpp:177-206 | The declared path. The result is a sub-map of the declared pairs. Each kept pair has a target position in range whose real type equals the shimmed type at the mapped position. Each declared pair that passes is kept unaltered. If every pair fails, the result is empty. |
| ShimParameterMappings.ShimParameterMapping.ValidateInOrder | source/shim-generator/Shim.cpp:177-204 | The C++ loop over `map_`, in one given key order. It keeps only visited pairs, unaltered and compatible, and it keeps every visited compatible pair. |
| ShimParameterMappings.ShimParameterMapping.Instantiate | source/shim-generator/Shim.cpp:163-207 | An empty mapping yields exactly the inferred pairs. A declared mapping yields a sub-map that keeps a pair iff it is compatible. On both paths every resulting pair links two positions of the same type. |
| ShimParameterMappings.InferPrefix | source/shim-generator/Shim.cpp:61-69 | After n iterations of the inference loop, the first n argument slots hold the shimmed position of their type when it is indexed. Nothing else is present. |
| ShimParameterMappings.Infer | source/shim-generator/Shim.cpp:49-72 | Target argument i maps to the index position of its type, at i plus the receiver slot, when the type is indexed. Nothing else is produced, and an instance target's slot 0 is never inferred. |
| ShimParameterMappings.InferredIsCompatible | source/shim-generator/Shim.cpp:63-67 | Every inferred pair links a target parameter to a shimmed parameter of the same type. |
| ShimParameterMappings.ValidateOrderInsensitive | source/shim-generator/Shim.cpp:177-204 | Running the validation loop over any enumeration of the declared positions yields the same mapping. |
| ShimParameterMappings.FromDeclaration | source/shim-generator/Shim.cpp:144-161 | A null declaration gives the empty mapping. Otherwise the present positions are exactly those named by a decoded pair, and a pair with no later pair for its position gives that position's value. |
| ShimParameterMappings.FromDeclarationLastWriteWins | source/shim-generator/Shim.cpp:144-161 | A decoded declaration maps p to v iff some pair (p, v) has no later pair for p, and leaves p absent iff no pair names it. |
| ShimParameterMappings.FromPairs | source/shim-generator/Shim.cpp:152-158 | The insert loop over decoded pairs, in order, from the empty mapping. Its keys are exactly the positions the pairs name. |
| ShimParameterMappings.FromPairsLastWriteWins | source/shim-generator/Shim.cpp:152-158 | After inserting decoded pairs in order, a position maps to v iff some pair (p, v) has no later pair for p. It is absent iff no pair names it. |
| ShimParameterMappings.AbsentDeclarationIsEmpty | source/shim-generator/Shim.cpp:144-148 | A null declaration decodes to the empty mapping. |
| Shims.ShimTarget.ReceiverRegister | source/shim-generator/Shim.cpp:214-228 | Absent iff the callee is static or slot 0 has no correspondence. Otherwise it is the operand at the mapped shimmed position, which must be in range. |
| Shims.ShimTarget.ParameterRegisters | source/shim-generator/Shim.cpp:230-243 | The keys are exactly the callee positions below its parameter count that have a correspondence. Each is bound to the operand at its mapped position, and unmapped positions are absent. |
| Shims.ReceiverAgreesWithParameterRegisters | source/shim-generator/Shim.cpp:214-243 | If the parameter operands are in range, so is the receiver. A found receiver operand is also the binding of position 0. |
| Shims.InstantiatedTargetBindsWellTyped | source/shim-generator/Shim.cpp:163-243 | For an instantiated mapping and a call with one operand per shimmed parameter, every read operand exists. Every bound operand feeds a callee parameter of the same type as the shimmed slot it comes from. |
| Shims.InferredInstanceTargetHasNoReceiver | source/shim-generator/Shim.cpp:61-67 | An instance callee whose mapping is inferred never gets a receiver operand, because inference starts after slot 0. |
| Shims.Construction | source/shim-generator/Shim.h:79-128 | A target returns the callee and mapping it was built with. A shim returns its method and its targets in order, and is empty iff it has no targets. |
| Shims.Shim.Empty | source/shim-generator/Shim.h:115-117 | True iff the shim has no targets. |
| Shims.StaticInferenceScenario | source/shim-generator/Shim.cpp:49-72 | Static foo(int, String) against bar(int, String, Object) infers exactly {0 -> 0, 1 -> 1}. |
| Shims.StaticRegistersScenario | source/shim-generator/Shim.cpp:230-243 | With that mapping, a call with operands [r0, r1, r2] binds exactly {0: r0, 1: r1}. |
| Shims.ReceiverScenario | source/shim-generator/Shim.cpp:214-228 | An instance callee whose receiver maps to shimmed position 2 reads r2 from operands [r0, r1, r2, r3]. |
| TransformOperations.WeakWrite | source/TransformOperations.cpp:37-43 | A weak write adds the path, keeps every earlier fact, adds the new facts at the path, adds nothing else, and leaves other paths unchanged. |
| TransformOperations.ApplyPropagation | source/TransformOperations.cpp:16-47 | The result kind is always a propagation kind. A propagation kind gives itself and the input tree unchanged. A transform kind gives its base kind and a tree over exactly the input's paths, each holding its input taint rewritten by the local transforms. |
| TransformOperations.WriteElements | source/TransformOperations.cpp:35-44 | The C++ loop over `elements()`, in one given element order. Its paths are exactly the starting tree's paths plus the visited paths. |
| TransformOperations.TransformLoopMatches | source/TransformOperations.cpp:35-44 | Weak-writing the rewritten elements onto an empty tree, in any visiting order, yields ApplyPropagation's tree. |
| TransformOperations.WriteElementsKeepsFacts | source/TransformOperations.cpp:36-43 | Weak writes never lose facts. Earlier facts and every written rewritten taint survive, whatever the order and even when paths repeat. |
| TransformOperations.SingleElementTransform | source/TransformOperations.cpp:35-46 | A one-element tree {p: F} under a transform kind yields the base kind and exactly {p: applyTransform(F, local)}. |

## Left out

- Diagnostics (`ERROR`, `LOG`) for out-of-range positions and type mismatches: the pair is silently skipped, which is the behaviour the diagnostics accompany; the target method name is only used in those messages and is not a parameter here.
- `ShimParameterMapping::from_json`: JSON object validation and the port-name parser (`Root::from_json`) are not part of this model; only "null gives the empty mapping" and the fold of insert over already-resolved position pairs are modelled.
- The `operator<<` renderings: debug text with no contract.
- `Method`, `DexProto`, `IRInstruction`, the `Kinds` and `Transforms` registries and the `MethodToShimMap` alias are external; they are abstracted to records, sequences and opaque ids.
- `Taint::apply_transform` is not part of this model; it is a function parameter with no assumed properties.
- ApplyPropagation: the flat map does not tell a bottom (empty) node from an absent one. A path whose rewritten taint is empty stays a key holding the empty set, so "the output has exactly the input's paths" holds of the abstraction, not necessarily of the real tree.
- The real taint tree (ancestor absorption, collapsing, widening) is abstracted to a flat path-to-fact-set map, so ApplyPropagation does not model interaction between a path and its prefixes.
- Positions and registers are unbounded naturals; the 32-bit width of `ParameterPosition` and of registers (wrap-around past 2^32 parameters) is not modelled.
- `source/Origin.h` is not modelled.
