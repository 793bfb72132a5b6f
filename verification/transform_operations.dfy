/**
 Applying a propagation edge to the taint tree flowing into it. A plain
 propagation kind passes the tree through; a transform kind re-keys every
 taint element through its local transforms into a fresh tree and yields
 its base propagation kind.

 The taint tree is abstracted to a finite map from access path to a set
 of facts, where a weak write joins (unions) the new facts with those
 already at the path. The transform of a taint value by a transform chain
 belongs to the taint domain and is a parameter here.
 */
module TransformOperations {
  import opened Wrappers
  import opened Pairs

  type TransformId = nat
  type PathElement = nat
  type Path = seq<PathElement>
  type Fact = nat
  type Taint = set<Fact>
  type TaintTree = map<Path, Taint>

  /** How a taint value is rewritten by a chain of local transforms. */
  type ApplyTransform = (Taint, seq<TransformId>) -> Taint

  datatype Kind =
    | Propagation(id: nat)
    | Transform(base: Kind, local: seq<TransformId>, global: Option<seq<TransformId>>)
    | Other(id: nat)

  /** A propagation frame; its kind handle may be null. */
  datatype Frame = Frame(kind: Option<Kind>)

  datatype PropagationInfo = PropagationInfo(kind: Kind, tree: TaintTree)

  /**
   What the caller guarantees: the kind is present and is either a
   propagation kind, or a transform kind with no global transforms left
   whose base is a propagation kind.
   */
  predicate WellFormedPropagation(frame: Frame) {
    && frame.kind.Some?
    && (frame.kind.value.Propagation? ||
        (&& frame.kind.value.Transform?
         && frame.kind.value.global.None?
         && frame.kind.value.base.Propagation?))
  }

  /** Merge `taint` into the facts already at `path`, dropping none. */
  function WeakWrite(tree: TaintTree, path: Path, taint: Taint): (r: TaintTree)
    ensures r.Keys == tree.Keys + {path}
    ensures forall q :: q in tree ==> tree[q] <= r[q]
    ensures taint <= r[path]
    ensures forall q :: q in r && q != path ==> r[q] == tree[q]
    ensures r[path] <= taint + (if path in tree then tree[path] else {})
  {
    tree[path := if path in tree then tree[path] + taint else taint]
  }

  /**
   The effective kind and output tree of a propagation edge: the identity
   for a propagation kind; for a transform kind, its base kind and a tree
   holding, at exactly the input's paths, each taint rewritten by the local
   transforms.
   */
  function ApplyPropagation(frame: Frame, input: TaintTree, applyTransform: ApplyTransform): (info: PropagationInfo)
    requires WellFormedPropagation(frame)
    ensures info.kind.Propagation?
    ensures frame.kind.value.Propagation? ==> info.kind == frame.kind.value && info.tree == input
    ensures frame.kind.value.Transform? ==> info.kind == frame.kind.value.base
    ensures frame.kind.value.Transform? ==> info.tree.Keys == input.Keys
    ensures frame.kind.value.Transform? ==>
      forall p :: p in input ==> info.tree[p] == applyTransform(input[p], frame.kind.value.local)
  {
    match frame.kind.value
    case Propagation(_) => PropagationInfo(frame.kind.value, input)
    case Transform(base, local, _) =>
      PropagationInfo(base, map p | p in input :: applyTransform(input[p], local))
  }

  /** The C++ loop over `elements()`: weak-write each element, rewritten,
      in the order the elements are visited. Exactly the tree's paths and
      the visited paths end up present. */
  function WriteElements(
    tree: TaintTree, elements: seq<(Path, Taint)>, local: seq<TransformId>, applyTransform: ApplyTransform
  ): (r: TaintTree)
    ensures r.Keys == tree.Keys + Firsts(elements)
  {
    if elements == [] then
      tree
    else
      var last := elements[|elements| - 1];
      FirstsOfSnoc(elements);
      WeakWrite(WriteElements(tree, elements[..|elements| - 1], local, applyTransform), last.0, applyTransform(last.1, local))
  }

  /** `elements` lists every (path, taint) pair of `tree` exactly once. */
  predicate Enumerates(elements: seq<(Path, Taint)>, tree: TaintTree) {
    && (forall i :: 0 <= i < |elements| ==> elements[i].0 in tree && tree[elements[i].0] == elements[i].1)
    && (forall p :: p in tree ==> exists i :: 0 <= i < |elements| && elements[i].0 == p)
    && (forall i, j :: 0 <= i < j < |elements| ==> elements[i].0 != elements[j].0)
  }

  /**
   Starting from an empty tree, weak-writing the rewritten elements in any
   visiting order gives the tree ApplyPropagation returns: paths are
   distinct, so no write ever merges with another.
   */
  lemma {:induction false} TransformLoopMatches(
    frame: Frame, input: TaintTree, elements: seq<(Path, Taint)>, applyTransform: ApplyTransform)
    requires WellFormedPropagation(frame) && frame.kind.value.Transform?
    requires Enumerates(elements, input)
    ensures WriteElements(map[], elements, frame.kind.value.local, applyTransform) ==
      ApplyPropagation(frame, input, applyTransform).tree
  {
    var local := frame.kind.value.local;
    var out := WriteElements(map[], elements, local, applyTransform);
    WriteDistinctElements(elements, local, applyTransform);
    var expected := ApplyPropagation(frame, input, applyTransform).tree;
    assert expected.Keys == input.Keys;
    assert out.Keys == input.Keys by {
      forall p | p in input ensures p in Firsts(elements) {
        var i :| 0 <= i < |elements| && elements[i].0 == p;
      }
    }
    forall p | p in expected ensures out[p] == expected[p] {
      var i :| 0 <= i < |elements| && elements[i].0 == p;
    }
  }

  /** Weak writes at pairwise distinct paths onto an empty tree leave each
      path holding exactly its own rewritten taint. */
  lemma {:induction false} WriteDistinctElements(
    elements: seq<(Path, Taint)>, local: seq<TransformId>, applyTransform: ApplyTransform)
    requires forall i, j :: 0 <= i < j < |elements| ==> elements[i].0 != elements[j].0
    ensures WriteElements(map[], elements, local, applyTransform).Keys == Firsts(elements)
    ensures HoldsOwnTaint(elements, local, applyTransform, WriteElements(map[], elements, local, applyTransform))
  {
    if elements != [] {
      var n := |elements| - 1;
      var prefix := elements[..n];
      WriteDistinctElements(prefix, local, applyTransform);
      assert elements[n].0 !in Firsts(prefix) by {
        forall i | 0 <= i < n ensures prefix[i].0 != elements[n].0 {
          assert prefix[i] == elements[i];
        }
      }
      DistinctStep(elements, local, applyTransform, WriteElements(map[], prefix, local, applyTransform));
    }
  }

  /** Each path of `elements` holds exactly its own rewritten taint in `out`. */
  ghost predicate HoldsOwnTaint(
    elements: seq<(Path, Taint)>, local: seq<TransformId>, applyTransform: ApplyTransform, out: TaintTree)
  {
    forall i :: 0 <= i < |elements| ==>
      elements[i].0 in out && out[elements[i].0] == applyTransform(elements[i].1, local)
  }

  /** A weak write at a fresh path leaves the earlier paths' taints alone. */
  lemma DistinctStep(
    elements: seq<(Path, Taint)>, local: seq<TransformId>, applyTransform: ApplyTransform, before: TaintTree)
    requires elements != []
    requires elements[|elements| - 1].0 !in before
    requires HoldsOwnTaint(elements[..|elements| - 1], local, applyTransform, before)
    ensures HoldsOwnTaint(elements, local, applyTransform,
      WeakWrite(before, elements[|elements| - 1].0, applyTransform(elements[|elements| - 1].1, local)))
  {
    var prefix := elements[..|elements| - 1];
    forall i | 0 <= i < |prefix| ensures elements[i] == prefix[i] {
    }
  }

  /**
   Weak writes never lose a fact: whatever the visiting order and even if
   paths repeat, every fact already in the tree, and every rewritten fact
   written, is in the result.
   */
  lemma {:induction false} WriteElementsKeepsFacts(
    tree: TaintTree, elements: seq<(Path, Taint)>, local: seq<TransformId>, applyTransform: ApplyTransform)
    ensures forall q :: q in tree ==>
      (q in WriteElements(tree, elements, local, applyTransform) &&
       tree[q] <= WriteElements(tree, elements, local, applyTransform)[q])
    ensures forall i :: 0 <= i < |elements| ==>
      (elements[i].0 in WriteElements(tree, elements, local, applyTransform) &&
       applyTransform(elements[i].1, local) <= WriteElements(tree, elements, local, applyTransform)[elements[i].0])
  {
    if elements != [] {
      var n := |elements| - 1;
      var prefix := elements[..n];
      WriteElementsKeepsFacts(tree, prefix, local, applyTransform);
      KeepsFactsStep(tree, elements, local, applyTransform, WriteElements(tree, prefix, local, applyTransform));
    }
  }

  /** Every fact of `tree`, and every rewritten fact of `elements`, is in `out`. */
  ghost predicate HoldsFacts(
    tree: TaintTree, elements: seq<(Path, Taint)>, local: seq<TransformId>, applyTransform: ApplyTransform, out: TaintTree)
  {
    && (forall q :: q in tree ==> q in out && tree[q] <= out[q])
    && (forall i :: 0 <= i < |elements| ==>
          elements[i].0 in out && applyTransform(elements[i].1, local) <= out[elements[i].0])
  }

  /** One more weak write keeps every fact the earlier writes kept. */
  lemma KeepsFactsStep(
    tree: TaintTree, elements: seq<(Path, Taint)>, local: seq<TransformId>, applyTransform: ApplyTransform, before: TaintTree)
    requires elements != []
    requires HoldsFacts(tree, elements[..|elements| - 1], local, applyTransform, before)
    ensures HoldsFacts(tree, elements, local, applyTransform,
      WeakWrite(before, elements[|elements| - 1].0, applyTransform(elements[|elements| - 1].1, local)))
  {
    var prefix := elements[..|elements| - 1];
    forall i | 0 <= i < |prefix| ensures elements[i] == prefix[i] {
    }
  }

  /** A one-element input yields exactly the rewritten taint at its path,
      under the transform kind's base kind. */
  lemma SingleElementTransform(
    base: Kind, local: seq<TransformId>, path: Path, taint: Taint, applyTransform: ApplyTransform)
    requires base.Propagation?
    ensures ApplyPropagation(Frame(Some(Transform(base, local, None))), map[path := taint], applyTransform)
      == PropagationInfo(base, map[path := applyTransform(taint, local)])
  {
  }
}
