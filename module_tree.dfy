/** The module tree of a network as a value, and `replace_relu` as a function on it.

    A module has a class (its `Kind`) and an ordered dictionary `_modules` of named
    children, written here as a sequence of entries. `replace_relu` matches children
    by their class name only; it never looks at the module it is given, only below. */
module ModuleTree {

  /** The class of a module. `Guided` is the `GuidedBackProRelu` activation;
      `Other(name)` is any other class, identified by its `__name__`. The tag
      is the module's identity, but the rewrite matches on `ClassName` only. */
  datatype Kind = ReLU | Guided | Other(name: string)

  datatype Module = Module(kind: Kind, children: seq<Entry>)

  /** One item of a `_modules` dictionary: its key and the child module. */
  datatype Entry = Entry(key: string, child: Module)

  const ReluName: string := "ReLU"
  const GuidedName: string := "GuidedBackProRelu"

  /** The name of a module's class, which is what `replace_relu` compares. */
  function ClassName(k: Kind): (n: string)
    ensures n == ReluName <==> k == ReLU || k == Other(ReluName)
    ensures k.Other? ==> n == k.name
  {
    match k
    case ReLU => ReluName
    case Guided => GuidedName
    case Other(name) => name
  }

  /** The test `replace_relu` applies to each child: an exact string comparison. */
  predicate IsReluNamed(k: Kind)
    ensures IsReluNamed(k) <==> k == ReLU || k == Other(ReluName)
  {
    ClassName(k) == ReluName
  }

  predicate IsGuided(k: Kind) {
    k == Guided
  }

  /** A fresh `GuidedBackProRelu()`: a leaf module. */
  function GuidedModule(): (g: Module)
    ensures g.kind == Guided && g.children == []
    ensures !IsReluNamed(g.kind)
  {
    Module(Guided, [])
  }

  function Keys(es: seq<Entry>): (ks: seq<string>)
    ensures |ks| == |es|
    ensures forall i :: 0 <= i < |es| ==> ks[i] == es[i].key
  {
    seq(|es|, i requires 0 <= i < |es| => es[i].key)
  }

  /** Python dictionaries hold each key once. */
  predicate DistinctKeys(es: seq<Entry>) {
    forall i, j :: 0 <= i < j < |es| ==> es[i].key != es[j].key
  }

  /** The module tree after `replace_relu(m)`: every child of `m` that is named
      `ReLU` is replaced by a fresh guided module under the same key, and every
      other child is rewritten recursively. */
  function ReplaceRelu(m: Module): (r: Module)
    ensures r.kind == m.kind
    ensures Keys(r.children) == Keys(m.children)
    decreases m, 0
  {
    Module(m.kind, seq(|m.children|, i requires 0 <= i < |m.children| =>
      Entry(m.children[i].key, RewriteChild(m.children[i].child))))
  }

  /** What becomes of one child under `replace_relu`: the `if`/`else` of the loop body. */
  function RewriteChild(c: Module): (r: Module)
    ensures !IsReluNamed(r.kind)
    ensures r.kind == (if IsReluNamed(c.kind) then Guided else c.kind)
    ensures IsReluNamed(c.kind) ==> r.children == []
    decreases c, 1
  {
    if IsReluNamed(c.kind) then GuidedModule() else ReplaceRelu(c)
  }

  /** No module strictly below `m` is named `ReLU`. */
  predicate ReluFreeBelow(m: Module)
    decreases m
  {
    forall i :: 0 <= i < |m.children| ==>
      !IsReluNamed(m.children[i].child.kind) && ReluFreeBelow(m.children[i].child)
  }

  /** Every module in the tree that is named `ReLU` has no children of its own,
      as with the framework's `ReLU` activation. */
  predicate ReluNodesAreLeaves(m: Module)
    decreases m
  {
    (IsReluNamed(m.kind) ==> m.children == []) &&
    forall i :: 0 <= i < |m.children| ==> ReluNodesAreLeaves(m.children[i].child)
  }

  /** Every `ReLU` module strictly below `m` has no children of its own. */
  predicate ReluNodesBelowAreLeaves(m: Module) {
    forall i :: 0 <= i < |m.children| ==> ReluNodesAreLeaves(m.children[i].child)
  }

  /** The two trees have the same keys in the same order at every level. */
  predicate SameShape(a: Module, b: Module)
    decreases a
  {
    Keys(a.children) == Keys(b.children) &&
    forall i :: 0 <= i < |a.children| ==> SameShape(a.children[i].child, b.children[i].child)
  }

  /** The number of modules in the tree, the root included, whose class satisfies `p`. */
  function Count(m: Module, p: Kind -> bool): nat
    decreases m, 1
  {
    (if p(m.kind) then 1 else 0) + CountFrom(m, 0, p)
  }

  /** The same count over the subtrees of the children `k..` of `m`. */
  function CountFrom(m: Module, k: nat, p: Kind -> bool): nat
    decreases m, 0, |m.children| - k
  {
    if k >= |m.children| then 0
    else Count(m.children[k].child, p) + CountFrom(m, k + 1, p)
  }

  /** One level of `replace_relu`: the root keeps its class, the dictionary keeps its
      keys in order, and each child is either the fresh guided module (exactly when
      its class name is `ReLU`) or the child rewritten. */
  lemma ReplaceReluOneLevel(m: Module)
    ensures ReplaceRelu(m).kind == m.kind
    ensures Keys(ReplaceRelu(m).children) == Keys(m.children)
    ensures DistinctKeys(ReplaceRelu(m).children) <==> DistinctKeys(m.children)
    ensures forall i :: 0 <= i < |m.children| ==>
      (IsReluNamed(m.children[i].child.kind) ==> ReplaceRelu(m).children[i].child == GuidedModule())
    ensures forall i :: 0 <= i < |m.children| ==>
      (!IsReluNamed(m.children[i].child.kind) ==>
        ReplaceRelu(m).children[i].child == ReplaceRelu(m.children[i].child) &&
        ReplaceRelu(m).children[i].child.kind == m.children[i].child.kind)
  {
  }

  /** After `replace_relu`, nothing strictly below the root is named `ReLU`. */
  lemma {:induction false} ReplaceReluLeavesNoRelu(m: Module)
    ensures ReluFreeBelow(ReplaceRelu(m))
    decreases m
  {
    var r := ReplaceRelu(m);
    forall i | 0 <= i < |r.children|
      ensures !IsReluNamed(r.children[i].child.kind) && ReluFreeBelow(r.children[i].child)
    {
      var c := m.children[i].child;
      assert r.children[i].child == RewriteChild(c);
      if IsReluNamed(c.kind) {
        assert r.children[i].child == GuidedModule();
      } else {
        assert r.children[i].child == ReplaceRelu(c);
        ReplaceReluLeavesNoRelu(c);
      }
    }
  }

  /** A tree with no `ReLU` below its root is left exactly as it is. */
  lemma {:induction false} ReplaceReluFixesReluFree(m: Module)
    requires ReluFreeBelow(m)
    ensures ReplaceRelu(m) == m
    decreases m
  {
    var r := ReplaceRelu(m);
    forall i | 0 <= i < |m.children|
      ensures r.children[i] == m.children[i]
    {
      ReplaceReluFixesReluFree(m.children[i].child);
    }
  }

  /** A second `replace_relu` changes nothing. */
  lemma ReplaceReluIdempotent(m: Module)
    ensures ReplaceRelu(ReplaceRelu(m)) == ReplaceRelu(m)
  {
    ReplaceReluLeavesNoRelu(m);
    ReplaceReluFixesReluFree(ReplaceRelu(m));
  }

  /** The root is never replaced, even when it is itself named `ReLU`. */
  lemma ReplaceReluKeepsRelu(children: seq<Entry>)
    ensures ReplaceRelu(Module(ReLU, children)).kind == ReLU
    ensures IsReluNamed(ReplaceRelu(Module(ReLU, children)).kind)
  {
  }

  /** The keys of every dictionary, and their order, are kept at every level,
      provided `ReLU` modules below the root have no children (a replaced `ReLU` takes its
      children with it). */
  lemma {:induction false} ReplaceReluKeepsShape(m: Module)
    requires ReluNodesBelowAreLeaves(m)
    ensures SameShape(ReplaceRelu(m), m)
    decreases m
  {
    var r := ReplaceRelu(m);
    ReplaceReluOneLevel(m);
    forall i | 0 <= i < |r.children|
      ensures SameShape(r.children[i].child, m.children[i].child)
    {
      var c := m.children[i].child;
      if IsReluNamed(c.kind) {
        assert c.children == [];
      } else {
        ReplaceReluKeepsShape(c);
      }
    }
  }

  /** Counting over children `k..` after the rewrite: each `ReLU` child adds one
      guided module, each other child keeps its guided modules and gains one per
      `ReLU` below it. */
  lemma {:induction false} CountFromAfterReplace(m: Module, k: nat)
    requires ReluNodesBelowAreLeaves(m)
    requires k <= |m.children|
    ensures CountFrom(ReplaceRelu(m), k, IsGuided)
         == CountFrom(m, k, IsGuided) + CountFrom(m, k, IsReluNamed)
    decreases m, 0, |m.children| - k
  {
    if k < |m.children| {
      var c := m.children[k].child;
      CountFromAfterReplace(m, k + 1);
      if IsReluNamed(c.kind) {
        assert c.children == [];
        assert CountFrom(c, 0, IsGuided) == 0 && CountFrom(c, 0, IsReluNamed) == 0;
      } else {
        GuidedCountAfterReplace(c);
      }
    }
  }

  /** After `replace_relu`, the guided modules are those already present plus one
      for each `ReLU` strictly below the root. */
  lemma {:induction false} GuidedCountAfterReplace(m: Module)
    requires ReluNodesBelowAreLeaves(m)
    ensures Count(ReplaceRelu(m), IsGuided)
         == Count(m, IsGuided) + Count(m, IsReluNamed) - (if IsReluNamed(m.kind) then 1 else 0)
    decreases m, 1
  {
    CountFromAfterReplace(m, 0);
  }

  /** Matching is by exact class name: an activation of another class, even one
      whose name merely contains `ReLU`, stays, while a `ReLU` beside it is replaced. */
  lemma ExactNameMatch()
    ensures ReplaceRelu(Module(Other("Net"), [Entry("act", Module(Other("LeakyReLU"), [])),
                                              Entry("relu", Module(ReLU, []))]))
         == Module(Other("Net"), [Entry("act", Module(Other("LeakyReLU"), [])),
                                  Entry("relu", GuidedModule())])
  {
  }
}
