/** The module tree as mutable objects, and `replace_relu` as the in-place walk
    that the source performs. Each object's ghost `Model` is its tree as a value
    (`ModuleTree.Module`), and the walk is proved to leave exactly
    `ModuleTree.ReplaceRelu` of the old value behind. */
module ModuleNodes {
  import opened ModuleTree

  class ModuleNode {
    var kind: Kind
    /** `_modules`: the ordered dictionary of children, as its list of items. */
    var modules: seq<(string, ModuleNode)>

    ghost var Model: Module
    ghost var Repr: set<object>

    /** The object graph below this node is a tree (the children's footprints are
        disjoint and do not contain this node), each child is valid, and `Model`
        is the tree's value. */
    ghost predicate Valid()
      reads this, Repr
      ensures Valid() ==> this in Repr
      decreases Repr
    {
      this in Repr &&
      Model.kind == kind &&
      |Model.children| == |modules| &&
      (forall i :: 0 <= i < |modules| ==>
        modules[i].1 in Repr && modules[i].1.Repr <= Repr && this !in modules[i].1.Repr &&
        modules[i].1.Valid() &&
        Model.children[i] == Entry(modules[i].0, modules[i].1.Model)) &&
      (forall i, j :: 0 <= i < j < |modules| ==> modules[i].1.Repr !! modules[j].1.Repr)
    }

    /** A module of class `k` with an empty `_modules`; `GuidedBackProRelu()` is `Leaf(Guided)`. */
    constructor Leaf(k: Kind)
      ensures Valid() && fresh(Repr)
      ensures kind == k && modules == [] && Model == Module(k, [])
    {
      kind := k;
      modules := [];
      Model := Module(k, []);
      Repr := {this};
    }

    /** `replace_relu` on this module: walks `_modules` in order, replacing each child named
        `ReLU` by a fresh `GuidedBackProRelu` under the same key and recursing into
        every other child, which stays the same object. */
    method ReplaceRelu()
      requires Valid()
      modifies Repr
      ensures Valid() && fresh(Repr - old(Repr))
      ensures Model == ModuleTree.ReplaceRelu(old(Model))
      ensures kind == old(kind) && |modules| == |old(modules)|
      ensures forall i :: 0 <= i < |modules| ==>
        modules[i].0 == old(modules)[i].0 &&
        (!IsReluNamed(old(Model).children[i].child.kind) ==> modules[i].1 == old(modules)[i].1) &&
        (IsReluNamed(old(Model).children[i].child.kind) ==> fresh(modules[i].1))
      decreases Model, 0
    {
      ghost var m0 := Model;
      var i := 0;
      while i < |modules|
        invariant 0 <= i <= |modules| == |old(modules)|
        invariant Valid() && fresh(Repr - old(Repr))
        invariant kind == old(kind) && Model.kind == m0.kind && |Model.children| == |m0.children|
        invariant forall j :: 0 <= j < |modules| ==> modules[j].0 == old(modules)[j].0
        invariant forall j :: i <= j < |modules| ==>
          modules[j] == old(modules)[j] && Model.children[j] == m0.children[j]
        invariant forall j :: 0 <= j < i ==>
          Model.children[j] == Entry(m0.children[j].key, RewriteChild(m0.children[j].child))
        invariant forall j :: 0 <= j < i ==>
          (!IsReluNamed(m0.children[j].child.kind) ==> modules[j].1 == old(modules)[j].1) &&
          (IsReluNamed(m0.children[j].child.kind) ==> fresh(modules[j].1))
      {
        RewriteItem(i);
        i := i + 1;
      }
      assert Model.children == ModuleTree.ReplaceRelu(m0).children;
    }

    /** The body of the loop for the `i`-th item `(idx, m)`: the class-name test
        and the replacement or the recursive call. */
    method RewriteItem(i: nat)
      requires Valid() && i < |modules|
      modifies Repr
      ensures Valid() && fresh(Repr - old(Repr))
      ensures kind == old(kind) && |modules| == |old(modules)| && modules[i].0 == old(modules)[i].0
      ensures forall j :: 0 <= j < |modules| && j != i ==> modules[j] == old(modules)[j]
      ensures !IsReluNamed(old(Model).children[i].child.kind) ==> modules[i].1 == old(modules)[i].1
      ensures IsReluNamed(old(Model).children[i].child.kind) ==> fresh(modules[i].1)
      ensures Model == Module(old(Model).kind,
        old(Model).children[i := Entry(old(modules)[i].0, RewriteChild(old(Model).children[i].child))])
      decreases Model.children[i].child, 2
    {
      assert modules[i].1.Valid();
      if ClassName(modules[i].1.kind) == ReluName {
        SwapInGuided(i);
      } else {
        RecurseInto(i);
      }
    }

    /** Stores a fresh guided activation under the key of the `i`-th item. */
    method SwapInGuided(i: nat)
      requires Valid() && i < |modules|
      modifies this
      ensures Valid() && fresh(Repr - old(Repr))
      ensures kind == old(kind)
      ensures |modules| == |old(modules)| && modules[i].0 == old(modules)[i].0 && fresh(modules[i].1)
      ensures forall j :: 0 <= j < |modules| && j != i ==> modules[j] == old(modules)[j]
      ensures Model == Module(old(Model).kind, old(Model).children[i := Entry(old(modules)[i].0, GuidedModule())])
    {
      var key := modules[i].0;
      var g := new ModuleNode.Leaf(Guided);
      modules := modules[i := (key, g)];
      Repr := Repr + g.Repr;
      Model := Module(kind, Model.children[i := Entry(key, g.Model)]);
      forall j | 0 <= j < |modules| && j != i
        ensures modules[j].1.Valid() && modules[j].1.Repr !! g.Repr
      {
      }
    }

    /** The recursive call on the child of the `i`-th item. */
    method RecurseInto(i: nat)
      requires Valid() && i < |modules|
      modifies Repr
      ensures Valid() && fresh(Repr - old(Repr))
      ensures kind == old(kind) && modules == old(modules)
      ensures Model == Module(old(Model).kind,
        old(Model).children[i := Entry(old(modules)[i].0, ModuleTree.ReplaceRelu(old(Model).children[i].child))])
      decreases Model.children[i].child, 1
    {
      var child := modules[i].1;
      label before:
      child.ReplaceRelu();
      Repr := Repr + child.Repr;
      Model := Module(kind, Model.children[i := Entry(modules[i].0, child.Model)]);
      forall j | 0 <= j < |modules| && j != i
        ensures modules[j].1.Repr == old@before(modules[j].1.Repr) && modules[j].1.Valid()
        ensures modules[j].1.Repr !! child.Repr
      {
        assert modules[j].1 in old@before(modules[j].1.Repr);
      }
    }
  }
}
