# pytorch-vis: ReLU substitution and target selection, in Dafny

This project models the two pieces of logic in `vis/algs.py` of pytorch-vis that do not
belong to the deep-learning framework. Vanilla backpropagation, guided backpropagation
and Grad-CAM all build on them.

- **ReLU substitution** (`replace_relu`) walks a network's tree of submodules.
  It replaces every child whose class name is exactly `ReLU` by a fresh
  `GuidedBackProRelu`, under the same key, and recurses into every other child.
  `ModuleTree` states this as a function on tree values (`ModuleTree.ReplaceRelu`).
  `ModuleNodes` holds the in-place version: a class `ModuleNode` whose `modules` field is the
  ordered `_modules` dictionary, as a list of items. Its method `ReplaceRelu` rewrites the
  objects in place and is proved to leave exactly `ModuleTree.ReplaceRelu` of the old tree.
- **Target selection and the scalar objective** (`Objective`). These lines repeat in the
  three `__call__` methods. The flattened network output is a sequence of real scores.
  The target index is the caller's; when the caller gives none, it is the largest score
  value truncated toward zero. A zero mask of the output's length gets a 1 at the index,
  and the objective is the sum of the masked scores. `OneHotMask` builds the mask in an
  array. `ScalarObjective` is proved equal to the specification `ObjectiveOf`, and the
  lemmas show that this is the score at the target index.
- **Visualizers** (`Visualizers`): the three classes. Guided backpropagation's constructor
  runs the in-place ReLU substitution on the wrapped network. The call assertions become
  preconditions: batch size 1 for the guided and Grad-CAM calls, exactly one target layer
  for the Grad-CAM constructor. A call's forward pass is not modelled. Its flattened output
  `out` and the input's batch size are parameters.

Index semantics follow tensor indexing. An index in `[0, n)` selects that element.
An index in `[-n, 0)` counts from the back. Any other index fails (`IndexOutOfRange`).
The maximum of an empty output fails (`EmptyScores`).

With no index given, the code selects the position given by the top score value,
truncated toward zero (`int(torch.max(out))`). But wherever `index` is used, it is a
class position (vis/algs.py:53, 95, 145). The model follows the code as written and
records the discrepancy under Findings.

## Model

| member | source | states |
|---|---|---|
| `ModuleTree.ClassName` | vis/algs.py:16 | the class name is `ReLU` exactly for the `ReLU` class and for another class that is also named `ReLU`; any other class has its own name |
| `ModuleTree.IsReluNamed` | vis/algs.py:16 | the test is an exact string comparison with `ReLU`; it holds for `ReLU` and `Other("ReLU")` only, so never for the guided activation |
| `ModuleTree.ReplaceRelu` | vis/algs.py:8-19 | the rewritten tree keeps the root's class and the root dictionary's keys in order; each entry's child is that child after `RewriteChild` |
| `ModuleTree.RewriteChild` | vis/algs.py:16-19 | a rewritten child is never named `ReLU`; a `ReLU`-named child becomes a guided leaf, and any other child keeps its class |
| `ModuleTree.GuidedModule` | vis/algs.py:17 | the replacement is a guided leaf module whose class name is not `ReLU` |
| `ModuleTree.ReplaceReluOneLevel` | vis/algs.py:15-19 | the root keeps its class; key order is unchanged, and so is whether the keys are distinct; a child is swapped for the guided module exactly when its class name is `ReLU`; every other child keeps its class and is rewritten recursively |
| `ModuleTree.ReplaceReluLeavesNoRelu` | vis/algs.py:15-17 | after the rewrite, no module strictly below the root has class name `ReLU` |
| `ModuleTree.ReplaceReluFixesReluFree` | vis/algs.py:15-19 | a tree with no `ReLU` below its root is left exactly as it is |
| `ModuleTree.ReplaceReluIdempotent` | vis/algs.py:16-17 | a second rewrite changes nothing |
| `ModuleTree.ReplaceReluKeepsRelu` | vis/algs.py:15-16 | a root of class `ReLU` is not replaced, because only the entries of `_modules` are tested |
| `ModuleTree.ReplaceReluKeepsShape` | vis/algs.py:15-19 | if `ReLU` modules below the root have no children, then every dictionary in the tree keeps its keys in order, at every depth |
| `ModuleTree.CountFromAfterReplace` | vis/algs.py:15-19 | over children `k..`: guided modules after the rewrite = guided modules before + `ReLU` modules before |
| `ModuleTree.GuidedCountAfterReplace` | vis/algs.py:15-17 | guided modules after the rewrite = those already present + the `ReLU` modules strictly below the root |
| `ModuleTree.ExactNameMatch` | vis/algs.py:16-19 | matching is by exact class name: a `LeakyReLU` child stays, and a `ReLU` beside it is replaced |
| `ModuleNodes.ModuleNode.Leaf` | vis/algs.py:17 | a fresh module of the given class with an empty `_modules` |
| `ModuleNodes.ModuleNode.ReplaceRelu` | vis/algs.py:8-19 | in place, the tree's value becomes `ModuleTree.ReplaceRelu` of the old value; keys are kept; non-`ReLU` direct children stay the same object; `ReLU` direct children become fresh objects; the object tree stays valid |
| `ModuleNodes.ModuleNode.RewriteItem` | vis/algs.py:16-19 | one loop step on item `i`: the class-name test, then the swap or the recursive call; the other items are unchanged |
| `ModuleNodes.ModuleNode.SwapInGuided` | vis/algs.py:17 | item `i` keeps its key and gets a fresh guided module; nothing else changes |
| `ModuleNodes.ModuleNode.RecurseInto` | vis/algs.py:19 | the child of item `i` is rewritten in place; the items and the other children are unchanged |
| `Objective.MaxScore` | vis/algs.py:48-50 | the maximum is one of the scores, and no score is above it |
| `Objective.Truncate` | vis/algs.py:50 | `int()` truncates toward zero, for both signs |
| `Objective.ResolveIndex` | vis/algs.py:46-50 | a given index is used as it is; with no index, resolution fails exactly when the output is empty |
| `Objective.DefaultIndex` | vis/algs.py:46-50 | with no index given, an empty output fails; otherwise the index is the truncated maximum score value |
| `Objective.Position` | vis/algs.py:53 | an index denotes a position exactly when it lies in `[-n, n)`; a negative index counts from the back; any other index is `IndexOutOfRange` |
| `Objective.OneHot` | vis/algs.py:52-53 | the mask has the output's length, 1 at the target position and 0 everywhere else |
| `Objective.Sum` | vis/algs.py:58-60 | the sum of an all-zero sequence is 0, and that of one element is the element |
| `Objective.Times` | vis/algs.py:60 | the element-wise product of mask and scores |
| `Objective.ObjectiveOf` | vis/algs.py:44-60 | the objective succeeds exactly when the given index, or `int(max(out))` when none is given, lies in `[-n, n)`; on success it is one of the scores |
| `Objective.SumOfZeroMask` | vis/algs.py:60 | an all-zero mask contributes 0 to the sum |
| `Objective.SumOfOneHot` | vis/algs.py:58-60 | the sum of `mask * out` for a one-hot mask at `k` is `out[k]` |
| `Objective.ObjectiveWithIndex` | vis/algs.py:52-60 | with an explicit index, the objective is the score at that index (from the back when negative); an index outside `[-n, n)` fails |
| `Objective.ObjectiveWithoutIndex` | vis/algs.py:46-60 | with no index, the objective is the score at position `int(max(out))`; it exists exactly when that value lies in `[-n, n)`; an empty output fails |
| `Objective.OneHotMask` | vis/algs.py:52-53 | the array loop builds exactly the one-hot mask, or fails with `IndexOutOfRange` |
| `Objective.ScalarObjective` | vis/algs.py:44-60 | the in-place computation equals the specification `ObjectiveOf` |
| `Objective.DefaultIndexMissesTopScore` | vis/algs.py:46-50 | the default target for scores `[2.0, 0.0, 1.0]` is position 2 (score 1.0), not the top score 2.0 |
| `Objective.DefaultIndexOutOfRange` | vis/algs.py:141-145 | for scores `[5.0, 1.0]` the default index is 5, and the mask write fails |
| `Objective.ArgMax` | vis/algs.py:46-50 | the position of the first top score |
| `Objective.IntendedDefaultIndex` | vis/algs.py:46-50 | the intended default: a position in range whose score is the largest |
| `Objective.IntendedObjectiveOf` | vis/algs.py:46-60 | with the corrected default, a call with no index succeeds exactly when the output is non-empty; with an index it agrees with `ObjectiveOf` |
| `Objective.IntendedObjectiveSelectsTopScore` | vis/algs.py:46-60 | with the intended default, a call on a non-empty output always succeeds and selects the top score; with an explicit index it agrees with the code as written |
| `Visualizers.VanillaBackProModel.constructor` | vis/algs.py:27-31 | keeps the network and the device flag |
| `Visualizers.VanillaBackProModel.Call` | vis/algs.py:33-60 | the back-propagated score is `ObjectiveOf(out, index)`; there is no batch-size check |
| `Visualizers.GuidedBackProReLUModel.constructor` | vis/algs.py:70-76 | rewrites the wrapped network in place; afterwards no `ReLU` is left below its root |
| `Visualizers.GuidedBackProReLUModel.Call` | vis/algs.py:78-102 | requires batch size 1; the back-propagated score is `ObjectiveOf(out, index)` |
| `Visualizers.GradCam.constructor` | vis/algs.py:114-124 | requires exactly one target layer, and keeps it |
| `Visualizers.GradCam.Call` | vis/algs.py:126-151 | requires batch size 1; the back-propagated score is `ObjectiveOf(out, index)` |

## Left out

- The forward pass, `Variable`, `zero_grad`, `backward` (including `retain_variables`) and reading `x.grad`. These are the framework's automatic differentiation. A call's output is a parameter, and the call's result is modelled as the scalar that would be back-propagated.
- Conversion of gradients to numpy and removal of the batch dimension (`result[0]`). They are tensor plumbing.
- CUDA placement and `model.eval()`. They are framework state toggles. The CUDA and CPU branches compute the same index and objective, so the device flag is only stored.
- The `Extractor` collaborator and the backward rule of `GuidedBackProRelu`. vis/extractor.py and vis/activations.py are not part of this model. The guided activation is an opaque class tag (`Guided`), and Grad-CAM's extractor call and `get_grads()` are not modelled.
- Grad-CAM's weighting and combination of gradients and activations. The source stops after reading the gradients.
- Floating point. Scores are real numbers, so NaN, infinities and rounding are not modelled. Neither is `int()` failing on NaN.
- Indices that are not integers (booleans, tensors, slices). The target index is `Option<int>`.
- Shared submodules. `ModuleNode.Valid()` requires the object graph below a module to be a tree, so a module reachable along two paths in the network is not covered.
- Building a network (`add_module`, attribute assignment). It is the framework's. The model takes an already valid tree; `ModuleNode.Leaf` is only the guided activation's constructor.
- ModuleTree.ReplaceReluKeepsShape: stated only for trees whose `ReLU` modules below the root have no children. The code drops the children of a replaced module, so the shape is then not kept. A `ReLU` root is never replaced and may have children.
- ModuleTree.GuidedCountAfterReplace: stated only for trees whose `ReLU` modules below the root have no children. Guided modules below a replaced `ReLU` are dropped with it.
- ModuleTree.CountFromAfterReplace: the same restriction as `GuidedCountAfterReplace`, for the count over children `k..`.
- `None` entries in `_modules`. The framework allows registering a child as `None`. The class-name test then reads `NoneType`, and the recursive call fails with an `AttributeError`. `ModuleTree.Entry` and `ModuleNode.modules` always hold a module, so this error path is not modelled.
- The guided activation's own structure. vis/activations.py is not part of this model. `ModuleTree.GuidedModule` and `ModuleNode.Leaf(Guided)` assume that `GuidedBackProRelu()` is a module with an empty `_modules` whose class name is not `ReLU`. `ReplaceReluIdempotent` and `GuidedCountAfterReplace` rely on this.
- Dictionary key uniqueness is not part of `ModuleNode.Valid()`. The walk never changes keys (`ModuleTree.ReplaceReluOneLevel` states that distinctness is kept).

## Findings

| source | as written | input that shows it | evidently intended | confidence | as-written member | corrected member |
|---|---|---|---|---|---|---|
| vis/algs.py:46-50 | with no index, the target is `int(torch.max(out))`, the top score value truncated toward zero (also lines 88-92 and 141-142) | scores `[2.0, 0.0, 1.0]` select position 2 (score 1.0); scores `[5.0, 1.0]` give index 5, out of range for 2 elements | the position of the top score (arg-max). `index` is used as a class position (lines 53, 95, 145), and `torch.max(out)` without a dimension gives the top score's value, not its position. So as written, the selected class depends on the scale of the scores, and `[5.0, 1.0]` crashes | high; not executed | `Objective.DefaultIndexMissesTopScore` | `Objective.IntendedObjectiveOf`, `Objective.IntendedObjectiveSelectsTopScore` |

The visualizer calls model the code as written (`ObjectiveOf`). The corrected default is
`IntendedDefaultIndex`, and `IntendedObjectiveOf` is the objective that uses it.
