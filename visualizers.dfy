/** The three visualizers. Each call runs the wrapped network forward, selects
    a target score and back-propagates it. The network's flattened output `out`
    and the input's batch size `batch` are parameters of a call here; the
    forward and backward passes themselves belong to the framework. */
module Visualizers {
  import opened Wrappers
  import opened ModuleTree
  import ModuleNodes
  import opened Objective

  /** Vanilla backpropagation: the gradient of the target score at the input. */
  class VanillaBackProModel {
    const model: ModuleNodes.ModuleNode
    const cuda: bool

    constructor (model: ModuleNodes.ModuleNode, useCuda: bool)
      ensures this.model == model && cuda == useCuda
    {
      this.model := model;
      cuda := useCuda;
    }

    /** `__call__(x, index)`: the score that is back-propagated. No batch-size check. */
    method Call(out: seq<real>, index: Option<int>) returns (r: Result<real, Error>)
      ensures r == ObjectiveOf(out, index)
    {
      r := ScalarObjective(out, index);
    }
  }

  /** Guided backpropagation: the wrapped network has every `ReLU` below its root
      replaced by the guided activation when the visualizer is built. */
  class GuidedBackProReLUModel {
    const model: ModuleNodes.ModuleNode
    const cuda: bool

    constructor (model: ModuleNodes.ModuleNode, useCuda: bool)
      requires model.Valid()
      modifies model.Repr
      ensures this.model == model && cuda == useCuda
      ensures model.Valid() && fresh(model.Repr - old(model.Repr))
      ensures model.Model == ReplaceRelu(old(model.Model))
      ensures ReluFreeBelow(model.Model)
    {
      this.model := model;
      cuda := useCuda;
      new;
      model.ReplaceRelu();
      ReplaceReluLeavesNoRelu(old(model.Model));
    }

    /** `__call__(x, index)`, which first asserts that the batch holds one input. */
    method Call(batch: nat, out: seq<real>, index: Option<int>) returns (r: Result<real, Error>)
      requires batch == 1
      ensures r == ObjectiveOf(out, index)
    {
      r := ScalarObjective(out, index);
    }
  }

  /** Grad-CAM: the class activation map of one designated layer. */
  class GradCam {
    const model: ModuleNodes.ModuleNode
    const targetLayers: seq<string>
    const cuda: bool

    /** `__init__` asserts that exactly one target layer is named. */
    constructor (model: ModuleNodes.ModuleNode, targetLayers: seq<string>, useCuda: bool)
      requires |targetLayers| == 1
      ensures this.model == model && this.targetLayers == targetLayers && cuda == useCuda
    {
      this.model := model;
      this.targetLayers := targetLayers;
      cuda := useCuda;
    }

    /** `__call__(x, index)`, which first asserts that the batch holds one input. */
    method Call(batch: nat, out: seq<real>, index: Option<int>) returns (r: Result<real, Error>)
      requires batch == 1
      ensures r == ObjectiveOf(out, index)
    {
      r := ScalarObjective(out, index);
    }
  }
}
