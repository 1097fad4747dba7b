/** The network as the analysis sees it: a read-only oracle of component capabilities
    (`Component::Properties()`, `InputDim()`, `OutputDim()`) and node kinds. */
module NnetOracle {

  /** The capability flags of `Component::Properties()` that the analysis tests. The source keeps
      them as bits of an int32; a set of flags holds the same information. */
  datatype ComponentProperty =
    | SimpleComponent | UpdatableComponent
    | PropagateInPlace | PropagateAdds
    | BackpropAdds | BackpropInPlace | BackpropNeedsInput | BackpropNeedsOutput
    | StoresStats

  datatype Component = Component(properties: set<ComponentProperty>, inputDim: int, outputDim: int)

  datatype Nnet = Nnet(components: seq<Component>, numNodes: int, inputNodes: set<int>, outputNodes: set<int>) {
    function NumComponents(): int { |components| }
    function NumNodes(): int { numNodes }
    predicate IsInputNode(node: int) { node in inputNodes }
    predicate IsOutputNode(node: int) { node in outputNodes }
  }
}
