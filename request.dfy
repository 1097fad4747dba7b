/** `ComputationRequest`: what a caller asks a compiled computation for, and the three queries
    over it (src/nnet3/nnet-computation.cc). */
module Request {
  import opened Outcomes

  /** One requested input or output. The index list of the source is not consulted by any
      operation modelled here and is left out. */
  datatype IoSpecification = IoSpecification(name: string, hasDeriv: bool)

  datatype ComputationRequest = ComputationRequest(
    inputs: seq<IoSpecification>,
    outputs: seq<IoSpecification>,
    needModelDerivative: bool)

  const DuplicateNameMessage := "Two inputs with the same name"
  const NoOutputDerivativeMessage :=
    "You requested model derivatives or input derivatives, but provide no derivatives at the output."

  predicate HasDuplicateName(specs: seq<IoSpecification>, name: string) {
    exists i, j :: 0 <= i < j < |specs| && specs[i].name == name && specs[j].name == name
  }

  /** The scan shared by `IndexForInput` and `IndexForOutput`: the position of the one entry
      called `name`, -1 when there is none, and the assertion failure when there are two. */
  method IndexForName(specs: seq<IoSpecification>, name: string) returns (r: Result<int>)
    ensures r.Err? <==> HasDuplicateName(specs, name)
    ensures r.Err? ==> r.message == DuplicateNameMessage
    ensures r.Ok? && r.value == -1 ==> forall i :: 0 <= i < |specs| ==> specs[i].name != name
    ensures r.Ok? && r.value != -1 ==>
              0 <= r.value < |specs| && specs[r.value].name == name &&
              forall i :: 0 <= i < |specs| && specs[i].name == name ==> i == r.value
  {
    var ans := -1;
    for i := 0 to |specs|
      invariant !HasDuplicateName(specs[..i], name)
      invariant ans == -1 ==> forall k :: 0 <= k < i ==> specs[k].name != name
      invariant ans != -1 ==>
                  0 <= ans < i && specs[ans].name == name &&
                  forall k :: 0 <= k < i && specs[k].name == name ==> k == ans
    {
      if specs[i].name == name {
        if ans != -1 {
          assert specs[..i + 1][ans] == specs[ans] && specs[..i + 1][i] == specs[i];
          assert HasDuplicateName(specs[..i + 1], name);
          DuplicateInPrefix(specs, name, i + 1);
          return Err(DuplicateNameMessage);
        }
        ans := i;
      }
      assert forall a, b :: 0 <= a < b < i + 1 ==> specs[..i + 1][a] == specs[a] && specs[..i + 1][b] == specs[b];
    }
    assert specs[..|specs|] == specs;
    return Ok(ans);
  }

  lemma DuplicateInPrefix(specs: seq<IoSpecification>, name: string, n: nat)
    requires n <= |specs| && HasDuplicateName(specs[..n], name)
    ensures HasDuplicateName(specs, name)
  {
    var i, j :| 0 <= i < j < n && specs[..n][i].name == name && specs[..n][j].name == name;
    assert specs[i] == specs[..n][i] && specs[j] == specs[..n][j];
  }

  /** The position of the input called `name`, or -1. */
  method IndexForInput(request: ComputationRequest, name: string) returns (r: Result<int>)
    ensures r.Err? <==> HasDuplicateName(request.inputs, name)
    ensures r.Err? ==> r.message == DuplicateNameMessage
    ensures r.Ok? && r.value == -1 ==> forall i :: 0 <= i < |request.inputs| ==> request.inputs[i].name != name
    ensures r.Ok? && r.value != -1 ==>
              0 <= r.value < |request.inputs| && request.inputs[r.value].name == name &&
              forall i :: 0 <= i < |request.inputs| && request.inputs[i].name == name ==> i == r.value
  {
    r := IndexForName(request.inputs, name);
  }

  /** The position of the output called `name`, or -1. The failure message speaks of inputs,
      as in the source. */
  method IndexForOutput(request: ComputationRequest, name: string) returns (r: Result<int>)
    ensures r.Err? <==> HasDuplicateName(request.outputs, name)
    ensures r.Err? ==> r.message == DuplicateNameMessage
    ensures r.Ok? && r.value == -1 ==> forall i :: 0 <= i < |request.outputs| ==> request.outputs[i].name != name
    ensures r.Ok? && r.value != -1 ==>
              0 <= r.value < |request.outputs| && request.outputs[r.value].name == name &&
              forall i :: 0 <= i < |request.outputs| && request.outputs[i].name == name ==> i == r.value
  {
    r := IndexForName(request.outputs, name);
  }

  /** Some derivative is asked for: of the model, or of at least one input. */
  predicate DerivativesRequested(request: ComputationRequest) {
    request.needModelDerivative || exists i :: 0 <= i < |request.inputs| && request.inputs[i].hasDeriv
  }

  /** At least one output supplies a derivative to start backpropagation from. */
  predicate OutputDerivativeSupplied(request: ComputationRequest) {
    exists i :: 0 <= i < |request.outputs| && request.outputs[i].hasDeriv
  }

  /** The two scans of `NeedDerivatives`: whether a derivative is requested, and the error when
      one is requested but no output supplies a derivative. */
  method ScanDerivatives(request: ComputationRequest) returns (r: Result<bool>)
    ensures r.Err? <==> DerivativesRequested(request) && !OutputDerivativeSupplied(request)
    ensures r.Err? ==> r.message == NoOutputDerivativeMessage
    ensures r.Ok? ==> r.value == DerivativesRequested(request)
  {
    var ans := false;
    if request.needModelDerivative {
      ans := true;
    }
    var i := 0;
    while i < |request.inputs|
      invariant 0 <= i <= |request.inputs|
      invariant ans == (request.needModelDerivative || exists k :: 0 <= k < i && request.inputs[k].hasDeriv)
    {
      if request.inputs[i].hasDeriv {
        ans := true;
        break;
      }
      i := i + 1;
    }
    if ans {
      var j := 0;
      while j < |request.outputs|
        invariant 0 <= j <= |request.outputs|
        invariant forall k :: 0 <= k < j ==> !request.outputs[k].hasDeriv
      {
        if request.outputs[j].hasDeriv {
          break;
        }
        j := j + 1;
      }
      if j == |request.outputs| {
        return Err(NoOutputDerivativeMessage);
      }
    }
    return Ok(ans);
  }

  /** `NeedDerivatives` as evidently intended: true exactly when a derivative is requested. */
  method NeedDerivatives(request: ComputationRequest) returns (r: Result<bool>)
    ensures r.Err? <==> DerivativesRequested(request) && !OutputDerivativeSupplied(request)
    ensures r.Err? ==> r.message == NoOutputDerivativeMessage
    ensures r.Ok? ==> r.value == DerivativesRequested(request)
  {
    r := ScanDerivatives(request);
  }

  /** `NeedDerivatives` as written: the scans run and can fail, but the answer is always false. */
  method NeedDerivativesAsWritten(request: ComputationRequest) returns (r: Result<bool>)
    ensures r.Err? <==> DerivativesRequested(request) && !OutputDerivativeSupplied(request)
    ensures r.Err? ==> r.message == NoOutputDerivativeMessage
    ensures r.Ok? ==> r.value == false
  {
    var scanned := ScanDerivatives(request);
    if scanned.Err? {
      return scanned;
    }
    return Ok(false);
  }

  /** Whenever a derivative is requested and an output supplies one, the intended answer is
      true while the code as written answers false. */
  method NeedDerivativesAsWrittenDiffers(request: ComputationRequest)
    returns (asWritten: Result<bool>, intended: Result<bool>)
    requires DerivativesRequested(request) && OutputDerivativeSupplied(request)
    ensures asWritten == Ok(false) && intended == Ok(true)
  {
    asWritten := NeedDerivativesAsWritten(request);
    intended := NeedDerivatives(request);
  }

  /** Such requests exist: one asking for the model derivative, with a derivative supplied at
      the output, makes the two answers differ. */
  method NeedDerivativesDifferOnModelDerivative() returns (asWritten: Result<bool>, intended: Result<bool>)
    ensures asWritten == Ok(false) && intended == Ok(true)
  {
    var request := ComputationRequest([IoSpecification("input", false)],
                                      [IoSpecification("output", true)], true);
    assert request.outputs[0].hasDeriv;
    asWritten, intended := NeedDerivativesAsWrittenDiffers(request);
  }
}
