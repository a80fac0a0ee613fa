/**
  The structural and thermal asset components: the helpers of `BasePhysicalAssetComponent<T>`
  that build lists, fill an asset-data object or write into a property set element, and the
  `TrySolveInstance` of the Create, Modify and Analyze components built on them.
 */
module AssetComponents {

  import opened Wrappers
  import opened PhysicalAssets

  type ElementId = nat

  /**
    A `PropertySetElement`: the built-in parameters it has, with their values, and the
    `SetParameterValue` calls made on it, in order.
   */
  class PropertySetElement {
    const id: ElementId
    var parameters: map<ParamId, Value>
    var writes: seq<Write>

    constructor (id: ElementId, parameters: map<ParamId, Value>)
      ensures this.id == id && this.parameters == parameters && writes == []
    {
      this.id := id;
      this.parameters := parameters;
      writes := [];
    }

    /** Stores the value in the parameter when the element has it. */
    method SetParameterValue(paramId: ParamId, value: Value)
      modifies this
      ensures writes == old(writes) + [Write(paramId, value)]
      ensures parameters == ApplyWrites(old(parameters), [Write(paramId, value)])
    {
      writes := writes + [Write(paramId, value)];
      if paramId in parameters {
        parameters := parameters[paramId := value];
      }
    }
  }

  /** A `PhysicalMaterialData` object: the values set on its properties and the names marked as set. */
  class AssetData {
    var values: map<string, Value>
    var marked: set<string>

    /** A property is only ever marked right after its value is set. */
    ghost predicate Valid()
      reads this
    {
      marked <= values.Keys
    }

    constructor ()
      ensures Valid() && values == map[] && marked == {}
    {
      values := map[];
      marked := {};
    }

    /** Sets the property's value and marks it, as `SetValue` followed by `Mark` do. */
    method SetAndMark(name: string, value: Value)
      requires Valid()
      modifies this
      ensures Valid()
      ensures values == old(values)[name := value] && marked == old(marked) + {name}
    {
      values := values[name := value];
      marked := marked + {name};
    }
  }

  /** `GetAssetDataAsInputs`: a definition per property with a parameter, modifiable ones only if asked. */
  method GetAssetDataAsInputs(properties: seq<AssetProperty>, skipUnchangable: bool) returns (inputs: seq<ParamDefinition>)
    ensures inputs == InputDefinitions(properties, skipUnchangable)
  {
    inputs := [];
    for i := 0 to |properties|
      invariant inputs == InputDefinitions(properties[..i], skipUnchangable)
    {
      assert properties[..i + 1][..i] == properties[..i];
      var paramInfo := properties[i].paramInfo;
      if paramInfo.None? {
        continue;
      }
      if skipUnchangable && !paramInfo.value.modifiable {
        continue;
      }
      inputs := inputs + [ParamDefinition(paramInfo.value.name, paramInfo.value.optional)];
    }
    assert properties[..|properties|] == properties;
  }

  /** `GetAssetDataAsOutputs`: a definition per property with a parameter. */
  method GetAssetDataAsOutputs(properties: seq<AssetProperty>) returns (outputs: seq<ParamDefinition>)
    ensures outputs == OutputDefinitions(properties)
  {
    outputs := [];
    for i := 0 to |properties|
      invariant outputs == OutputDefinitions(properties[..i])
    {
      assert properties[..i + 1][..i] == properties[..i];
      var paramInfo := properties[i].paramInfo;
      if paramInfo.None? {
        continue;
      }
      outputs := outputs + [ParamDefinition(paramInfo.value.name, false)];
    }
    assert properties[..|properties|] == properties;
  }

  /** The optional "Document" input the Create components put first. */
  const DocumentInput := ParamDefinition("Document", true)

  /** The Create components' inputs: the document, then one per property with a parameter. */
  method CreateInputs(properties: seq<AssetProperty>) returns (inputs: seq<ParamDefinition>)
    ensures inputs == [DocumentInput] + InputDefinitions(properties, false)
  {
    var assetInputs := GetAssetDataAsInputs(properties, false);
    inputs := [DocumentInput] + assetInputs;
  }

  /**
    The Modify components' inputs: the asset itself, then the modifiable properties except
    the name and the class.
   */
  method ModifyInputs(properties: seq<AssetProperty>, asset: ParamDefinition) returns (inputs: seq<ParamDefinition>)
    ensures inputs == [asset] + ModifyDefinitions(InputDefinitions(properties, true))
  {
    var candidates := GetAssetDataAsInputs(properties, true);
    inputs := [asset];
    for i := 0 to |candidates|
      invariant inputs == [asset] + ModifyDefinitions(candidates[..i])
    {
      assert candidates[..i + 1][..i] == candidates[..i];
      if candidates[i].name != "Name" && candidates[i].name != "Type" {
        inputs := inputs + [candidates[i]];
      }
    }
    assert candidates[..|candidates|] == candidates;
  }

  /**
    `MatchesPhysicalAssetType` as the source runs it: the nested loops return false at the
    first exclusive built-in parameter the element lacks.
   */
  method CheckPhysicalAssetType(properties: seq<AssetProperty>, pset: PropertySetElement) returns (matches: bool)
    ensures matches == MatchesPhysicalAssetType(properties, pset.parameters.Keys)
  {
    for i := 0 to |properties|
      invariant MatchesPhysicalAssetType(properties[..i], pset.parameters.Keys)
    {
      var builtIns := properties[i].builtIns;
      for j := 0 to |builtIns|
        invariant forall k :: 0 <= k < j && builtIns[k].exclusive ==> builtIns[k].paramId in pset.parameters
      {
        if builtIns[j].exclusive && builtIns[j].paramId !in pset.parameters {
          return false;
        }
      }
      assert properties[..i + 1][i] == properties[i];
    }
    assert properties[..|properties|] == properties;
    return true;
  }

  /** One pass of `CreateAssetDataFromInputs`' loop. */
  method AssignInput(output: AssetData, p: AssetProperty, inputNames: seq<string>, inputs: map<string, Value>)
    returns (warning: Option<Warning>)
    requires output.Valid()
    modifies output
    ensures output.Valid()
    ensures Supplied(p, inputNames, inputs) ==>
      output.values == old(output.values)[p.name := InputValue(p, inputs).value]
      && output.marked == old(output.marked) + {p.name} && warning == InputValue(p, inputs).warning
    ensures !Supplied(p, inputNames, inputs) ==>
      output.values == old(output.values) && output.marked == old(output.marked) && warning == None
  {
    warning := None;
    if p.paramInfo.None? {
      return;
    }
    var name := p.paramInfo.value.name;
    if name !in inputNames {
      return;
    }
    if name in inputs {
      var inputValue := inputs[name];
      if p.range.Some? {
        var checked := VerifyInputValue(name, inputValue, p.range.value);
        inputValue := checked.value;
        warning := checked.warning;
      }
      output.SetAndMark(p.name, inputValue);
    }
  }

  /**
    `CreateAssetDataFromInputs`: a new asset-data object holding, for each supplied property,
    its input checked against its range; `inputNames` are the component's input parameters
    and `inputs` the data the inputs received.
   */
  method CreateAssetDataFromInputs(properties: seq<AssetProperty>, inputNames: seq<string>, inputs: map<string, Value>)
    returns (output: AssetData, warnings: seq<Warning>)
    ensures fresh(output) && output.Valid()
    ensures output.marked == MarkedNames(properties, inputNames, inputs)
    ensures output.values == AssignedValues(properties, inputNames, inputs)
    ensures warnings == InputWarnings(properties, inputNames, inputs)
  {
    output := new AssetData();
    warnings := [];
    for i := 0 to |properties|
      invariant fresh(output) && output.Valid()
      invariant output.marked == MarkedNames(properties[..i], inputNames, inputs)
      invariant output.values == AssignedValues(properties[..i], inputNames, inputs)
      invariant warnings == InputWarnings(properties[..i], inputNames, inputs)
    {
      assert properties[..i + 1][..i] == properties[..i] && properties[..i + 1][i] == properties[i];
      var warning := AssignInput(output, properties[i], inputNames, inputs);
      if warning.Some? {
        warnings := warnings + [warning.value];
      }
    }
    assert properties[..|properties|] == properties;
  }

  /** The inner loop of `UpdatePropertySetElementFromData`: one value to every built-in parameter. */
  method WriteProperty(pset: PropertySetElement, builtIns: seq<BuiltInInfo>, value: Value)
    modifies pset
    ensures pset.writes == old(pset.writes) + PropertyWrites(builtIns, value)
    ensures pset.parameters == ApplyWrites(old(pset.parameters), PropertyWrites(builtIns, value))
  {
    for j := 0 to |builtIns|
      invariant pset.writes == old(pset.writes) + PropertyWrites(builtIns[..j], value)
      invariant pset.parameters == ApplyWrites(old(pset.parameters), PropertyWrites(builtIns[..j], value))
    {
      assert builtIns[..j + 1][..j] == builtIns[..j] && builtIns[..j + 1][j] == builtIns[j];
      pset.SetParameterValue(builtIns[j].paramId, value);
    }
    assert builtIns[..|builtIns|] == builtIns;
  }

  /**
    `UpdatePropertySetElementFromData`: write each marked property other than "Name" to all of
    its built-in parameters; the element gains no parameter.
   */
  method UpdatePropertySetElementFromData(properties: seq<AssetProperty>, pset: PropertySetElement, assetData: AssetData)
    requires assetData.Valid()
    modifies pset
    ensures pset.writes == old(pset.writes) + UpdateWrites(properties, assetData.marked, assetData.values)
    ensures pset.parameters == ApplyWrites(old(pset.parameters), UpdateWrites(properties, assetData.marked, assetData.values))
  {
    for i := 0 to |properties|
      invariant pset.writes == old(pset.writes) + UpdateWrites(properties[..i], assetData.marked, assetData.values)
      invariant pset.parameters == ApplyWrites(old(pset.parameters), UpdateWrites(properties[..i], assetData.marked, assetData.values))
    {
      assert properties[..i + 1][..i] == properties[..i] && properties[..i + 1][i] == properties[i];
      var p := properties[i];
      ghost var before := UpdateWrites(properties[..i], assetData.marked, assetData.values);
      if !IsWritten(p, assetData.marked) {
        assert before + [] == before;
        assert UpdateWrites(properties[..i + 1], assetData.marked, assetData.values) == before;
      }
      if p.name == "Name" {
        continue;
      }
      if p.name in assetData.marked {
        ApplyWritesAppend(old(pset.parameters), UpdateWrites(properties[..i], assetData.marked, assetData.values),
          PropertyWrites(p.builtIns, assetData.values[p.name]));
        WriteProperty(pset, p.builtIns, assetData.values[p.name]);
        assert UpdateWrites(properties[..i + 1], assetData.marked, assetData.values)
          == before + PropertyWrites(p.builtIns, assetData.values[p.name]);
      }
    }
    assert properties[..|properties|] == properties;
  }

  /** The inner loop of `SetOutputsFromPropertySetElement`: stop at the first parameter the element has. */
  method FirstParameter(builtIns: seq<BuiltInInfo>, pset: PropertySetElement) returns (found: Option<Value>)
    ensures found == FirstPresent(builtIns, pset.parameters)
  {
    found := None;
    var j := 0;
    while j < |builtIns|
      invariant 0 <= j <= |builtIns|
      invariant FirstPresent(builtIns, pset.parameters) == FirstPresent(builtIns[j..], pset.parameters)
    {
      assert builtIns[j..][0] == builtIns[j] && builtIns[j..][1..] == builtIns[j + 1..];
      if builtIns[j].paramId in pset.parameters {
        found := Some(pset.parameters[builtIns[j].paramId]);
        break;
      }
      j := j + 1;
    }
  }

  /** One `DA.SetData(name, value)` call on an output. */
  datatype OutputData = OutputData(name: string, value: Value)

  /** What a read of the element sets: each property with a parameter and a present built-in, in order. */
  function ReadOutputs(properties: seq<AssetProperty>, parameters: map<ParamId, Value>): seq<OutputData>
  {
    if properties == [] then []
    else
      var out := OutputOf(properties[|properties| - 1], parameters);
      ReadOutputs(properties[..|properties| - 1], parameters) + (if out.Some? then [out.value] else [])
  }

  /** The output one property sets: the first of its built-in parameters the element has, if it has a parameter at all. */
  function OutputOf(p: AssetProperty, parameters: map<ParamId, Value>): Option<OutputData>
  {
    var first := FirstPresent(p.builtIns, parameters);
    if p.paramInfo.Some? && first.Some? then Some(OutputData(p.paramInfo.value.name, first.value)) else None
  }

  /**
    `SetOutputsFromPropertySetElement`: nothing for a missing element; otherwise each output
    takes the value of the first of its built-in parameters that the element has.
   */
  method SetOutputsFromPropertySetElement(properties: seq<AssetProperty>, pset: PropertySetElement?) returns (outputs: seq<OutputData>)
    ensures pset == null ==> outputs == []
    ensures pset != null ==> outputs == ReadOutputs(properties, pset.parameters)
  {
    outputs := [];
    if pset == null {
      return;
    }
    for i := 0 to |properties|
      invariant outputs == ReadOutputs(properties[..i], pset.parameters)
    {
      assert properties[..i + 1][..i] == properties[..i] && properties[..i + 1][i] == properties[i];
      var paramInfo := properties[i].paramInfo;
      if paramInfo.None? {
        continue;
      }
      var found := FirstParameter(properties[i].builtIns, pset);
      if found.Some? {
        outputs := outputs + [OutputData(paramInfo.value.name, found.value)];
      }
    }
    assert properties[..|properties|] == properties;
  }

  /** The two asset types the components create. */
  datatype AssetKind = StructuralAsset | ThermalAsset

  /**
    The "Type" input: the value of `StructuralAssetClass` for a structural asset, of
    `ThermalMaterialType` for a thermal one.
   */
  type AssetClass = int

  /** `StructuralBehavior`. */
  datatype Behaviour = Isotropic | Orthotropic | TransverseIsotropic

  /** The document changes a Create component asks Revit for, in order. */
  datatype DocumentEffect =
    | StartTransaction
    | Delete(id: ElementId)
    | CreatePropertySet(kind: AssetKind, name: string, assetClass: AssetClass, behaviour: Option<Behaviour>)

  /**
    The behaviour the new asset is given: a structural asset takes the "Behaviour" input, or
    isotropic when there is none; a thermal asset reads the input but does not apply it.
   */
  function AppliedBehaviour(kind: AssetKind, behaviourInput: Option<Behaviour>): Option<Behaviour>
  {
    match kind
    case StructuralAsset => Some(if behaviourInput.Some? then behaviourInput.value else Isotropic)
    case ThermalAsset => None
  }

  /**
    The effects of a Create that passes its guard: start the transaction, delete the
    same-named element if there is one, then create the new one from the name and the
    "Type" value.
   */
  function CreateEffects(kind: AssetKind, name: string, assetClass: AssetClass, existing: Option<ElementId>, behaviourInput: Option<Behaviour>): seq<DocumentEffect>
  {
    [StartTransaction] + (if existing.Some? then [Delete(existing.value)] else []) + [CreatePropertySet(kind, name, assetClass, AppliedBehaviour(kind, behaviourInput))]
  }

  /**
    The Create components' `TrySolveInstance`. `existing` is the property set element the
    document already has under `name`, and the new element Revit creates has id `newId` and
    the parameters `newParameters`. A name taken by an element of another asset type is an
    error, and then nothing is started, deleted or created.
   */
  method TrySolveCreate(kind: AssetKind, properties: seq<AssetProperty>, documentGiven: bool, name: Option<string>, assetClass: Option<AssetClass>,
                        behaviourInput: Option<Behaviour>, existing: PropertySetElement?, newId: ElementId, newParameters: map<ParamId, Value>,
                        inputNames: seq<string>, inputs: map<string, Value>)
    returns (nameConflict: bool, effects: seq<DocumentEffect>, created: PropertySetElement?, warnings: seq<Warning>)
    ensures !documentGiven || name.None? || assetClass.None? ==> !nameConflict && effects == [] && created == null && warnings == []
    ensures nameConflict <==> documentGiven && name.Some? && assetClass.Some?
                              && existing != null && !MatchesPhysicalAssetType(properties, existing.parameters.Keys)
    ensures nameConflict ==> effects == [] && created == null && warnings == []
    ensures documentGiven && name.Some? && assetClass.Some? && !nameConflict ==>
      effects == CreateEffects(kind, name.value, assetClass.value, if existing == null then None else Some(existing.id), behaviourInput)
      && created != null && fresh(created) && created.id == newId
      && created.writes == UpdateWrites(properties, MarkedNames(properties, inputNames, inputs), AssignedValues(properties, inputNames, inputs))
      && created.parameters == ApplyWrites(newParameters, created.writes)
      && warnings == InputWarnings(properties, inputNames, inputs)
  {
    nameConflict, effects, created, warnings := false, [], null, [];
    if !documentGiven || name.None? || assetClass.None? {
      return;
    }
    if existing != null {
      var matches := CheckPhysicalAssetType(properties, existing);
      if !matches {
        nameConflict := true;
        return;
      }
    }
    effects := [StartTransaction];
    if existing != null {
      effects := effects + [Delete(existing.id)];
    }
    effects := effects + [CreatePropertySet(kind, name.value, assetClass.value, AppliedBehaviour(kind, behaviourInput))];
    created := new PropertySetElement(newId, newParameters);
    var assetData;
    assetData, warnings := CreateAssetDataFromInputs(properties, inputNames, inputs);
    UpdatePropertySetElementFromData(properties, created, assetData);
  }

  /**
    The Modify components' `TrySolveInstance`: with an asset given, start a transaction and
    write the supplied inputs into the asset in place; without one, do nothing.
   */
  method TrySolveModify(properties: seq<AssetProperty>, asset: PropertySetElement?, inputNames: seq<string>, inputs: map<string, Value>)
    returns (started: bool, warnings: seq<Warning>)
    modifies asset
    ensures started <==> asset != null
    ensures asset == null ==> warnings == []
    ensures asset != null ==>
      asset.writes == old(asset.writes) + UpdateWrites(properties, MarkedNames(properties, inputNames, inputs), AssignedValues(properties, inputNames, inputs))
      && asset.parameters == ApplyWrites(old(asset.parameters), UpdateWrites(properties, MarkedNames(properties, inputNames, inputs), AssignedValues(properties, inputNames, inputs)))
      && warnings == InputWarnings(properties, inputNames, inputs)
  {
    started, warnings := false, [];
    if asset == null {
      return;
    }
    started := true;
    var assetData;
    assetData, warnings := CreateAssetDataFromInputs(properties, inputNames, inputs);
    UpdatePropertySetElementFromData(properties, asset, assetData);
  }

  /** The Analyze components' `TrySolveInstance`: read every output from the given asset, if any. */
  method TrySolveAnalyze(properties: seq<AssetProperty>, asset: PropertySetElement?) returns (outputs: seq<OutputData>)
    ensures asset == null ==> outputs == []
    ensures asset != null ==> outputs == ReadOutputs(properties, asset.parameters)
  {
    outputs := SetOutputsFromPropertySetElement(properties, asset);
  }

  /** Every property with a parameter and a present built-in parameter shows up among the outputs. */
  lemma {:induction false} ReadOutputsHas(properties: seq<AssetProperty>, parameters: map<ParamId, Value>, i: nat)
    requires i < |properties| && properties[i].paramInfo.Some? && FirstPresent(properties[i].builtIns, parameters).Some?
    ensures OutputData(properties[i].paramInfo.value.name, FirstPresent(properties[i].builtIns, parameters).value) in ReadOutputs(properties, parameters)
  {
    var init := properties[..|properties| - 1];
    if i < |properties| - 1 {
      assert init[i] == properties[i];
      ReadOutputsHas(init, parameters, i);
    }
  }

  /**
    An output is set exactly for a property with a parameter whose built-in parameters the
    element has, and it holds the first of them; a property whose value is absent is left unset.
   */
  lemma {:induction false} ReadOutputsIff(properties: seq<AssetProperty>, parameters: map<ParamId, Value>, o: OutputData)
    ensures o in ReadOutputs(properties, parameters) <==> exists i :: 0 <= i < |properties| && OutputOf(properties[i], parameters) == Some(o)
  {
    if properties != [] {
      var init := properties[..|properties| - 1];
      ReadOutputsIff(init, parameters, o);
      assert forall i :: 0 <= i < |init| ==> init[i] == properties[i];
    }
  }

  /**
    Modify then Analyze: a supplied property other than "Name", whose built-in parameters no
    other supplied property shares, reads back as its input, clamped into its range, from an
    element that has one of those parameters.
   */
  lemma ModifyThenAnalyze(properties: seq<AssetProperty>, inputNames: seq<string>, inputs: map<string, Value>, parameters: map<ParamId, Value>, i: nat)
    requires DistinctNames(properties) && i < |properties| && Supplied(properties[i], inputNames, inputs) && properties[i].name != "Name"
    requires forall k, j :: 0 <= k < |properties| && k != i && Supplied(properties[k], inputNames, inputs) && 0 <= j < |properties[i].builtIns|
               ==> !MapsTo(properties[k], properties[i].builtIns[j].paramId)
    requires FirstPresent(properties[i].builtIns, parameters).Some?
    ensures OutputData(properties[i].paramInfo.value.name, InputValue(properties[i], inputs).value)
      in ReadOutputs(properties, ApplyWrites(parameters, UpdateWrites(properties, MarkedNames(properties, inputNames, inputs), AssignedValues(properties, inputNames, inputs))))
  {
    var marked := MarkedNames(properties, inputNames, inputs);
    var values := AssignedValues(properties, inputNames, inputs);
    MarkedNamesIff(properties, inputNames, inputs, properties[i].name);
    forall k | 0 <= k < |properties| && k != i && IsWritten(properties[k], marked)
      ensures Supplied(properties[k], inputNames, inputs)
    {
      MarkedNamesIff(properties, inputNames, inputs, properties[k].name);
    }
    ReadBackAfterUpdate(properties, marked, values, parameters, i);
    AssignedValueOf(properties, inputNames, inputs, i);
    var updated := ApplyWrites(parameters, UpdateWrites(properties, marked, values));
    ReadOutputsHas(properties, updated, i);
  }
}
