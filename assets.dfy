/**
  The physical-asset descriptions behind the structural and thermal asset components: each
  asset property of a `PhysicalMaterialData` type, with the attributes reflection finds on it,
  is a record here, and the helpers of `BasePhysicalAssetComponent<T>` that only compute a
  value are functions over those records.
 */
module PhysicalAssets {

  import opened Wrappers

  /** A Revit `BuiltInParameter`. */
  type ParamId = int

  /** A value as the components pass it around (`IGH_Goo.ScriptVariable()` or `Parameter.AsGoo()`). */
  datatype Value = Double(d: real) | Integer(i: int) | Text(s: string) | Boolean(b: bool) | Enumeration(code: int)

  /** `APIAssetPropValueRangeAttribute`. */
  datatype ValueRange = ValueRange(min: real, max: real)

  /** The parts of the Grasshopper parameter attribute the components use. */
  datatype ParamInfo = ParamInfo(name: string, modifiable: bool, optional: bool)

  /** One `APIAssetBuiltInPropertyInfo`: a built-in parameter that stores the property. */
  datatype BuiltInInfo = BuiltInInfo(paramId: ParamId, exclusive: bool)

  /**
    One asset property: its name, its Grasshopper parameter (absent when the property has
    none), the built-in parameters that store it, in order, and its value range if any.
   */
  datatype AssetProperty = AssetProperty(name: string, paramInfo: Option<ParamInfo>, builtIns: seq<BuiltInInfo>, range: Option<ValueRange>)

  /** A component parameter definition built from a `ParamInfo`. */
  datatype ParamDefinition = ParamDefinition(name: string, optional: bool)

  /** The runtime warnings `VerifyInputValue` adds to the component. */
  datatype Warning = BelowMinimum(input: string, min: real) | AboveMaximum(input: string, max: real)

  /** What `VerifyInputValue` returns, with the warning it adds, if any. */
  datatype Checked = Checked(value: Value, warning: Option<Warning>)

  /**
    `VerifyInputValue`: a number below the minimum becomes the minimum and one above the
    maximum becomes the maximum, each with a warning; anything else passes unchanged.
   */
  function VerifyInputValue(inputName: string, inputValue: Value, range: ValueRange): (r: Checked)
    ensures r.warning.Some? <==> r.value != inputValue
    ensures !inputValue.Double? ==> r.value == inputValue
    ensures inputValue.Double? ==> r.value.Double?
    ensures inputValue.Double? && range.min <= range.max ==> range.min <= r.value.d <= range.max
    ensures inputValue.Double? && range.min <= inputValue.d <= range.max ==> r.value == inputValue
    ensures r.warning.Some? && r.warning.value.BelowMinimum? ==> r.value == Double(range.min) && inputValue.d < range.min
    ensures r.warning.Some? && r.warning.value.AboveMaximum? ==> r.value == Double(range.max) && inputValue.d > range.max
  {
    match inputValue
    case Double(d) =>
      if d < range.min then Checked(Double(range.min), Some(BelowMinimum(inputName, range.min)))
      else if d > range.max then Checked(Double(range.max), Some(AboveMaximum(inputName, range.max)))
      else Checked(inputValue, None)
    case _ => Checked(inputValue, None)
  }

  /** Checking a value a second time changes nothing and warns about nothing. */
  lemma VerifyInputValueIdempotent(inputName: string, inputValue: Value, range: ValueRange)
    requires range.min <= range.max
    ensures VerifyInputValue(inputName, VerifyInputValue(inputName, inputValue, range).value, range)
      == Checked(VerifyInputValue(inputName, inputValue, range).value, None)
  {
  }

  /** The built-in parameters of one property that are exclusive to the asset type all exist. */
  function ExclusivesPresent(builtIns: seq<BuiltInInfo>, present: set<ParamId>): (r: bool)
    ensures r <==> forall j :: 0 <= j < |builtIns| && builtIns[j].exclusive ==> builtIns[j].paramId in present
  {
    if builtIns == [] then true
    else if builtIns[0].exclusive && builtIns[0].paramId !in present then false
    else
      assert forall j :: 1 <= j < |builtIns| ==> builtIns[j] == builtIns[1..][j - 1];
      ExclusivesPresent(builtIns[1..], present)
  }

  /**
    `MatchesPhysicalAssetType`: a property set element whose parameters are `present` is of
    this asset type when every built-in parameter marked exclusive, of every property, exists.
   */
  function MatchesPhysicalAssetType(properties: seq<AssetProperty>, present: set<ParamId>): (r: bool)
    ensures r <==> forall i, j :: 0 <= i < |properties| && 0 <= j < |properties[i].builtIns| && properties[i].builtIns[j].exclusive
                     ==> properties[i].builtIns[j].paramId in present
  {
    if properties == [] then true
    else if !ExclusivesPresent(properties[0].builtIns, present) then false
    else
      assert forall i :: 1 <= i < |properties| ==> properties[i] == properties[1..][i - 1];
      MatchesPhysicalAssetType(properties[1..], present)
  }

  /** A type without exclusive built-in parameters matches any element. */
  lemma NoExclusivesMatchAll(properties: seq<AssetProperty>, present: set<ParamId>)
    requires forall i, j :: 0 <= i < |properties| && 0 <= j < |properties[i].builtIns| ==> !properties[i].builtIns[j].exclusive
    ensures MatchesPhysicalAssetType(properties, present)
  {
  }

  /** An element keeps matching when it gains parameters. */
  lemma MatchesMonotone(properties: seq<AssetProperty>, present: set<ParamId>, more: set<ParamId>)
    requires present <= more && MatchesPhysicalAssetType(properties, present)
    ensures MatchesPhysicalAssetType(properties, more)
  {
  }

  /** `GetAssetDataAsInputs`' test: the property has a parameter and, if asked, a modifiable one. */
  predicate IsInput(p: AssetProperty, skipUnchangable: bool)
  {
    p.paramInfo.Some? && (!skipUnchangable || p.paramInfo.value.modifiable)
  }

  /** The input definitions for the properties, in property order. */
  function InputDefinitions(properties: seq<AssetProperty>, skipUnchangable: bool): seq<ParamDefinition>
  {
    if properties == [] then []
    else
      var last := properties[|properties| - 1];
      InputDefinitions(properties[..|properties| - 1], skipUnchangable)
      + (if IsInput(last, skipUnchangable) then [ParamDefinition(last.paramInfo.value.name, last.paramInfo.value.optional)] else [])
  }

  /** The output definitions for the properties: every property with a parameter, never optional. */
  function OutputDefinitions(properties: seq<AssetProperty>): seq<ParamDefinition>
  {
    if properties == [] then []
    else
      var last := properties[|properties| - 1];
      OutputDefinitions(properties[..|properties| - 1])
      + (if last.paramInfo.Some? then [ParamDefinition(last.paramInfo.value.name, false)] else [])
  }

  /** Definitions are built property by property, so the property order is kept. */
  lemma {:induction false} InputDefinitionsAppend(a: seq<AssetProperty>, b: seq<AssetProperty>, skipUnchangable: bool)
    ensures InputDefinitions(a + b, skipUnchangable) == InputDefinitions(a, skipUnchangable) + InputDefinitions(b, skipUnchangable)
    decreases |b|
  {
    if b == [] {
      assert a + b == a;
    } else {
      assert (a + b)[..|a + b| - 1] == a + b[..|b| - 1];
      InputDefinitionsAppend(a, b[..|b| - 1], skipUnchangable);
    }
  }

  /** A definition is produced exactly for the properties that pass `IsInput`. */
  lemma {:induction false} InputDefinitionsIff(properties: seq<AssetProperty>, skipUnchangable: bool, d: ParamDefinition)
    ensures d in InputDefinitions(properties, skipUnchangable) <==>
      exists i :: 0 <= i < |properties| && IsInput(properties[i], skipUnchangable)
        && d == ParamDefinition(properties[i].paramInfo.value.name, properties[i].paramInfo.value.optional)
  {
    if properties != [] {
      var init := properties[..|properties| - 1];
      InputDefinitionsIff(init, skipUnchangable, d);
      assert forall i :: 0 <= i < |init| ==> init[i] == properties[i];
    }
  }

  /** An output is defined exactly for each property with a parameter, and never optional. */
  lemma {:induction false} OutputDefinitionsIff(properties: seq<AssetProperty>, d: ParamDefinition)
    ensures d in OutputDefinitions(properties) <==>
      exists i :: 0 <= i < |properties| && properties[i].paramInfo.Some?
        && d == ParamDefinition(properties[i].paramInfo.value.name, false)
  {
    if properties != [] {
      var init := properties[..|properties| - 1];
      OutputDefinitionsIff(init, d);
      assert forall i :: 0 <= i < |init| ==> init[i] == properties[i];
    }
  }

  /**
    The outputs mirror the unfiltered inputs: one output per input, in the same order and
    with the same name, but never optional.
   */
  lemma {:induction false} OutputsMirrorInputs(properties: seq<AssetProperty>)
    ensures |OutputDefinitions(properties)| == |InputDefinitions(properties, false)|
    ensures forall k :: 0 <= k < |OutputDefinitions(properties)| ==>
      OutputDefinitions(properties)[k] == ParamDefinition(InputDefinitions(properties, false)[k].name, false)
  {
    if properties != [] {
      OutputsMirrorInputs(properties[..|properties| - 1]);
    }
  }

  /** Skipping unchangeable properties only removes definitions. */
  lemma {:induction false} SkipUnchangableShrinks(properties: seq<AssetProperty>)
    ensures |InputDefinitions(properties, true)| <= |InputDefinitions(properties, false)|
    ensures forall d :: d in InputDefinitions(properties, true) ==> d in InputDefinitions(properties, false)
  {
    if properties != [] {
      SkipUnchangableShrinks(properties[..|properties| - 1]);
    }
  }

  /** The Modify components' filter: the asset's name and class cannot be changed. */
  predicate IsModifyInput(d: ParamDefinition)
  {
    d.name != "Name" && d.name != "Type"
  }

  function ModifyDefinitions(definitions: seq<ParamDefinition>): seq<ParamDefinition>
  {
    if definitions == [] then []
    else
      var last := definitions[|definitions| - 1];
      ModifyDefinitions(definitions[..|definitions| - 1]) + (if IsModifyInput(last) then [last] else [])
  }

  /** The Modify filter keeps exactly the definitions not named "Name" or "Type". */
  lemma {:induction false} ModifyDefinitionsIff(definitions: seq<ParamDefinition>, d: ParamDefinition)
    ensures d in ModifyDefinitions(definitions) <==> d in definitions && IsModifyInput(d)
  {
    if definitions != [] {
      var init := definitions[..|definitions| - 1];
      ModifyDefinitionsIff(init, d);
      assert definitions == init + [definitions[|definitions| - 1]];
    }
  }

  /**
    `CreateAssetDataFromInputs`' test: the property has a parameter, the component has an
    input of that name, and the input received data.
   */
  predicate Supplied(p: AssetProperty, inputNames: seq<string>, inputs: map<string, Value>)
  {
    p.paramInfo.Some? && p.paramInfo.value.name in inputNames && p.paramInfo.value.name in inputs
  }

  /** The value stored for a supplied property, checked against its range if it has one. */
  function InputValue(p: AssetProperty, inputs: map<string, Value>): Checked
    requires p.paramInfo.Some? && p.paramInfo.value.name in inputs
  {
    var value := inputs[p.paramInfo.value.name];
    if p.range.Some? then VerifyInputValue(p.paramInfo.value.name, value, p.range.value) else Checked(value, None)
  }

  /** The names of the properties that get marked. */
  function MarkedNames(properties: seq<AssetProperty>, inputNames: seq<string>, inputs: map<string, Value>): set<string>
  {
    if properties == [] then {}
    else
      var last := properties[|properties| - 1];
      MarkedNames(properties[..|properties| - 1], inputNames, inputs)
      + (if Supplied(last, inputNames, inputs) then {last.name} else {})
  }

  /** The values set on the new asset data, by property name. */
  function AssignedValues(properties: seq<AssetProperty>, inputNames: seq<string>, inputs: map<string, Value>): (r: map<string, Value>)
    ensures r.Keys == MarkedNames(properties, inputNames, inputs)
  {
    if properties == [] then map[]
    else
      var last := properties[|properties| - 1];
      var before := AssignedValues(properties[..|properties| - 1], inputNames, inputs);
      if Supplied(last, inputNames, inputs) then before[last.name := InputValue(last, inputs).value] else before
  }

  /** The warnings the range checks add, in property order. */
  function InputWarnings(properties: seq<AssetProperty>, inputNames: seq<string>, inputs: map<string, Value>): seq<Warning>
  {
    if properties == [] then []
    else
      var last := properties[|properties| - 1];
      var before := InputWarnings(properties[..|properties| - 1], inputNames, inputs);
      if Supplied(last, inputNames, inputs) && InputValue(last, inputs).warning.Some? then before + [InputValue(last, inputs).warning.value]
      else before
  }

  /** A property is marked exactly when it was supplied. */
  lemma {:induction false} MarkedNamesIff(properties: seq<AssetProperty>, inputNames: seq<string>, inputs: map<string, Value>, name: string)
    ensures name in MarkedNames(properties, inputNames, inputs) <==>
      exists i :: 0 <= i < |properties| && properties[i].name == name && Supplied(properties[i], inputNames, inputs)
  {
    if properties != [] {
      var init := properties[..|properties| - 1];
      MarkedNamesIff(init, inputNames, inputs, name);
      assert forall i :: 0 <= i < |init| ==> init[i] == properties[i];
    }
  }

  /** Property names are unique, as those of a .NET type are. */
  ghost predicate DistinctNames(properties: seq<AssetProperty>)
  {
    forall i, j :: 0 <= i < j < |properties| ==> properties[i].name != properties[j].name
  }

  /**
    Each supplied property gets its own input value, clamped into its range when it has one.
   */
  lemma {:induction false} AssignedValueOf(properties: seq<AssetProperty>, inputNames: seq<string>, inputs: map<string, Value>, i: nat)
    requires DistinctNames(properties) && i < |properties| && Supplied(properties[i], inputNames, inputs)
    ensures properties[i].name in AssignedValues(properties, inputNames, inputs)
    ensures AssignedValues(properties, inputNames, inputs)[properties[i].name] == InputValue(properties[i], inputs).value
  {
    var init := properties[..|properties| - 1];
    if i < |properties| - 1 {
      assert init[i] == properties[i];
      AssignedValueOf(init, inputNames, inputs, i);
    }
  }

  /** The first of the built-in parameters, in order, that the element has. */
  function FirstPresent(builtIns: seq<BuiltInInfo>, parameters: map<ParamId, Value>): (r: Option<Value>)
    ensures r.None? <==> forall j :: 0 <= j < |builtIns| ==> builtIns[j].paramId !in parameters
    ensures r.Some? ==> exists j :: (0 <= j < |builtIns| && builtIns[j].paramId in parameters
      && r.value == parameters[builtIns[j].paramId]
      && forall k :: 0 <= k < j ==> builtIns[k].paramId !in parameters)
  {
    if builtIns == [] then None
    else if builtIns[0].paramId in parameters then Some(parameters[builtIns[0].paramId])
    else
      var r := FirstPresent(builtIns[1..], parameters);
      assert forall j :: 1 <= j < |builtIns| ==> builtIns[j] == builtIns[1..][j - 1];
      if r.Some? then
        var j :| 0 <= j < |builtIns[1..]| && builtIns[1..][j].paramId in parameters
          && r.value == parameters[builtIns[1..][j].paramId]
          && forall k :: 0 <= k < j ==> builtIns[1..][k].paramId !in parameters;
        assert forall k :: 0 <= k < j + 1 ==> builtIns[k].paramId !in parameters by {
          forall k | 0 <= k < j + 1 ensures builtIns[k].paramId !in parameters {
            if k > 0 { assert builtIns[k] == builtIns[1..][k - 1]; }
          }
        }
        r
      else r
  }

  /** A parameter write: `SetParameterValue(paramId, value)`. */
  datatype Write = Write(paramId: ParamId, value: Value)

  /** The writes one property causes: its value, to each of its built-in parameters in order. */
  function PropertyWrites(builtIns: seq<BuiltInInfo>, value: Value): seq<Write>
  {
    if builtIns == [] then [] else PropertyWrites(builtIns[..|builtIns| - 1], value) + [Write(builtIns[|builtIns| - 1].paramId, value)]
  }

  /** `UpdatePropertySetElementFromData`'s test: the property is marked and is not the name. */
  predicate IsWritten(p: AssetProperty, marked: set<string>)
  {
    p.name != "Name" && p.name in marked
  }

  /** All writes of an update, in property order. */
  function UpdateWrites(properties: seq<AssetProperty>, marked: set<string>, values: map<string, Value>): seq<Write>
    requires marked <= values.Keys
  {
    if properties == [] then []
    else
      var last := properties[|properties| - 1];
      UpdateWrites(properties[..|properties| - 1], marked, values)
      + (if IsWritten(last, marked) then PropertyWrites(last.builtIns, values[last.name]) else [])
  }

  lemma {:induction false} PropertyWritesIff(builtIns: seq<BuiltInInfo>, value: Value, w: Write)
    ensures w in PropertyWrites(builtIns, value) <==> w.value == value && exists j :: 0 <= j < |builtIns| && builtIns[j].paramId == w.paramId
  {
    if builtIns != [] {
      var init := builtIns[..|builtIns| - 1];
      PropertyWritesIff(init, value, w);
      assert forall j :: 0 <= j < |init| ==> init[j] == builtIns[j];
    }
  }

  /**
    An update writes a value exactly when some marked property other than "Name" maps to
    that parameter, and the value written is that property's.
   */
  lemma {:induction false} UpdateWritesIff(properties: seq<AssetProperty>, marked: set<string>, values: map<string, Value>, w: Write)
    requires marked <= values.Keys
    ensures w in UpdateWrites(properties, marked, values) <==>
      exists i, j :: 0 <= i < |properties| && IsWritten(properties[i], marked) && 0 <= j < |properties[i].builtIns|
        && properties[i].builtIns[j].paramId == w.paramId && w.value == values[properties[i].name]
  {
    if properties != [] {
      var init := properties[..|properties| - 1];
      var last := properties[|properties| - 1];
      var rest := UpdateWrites(init, marked, values);
      var tail := if IsWritten(last, marked) then PropertyWrites(last.builtIns, values[last.name]) else [];
      assert UpdateWrites(properties, marked, values) == rest + tail;
      UpdateWritesIff(init, marked, values, w);
      if IsWritten(last, marked) {
        PropertyWritesIff(last.builtIns, values[last.name], w);
      }
      if w in rest {
        var i, j :| 0 <= i < |init| && IsWritten(init[i], marked) && 0 <= j < |init[i].builtIns|
          && init[i].builtIns[j].paramId == w.paramId && w.value == values[init[i].name];
        assert init[i] == properties[i];
      } else if w in tail {
        var j :| 0 <= j < |last.builtIns| && last.builtIns[j].paramId == w.paramId;
        assert properties[|properties| - 1] == last;
      }
      if exists i, j :: 0 <= i < |properties| && IsWritten(properties[i], marked) && 0 <= j < |properties[i].builtIns|
           && properties[i].builtIns[j].paramId == w.paramId && w.value == values[properties[i].name]
      {
        var i, j :| 0 <= i < |properties| && IsWritten(properties[i], marked) && 0 <= j < |properties[i].builtIns|
          && properties[i].builtIns[j].paramId == w.paramId && w.value == values[properties[i].name];
        if i < |init| {
          assert init[i] == properties[i];
        }
      }
    }
  }

  /** The element's parameters after the writes: a write stores into a parameter the element has and is lost otherwise. */
  function ApplyWrites(parameters: map<ParamId, Value>, writes: seq<Write>): map<ParamId, Value>
  {
    if writes == [] then parameters
    else
      var last := writes[|writes| - 1];
      var before := ApplyWrites(parameters, writes[..|writes| - 1]);
      if last.paramId in before then before[last.paramId := last.value] else before
  }

  /** The value of the last write to a parameter, if any. */
  function LastWrite(writes: seq<Write>, paramId: ParamId): Option<Value>
  {
    if writes == [] then None
    else if writes[|writes| - 1].paramId == paramId then Some(writes[|writes| - 1].value)
    else LastWrite(writes[..|writes| - 1], paramId)
  }

  /** Writes never add or remove parameters, and each parameter ends with its last write. */
  lemma {:induction false} ApplyWritesSpec(parameters: map<ParamId, Value>, writes: seq<Write>, paramId: ParamId)
    ensures ApplyWrites(parameters, writes).Keys == parameters.Keys
    ensures paramId in parameters ==>
      ApplyWrites(parameters, writes)[paramId] == if LastWrite(writes, paramId).Some? then LastWrite(writes, paramId).value else parameters[paramId]
  {
    if writes != [] {
      ApplyWritesSpec(parameters, writes[..|writes| - 1], paramId);
    }
  }

  lemma {:induction false} ApplyWritesAppend(parameters: map<ParamId, Value>, a: seq<Write>, b: seq<Write>)
    ensures ApplyWrites(parameters, a + b) == ApplyWrites(ApplyWrites(parameters, a), b)
    decreases |b|
  {
    if b == [] {
      assert a + b == a;
    } else {
      assert (a + b)[..|a + b| - 1] == a + b[..|b| - 1];
      ApplyWritesAppend(parameters, a, b[..|b| - 1]);
    }
  }

  lemma {:induction false} LastWriteAppend(a: seq<Write>, b: seq<Write>, paramId: ParamId)
    ensures LastWrite(a + b, paramId) == if LastWrite(b, paramId).Some? then LastWrite(b, paramId) else LastWrite(a, paramId)
    decreases |b|
  {
    if b == [] {
      assert a + b == a;
    } else {
      assert (a + b)[..|a + b| - 1] == a + b[..|b| - 1];
      LastWriteAppend(a, b[..|b| - 1], paramId);
    }
  }

  /** The parameters a property is stored in. */
  predicate MapsTo(p: AssetProperty, paramId: ParamId)
  {
    exists j :: 0 <= j < |p.builtIns| && p.builtIns[j].paramId == paramId
  }

  lemma {:induction false} PropertyLastWrite(builtIns: seq<BuiltInInfo>, value: Value, paramId: ParamId)
    ensures LastWrite(PropertyWrites(builtIns, value), paramId)
      == if exists j :: 0 <= j < |builtIns| && builtIns[j].paramId == paramId then Some(value) else None
  {
    if builtIns != [] {
      var init := builtIns[..|builtIns| - 1];
      PropertyLastWrite(init, value, paramId);
      assert forall j :: 0 <= j < |init| ==> init[j] == builtIns[j];
      LastWriteAppend(PropertyWrites(init, value), [Write(builtIns[|builtIns| - 1].paramId, value)], paramId);
    }
  }

  /**
    When a parameter is mapped by exactly one written property, its last write carries that
    property's value.
   */
  lemma {:induction false} UpdateLastWrite(properties: seq<AssetProperty>, marked: set<string>, values: map<string, Value>, i: nat, paramId: ParamId)
    requires marked <= values.Keys && i < |properties| && IsWritten(properties[i], marked) && MapsTo(properties[i], paramId)
    requires forall k :: 0 <= k < |properties| && k != i && IsWritten(properties[k], marked) ==> !MapsTo(properties[k], paramId)
    ensures LastWrite(UpdateWrites(properties, marked, values), paramId) == Some(values[properties[i].name])
  {
    var init := properties[..|properties| - 1];
    var last := properties[|properties| - 1];
    var tail := if IsWritten(last, marked) then PropertyWrites(last.builtIns, values[last.name]) else [];
    LastWriteAppend(UpdateWrites(init, marked, values), tail, paramId);
    if i == |properties| - 1 {
      PropertyLastWrite(last.builtIns, values[last.name], paramId);
    } else {
      assert init[i] == properties[i];
      assert forall k :: 0 <= k < |init| ==> init[k] == properties[k];
      UpdateLastWrite(init, marked, values, i, paramId);
      if IsWritten(last, marked) {
        PropertyLastWrite(last.builtIns, values[last.name], paramId);
      } else {
        assert LastWrite(tail, paramId) == None;
      }
    }
  }

  /**
    Read-back: after an update, a written property whose built-in parameters no other written
    property shares reads as the value written, whenever the element has one of them.
   */
  lemma ReadBackAfterUpdate(properties: seq<AssetProperty>, marked: set<string>, values: map<string, Value>, parameters: map<ParamId, Value>, i: nat)
    requires marked <= values.Keys && i < |properties| && IsWritten(properties[i], marked)
    requires forall k, j :: 0 <= k < |properties| && k != i && IsWritten(properties[k], marked) && 0 <= j < |properties[i].builtIns|
               ==> !MapsTo(properties[k], properties[i].builtIns[j].paramId)
    requires FirstPresent(properties[i].builtIns, parameters).Some?
    ensures FirstPresent(properties[i].builtIns, ApplyWrites(parameters, UpdateWrites(properties, marked, values))) == Some(values[properties[i].name])
  {
    var p := properties[i];
    var updated := ApplyWrites(parameters, UpdateWrites(properties, marked, values));
    ApplyWritesSpec(parameters, UpdateWrites(properties, marked, values), 0);
    forall j | 0 <= j < |p.builtIns| && p.builtIns[j].paramId in updated
      ensures updated[p.builtIns[j].paramId] == values[p.name]
    {
      assert MapsTo(p, p.builtIns[j].paramId);
      UpdateLastWrite(properties, marked, values, i, p.builtIns[j].paramId);
      ApplyWritesSpec(parameters, UpdateWrites(properties, marked, values), p.builtIns[j].paramId);
    }
  }
}
