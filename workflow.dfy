/** `parseWorkflowFile`: the shape checks applied to the value `yaml.load` returns for a
    workflow file. The YAML parser itself is not modelled; its result is the input. */
module Workflow {
  import opened Wrappers

  /** The JavaScript values `yaml.load` can produce with its default schema (numbers are
      taken as integers). A mapping keeps its entries in document order. `Instance` is an
      object that is not a plain mapping: a `Date` for a timestamp, a `Uint8Array` for
      `!!binary`; only its class name is kept. */
  datatype JsValue =
    | Undefined
    | Null
    | Bool(b: bool)
    | Num(n: int)
    | Str(s: string)
    | Arr(items: seq<JsValue>)
    | Obj(entries: seq<(string, JsValue)>)
    | Instance(className: string)

  /** The `typeof` operator: null, arrays and objects are all "object". */
  function TypeOf(v: JsValue): (r: string)
    ensures r == "object" <==> v.Null? || v.Arr? || v.Obj? || v.Instance?
  {
    match v
    case Undefined => "undefined"
    case Null => "object"
    case Bool(_) => "boolean"
    case Num(_) => "number"
    case Str(_) => "string"
    case Arr(_) => "object"
    case Obj(_) => "object"
    case Instance(_) => "object"
  }

  /** Property access `v[key]` on a value the first check let through: an own entry of a
      mapping, and `undefined` otherwise (an array, a `Date` or a `Uint8Array` has no
      property named like a workflow key such as "jobs"). Mapping keys are unique, as the YAML loader rejects duplicates. */
  function GetProperty(v: JsValue, key: string): (r: JsValue)
    ensures v.Obj? && (exists k :: 0 <= k < |v.entries| && v.entries[k].0 == key) ==>
      exists k :: 0 <= k < |v.entries| && v.entries[k] == (key, r)
    ensures !(v.Obj? && exists k :: 0 <= k < |v.entries| && v.entries[k].0 == key) ==> r == Undefined
  {
    match v
    case Obj(entries) => Lookup(entries, key)
    case _ => Undefined
  }

  /** The value of the first entry named `key`. */
  function Lookup(entries: seq<(string, JsValue)>, key: string): (r: JsValue)
    ensures (exists k :: 0 <= k < |entries| && entries[k].0 == key) ==>
      exists k :: (0 <= k < |entries| && entries[k] == (key, r) && forall j :: 0 <= j < k ==> entries[j].0 != key)
    ensures (forall k :: 0 <= k < |entries| ==> entries[k].0 != key) ==> r == Undefined
    decreases |entries|
  {
    if entries == [] then Undefined
    else if entries[0].0 == key then entries[0].1
    else
      var r := Lookup(entries[1..], key);
      assert forall k :: 1 <= k < |entries| ==> entries[k] == entries[1..][k - 1];
      r
  }

  /** The two errors the function throws. */
  datatype ParseError =
    | NotAnObject(typeName: string)    // "workflow is not valid object: <typeof>"
    | InvalidJobsField(workflow: JsValue)  // "workflow does not have valid "jobs" field: <JSON>"

  /** `parseWorkflowFile` on the loaded value. A workflow is accepted exactly when it is a
      mapping whose `jobs` is a mapping, a sequence, null or another object, and is then
      returned as it is; anything else that is not an object, or null, fails the first
      check with its `typeof`; an array or another object, or a mapping without such
      `jobs`, fails the second. */
  function ParseWorkflowFile(loaded: JsValue): (r: Result<JsValue, ParseError>)
    ensures r.Ok? <==>
      && loaded.Obj?
      && var jobs := GetProperty(loaded, "jobs"); jobs.Obj? || jobs.Arr? || jobs.Null? || jobs.Instance?
    ensures r.Ok? ==> r.value == loaded
    ensures !(loaded.Arr? || loaded.Obj? || loaded.Instance?) ==> r == Err(NotAnObject(TypeOf(loaded)))
    ensures (loaded.Arr? || loaded.Obj? || loaded.Instance?) && r.Err? ==> r == Err(InvalidJobsField(loaded))
  {
    if TypeOf(loaded) != "object" || loaded == Null then
      Err(NotAnObject(TypeOf(loaded)))
    else if TypeOf(GetProperty(loaded, "jobs")) != "object" then
      Err(InvalidJobsField(loaded))
    else
      Ok(loaded)
  }
}
