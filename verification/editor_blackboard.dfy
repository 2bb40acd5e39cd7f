/**
 * The editor engine's blackboard: a list of typed variables, each holding one
 * field per value type, read and written through boxed values.
 */
module EditorBlackboard {
  import opened Wrappers

  datatype BlackboardValueType =
    | Int | Float | Bool | String | Vector2 | Vector3 | GameObject | Transform | Object

  /** C#'s 32-bit `int`. */
  type Int32 = x: int | -0x8000_0000 <= x < 0x8000_0000

  /**
   * A boxed value as passed around as `object`. Unity values are opaque
   * handles tagged with their runtime type; `null` is `None` of `Option<Boxed>`.
   * Floats are modelled as reals.
   */
  datatype Boxed =
    | BInt(i: Int32)
    | BFloat(f: real)
    | BBool(b: bool)
    | BString(s: string)
    | BUnity(kind: BlackboardValueType, handle: nat)

  /**
   * One variable. Vector values are opaque handles (0 is the zero vector);
   * references and the string may be `null`.
   */
  datatype BlackboardVariable = BlackboardVariable(
    name: string,
    valueType: BlackboardValueType,
    intValue: Int32,
    floatValue: real,
    boolValue: bool,
    stringValue: Option<string>,
    vector2Value: nat,
    vector3Value: nat,
    gameObjectValue: Option<nat>,
    transformValue: Option<nat>,
    objectValue: Option<nat>)

  /** A variable as `AddVariable` creates it: every field at its C# default. */
  function Fresh(name: string, valueType: BlackboardValueType): (v: BlackboardVariable)
    ensures v.name == name && v.valueType == valueType
  {
    BlackboardVariable(name, valueType, 0, 0.0, false, None, 0, 0, None, None, None)
  }

  function Handle(kind: BlackboardValueType, h: Option<nat>): Option<Boxed> {
    match h
    case None => None
    case Some(x) => Some(BUnity(kind, x))
  }

  /** The boxed content of the field selected by the variable's type. */
  function GetValue(v: BlackboardVariable): (r: Option<Boxed>)
    ensures v.valueType == Int ==> r == Some(BInt(v.intValue))
    ensures v.valueType == Bool ==> r == Some(BBool(v.boolValue))
    ensures v.valueType == String ==> (r == None <==> v.stringValue == None)
    ensures r.Some? && r.value.BUnity? ==> r.value.kind == v.valueType
  {
    match v.valueType
    case Int => Some(BInt(v.intValue))
    case Float => Some(BFloat(v.floatValue))
    case Bool => Some(BBool(v.boolValue))
    case String => if v.stringValue.Some? then Some(BString(v.stringValue.value)) else None
    case Vector2 => Some(BUnity(Vector2, v.vector2Value))
    case Vector3 => Some(BUnity(Vector3, v.vector3Value))
    case GameObject => Handle(GameObject, v.gameObjectValue)
    case Transform => Handle(Transform, v.transformValue)
    case Object => Handle(Object, v.objectValue)
  }

  /** Decimal text of an integer, as `int.ToString()` writes it. */
  function Decimal(i: int): (r: string)
    ensures |r| > 0
    decreases if i < 0 then 1 - i else i
  {
    if i < 0 then "-" + Decimal(-i)
    else if i < 10 then [Digit(i)]
    else Decimal(i / 10) + [Digit(i % 10)]
  }

  function Digit(d: int): char
    requires 0 <= d < 10
  {
    "0123456789"[d]
  }

  /**
   * `Convert.ToInt32(value)`. `None` stands for an exception and for the
   * conversions this model leaves out (parsing text, rounding floats).
   */
  function ToInt32(value: Option<Boxed>): (r: Option<Int32>)
    ensures value == None ==> r == Some(0)
    ensures value.Some? && value.value.BInt? ==> r == Some(value.value.i)
    ensures value.Some? && value.value.BBool? ==> r == Some(if value.value.b then 1 else 0)
  {
    match value
    case None => Some(0)
    case Some(BInt(i)) => Some(i)
    case Some(BBool(b)) => Some(if b then 1 else 0)
    case Some(_) => None
  }

  /** `Convert.ToBoolean(value)`; `None` as for `ToInt32`. */
  function ToBoolean(value: Option<Boxed>): (r: Option<bool>)
    ensures value == None ==> r == Some(false)
    ensures value.Some? && value.value.BBool? ==> r == Some(value.value.b)
    ensures value.Some? && value.value.BInt? ==> r == Some(value.value.i != 0)
  {
    match value
    case None => Some(false)
    case Some(BBool(b)) => Some(b)
    case Some(BInt(i)) => Some(i != 0)
    case Some(BFloat(f)) => Some(f != 0.0)
    case Some(_) => None
  }

  /** `Convert.ToSingle(value)`, exact on reals; `None` as for `ToInt32`. */
  function ToSingle(value: Option<Boxed>): (r: Option<real>)
    ensures value == None ==> r == Some(0.0)
    ensures value.Some? && value.value.BFloat? ==> r == Some(value.value.f)
  {
    match value
    case None => Some(0.0)
    case Some(BFloat(f)) => Some(f)
    case Some(BInt(i)) => Some(i as real)
    case Some(BBool(b)) => Some(if b then 1.0 else 0.0)
    case Some(_) => None
  }

  /** `value?.ToString() ?? ""`; float and Unity-object text is left out. */
  function ToText(value: Option<Boxed>): (r: Option<string>)
    ensures value == None ==> r == Some("")
    ensures value.Some? && value.value.BString? ==> r == Some(value.value.s)
  {
    match value
    case None => Some("")
    case Some(BString(s)) => Some(s)
    case Some(BInt(i)) => Some(Decimal(i))
    case Some(BBool(b)) => Some(if b then "True" else "False")
    case Some(_) => None
  }

  /** `value as T` for a Unity reference type: anything else, `null` included, gives `null`. */
  function AsReference(value: Option<Boxed>, t: BlackboardValueType): (r: Option<nat>)
    ensures r.Some? ==> value.Some? && value.value.BUnity?
  {
    match value
    case Some(BUnity(k, h)) =>
      if k == t || (t == Object && (k == GameObject || k == Transform)) then Some(h) else None
    case _ => None
  }

  /**
   * Stores `value` into the field selected by the variable's type, converting
   * it first. `None` when the conversion throws (or is not modelled); the
   * variable is then left as it was by the caller.
   */
  function SetValue(v: BlackboardVariable, value: Option<Boxed>): (r: Option<BlackboardVariable>)
    ensures r.Some? ==> r.value.name == v.name && r.value.valueType == v.valueType
    ensures v.valueType in {GameObject, Transform, Object} ==> r.Some?
    ensures r.Some? ==> SameOutside(v, r.value)
  {
    match v.valueType
    case Int => (match ToInt32(value) case Some(i) => Some(v.(intValue := i)) case None => None)
    case Float => (match ToSingle(value) case Some(f) => Some(v.(floatValue := f)) case None => None)
    case Bool => (match ToBoolean(value) case Some(b) => Some(v.(boolValue := b)) case None => None)
    case String => (match ToText(value) case Some(s) => Some(v.(stringValue := Some(s))) case None => None)
    case Vector2 =>
      (match value case Some(BUnity(Vector2, h)) => Some(v.(vector2Value := h)) case _ => None)
    case Vector3 =>
      (match value case Some(BUnity(Vector3, h)) => Some(v.(vector3Value := h)) case _ => None)
    case GameObject => Some(v.(gameObjectValue := AsReference(value, GameObject)))
    case Transform => Some(v.(transformValue := AsReference(value, Transform)))
    case Object => Some(v.(objectValue := AsReference(value, Object)))
  }

  /** `w` differs from `v` at most in the field selected by the type. */
  ghost predicate SameOutside(v: BlackboardVariable, w: BlackboardVariable) {
    match v.valueType
    case Int => w.(intValue := v.intValue) == v
    case Float => w.(floatValue := v.floatValue) == v
    case Bool => w.(boolValue := v.boolValue) == v
    case String => w.(stringValue := v.stringValue) == v
    case Vector2 => w.(vector2Value := v.vector2Value) == v
    case Vector3 => w.(vector3Value := v.vector3Value) == v
    case GameObject => w.(gameObjectValue := v.gameObjectValue) == v
    case Transform => w.(transformValue := v.transformValue) == v
    case Object => w.(objectValue := v.objectValue) == v
  }

  /** Writing then reading an Int, Bool or String variable gives the written value back; null text reads as "". */
  lemma SetThenGet(v: BlackboardVariable, value: Option<Boxed>)
    ensures v.valueType == Int && value.Some? && value.value.BInt? ==>
      SetValue(v, value).Some? && GetValue(SetValue(v, value).value) == value
    ensures v.valueType == Bool && value.Some? && value.value.BBool? ==>
      SetValue(v, value).Some? && GetValue(SetValue(v, value).value) == value
    ensures v.valueType == String && value.Some? && value.value.BString? ==>
      SetValue(v, value).Some? && GetValue(SetValue(v, value).value) == value
    ensures v.valueType == String ==>
      SetValue(v, None).Some? && GetValue(SetValue(v, None).value) == Some(BString(""))
  {
  }

  /** A field-by-field copy of a variable. */
  function CloneVariable(v: BlackboardVariable): (r: BlackboardVariable)
    ensures GetValue(r) == GetValue(v) && r.name == v.name && r.valueType == v.valueType
  {
    BlackboardVariable(v.name, v.valueType, v.intValue, v.floatValue, v.boolValue, v.stringValue,
      v.vector2Value, v.vector3Value, v.gameObjectValue, v.transformValue, v.objectValue)
  }

  /** Every field is copied, so the copy is indistinguishable from the original. */
  lemma CloneVariableEqual(v: BlackboardVariable)
    ensures CloneVariable(v) == v
  {
  }

  /** The blackboard's variable list. Names are not required to be unique. */
  datatype BlackboardData = BlackboardData(variables: seq<BlackboardVariable>)

  /** The change notification `(name, oldValue, newValue)`. */
  datatype ChangeEvent = ChangeEvent(name: string, oldValue: Option<Boxed>, newValue: Option<Boxed>)

  /** Index of the first variable called `name`, or -1 (`List.Find`). */
  function FindIndex(vars: seq<BlackboardVariable>, name: string): (r: int)
    ensures -1 <= r < |vars|
    ensures r == -1 <==> forall i :: 0 <= i < |vars| ==> vars[i].name != name
    ensures 0 <= r ==> vars[r].name == name && forall i :: 0 <= i < r ==> vars[i].name != name
  {
    if |vars| == 0 then -1
    else if vars[0].name == name then 0
    else var k := FindIndex(vars[1..], name); if k == -1 then -1 else k + 1
  }

  /** The first variable with a matching name, or `null`. */
  function GetVariable(bb: BlackboardData, name: string): (r: Option<BlackboardVariable>)
    ensures r.Some? <==> exists i :: 0 <= i < |bb.variables| && bb.variables[i].name == name
    ensures r.Some? ==> r.value == bb.variables[FindIndex(bb.variables, name)]
  {
    var k := FindIndex(bb.variables, name);
    if k < 0 then None else Some(bb.variables[k])
  }

  predicate HasVariable(bb: BlackboardData, name: string) {
    GetVariable(bb, name).Some?
  }

  /** `value is T`: the runtime type of the boxed value is `t` or, for `Object`, a Unity object type. */
  predicate IsOfType(b: Boxed, t: BlackboardValueType) {
    match b
    case BInt(_) => t == Int
    case BFloat(_) => t == Float
    case BBool(_) => t == Bool
    case BString(_) => t == String
    case BUnity(k, _) => k == t || (t == Object && (k == GameObject || k == Transform))
  }

  /** `default(T)`: zero, false, the zero vector, or `null` for reference types. */
  function DefaultOf(t: BlackboardValueType): Option<Boxed> {
    match t
    case Int => Some(BInt(0))
    case Float => Some(BFloat(0.0))
    case Bool => Some(BBool(false))
    case Vector2 => Some(BUnity(Vector2, 0))
    case Vector3 => Some(BUnity(Vector3, 0))
    case _ => None
  }

  /** `GetValue<T>(name)`: the stored value when it is a `T`, otherwise `default(T)`. */
  function GetValueAs(bb: BlackboardData, name: string, t: BlackboardValueType): (r: Option<Boxed>)
    ensures !HasVariable(bb, name) ==> r == DefaultOf(t)
    ensures HasVariable(bb, name) ==>
      var stored := GetValue(GetVariable(bb, name).value);
      r == if stored.Some? && IsOfType(stored.value, t) then stored else DefaultOf(t)
  {
    match GetVariable(bb, name)
    case None => DefaultOf(t)
    case Some(v) =>
      var stored := GetValue(v);
      if stored.Some? && IsOfType(stored.value, t) then stored else DefaultOf(t)
  }

  /** The result of a `SetValue` that returned normally: the new blackboard and the event raised, if any. */
  datatype SetOutcome = SetOutcome(data: BlackboardData, event: Option<ChangeEvent>)

  /**
   * `SetValue<T>(name, value)`: a missing name only logs a warning. Otherwise the
   * first variable with that name is written and the change event always fires
   * with the old and the new value. `None` when the conversion throws.
   */
  function SetVariable(bb: BlackboardData, name: string, value: Option<Boxed>): (r: Option<SetOutcome>)
    ensures !HasVariable(bb, name) ==> r == Some(SetOutcome(bb, None))
    ensures HasVariable(bb, name) && r.Some? ==>
      var k := FindIndex(bb.variables, name);
      && r.value.event == Some(ChangeEvent(name, GetValue(bb.variables[k]), value))
      && |r.value.data.variables| == |bb.variables|
      && (forall i :: 0 <= i < |bb.variables| && i != k ==> r.value.data.variables[i] == bb.variables[i])
      && Some(r.value.data.variables[k]) == SetValue(bb.variables[k], value)
    ensures HasVariable(bb, name) ==> (r.None? <==> SetValue(GetVariable(bb, name).value, value).None?)
  {
    var k := FindIndex(bb.variables, name);
    if k < 0 then Some(SetOutcome(bb, None))
    else
      var v := bb.variables[k];
      match SetValue(v, value)
      case None => None
      case Some(w) =>
        Some(SetOutcome(BlackboardData(bb.variables[k := w]), Some(ChangeEvent(name, GetValue(v), value))))
  }

  /** With unique names, setting an Int variable then reading it as an int gives the value back. */
  lemma SetVariableThenGet(bb: BlackboardData, name: string, x: Int32)
    requires exists i :: 0 <= i < |bb.variables| && bb.variables[i].name == name && bb.variables[i].valueType == Int
    requires forall i, j :: 0 <= i < j < |bb.variables| ==> bb.variables[i].name != bb.variables[j].name
    ensures SetVariable(bb, name, Some(BInt(x))).Some?
    ensures GetValueAs(SetVariable(bb, name, Some(BInt(x))).value.data, name, Int) == Some(BInt(x))
  {
    var k := FindIndex(bb.variables, name);
    var bb' := SetVariable(bb, name, Some(BInt(x))).value.data;
    assert FindIndex(bb'.variables, name) == k by {
      assert bb'.variables[k].name == name;
      forall i | 0 <= i < k ensures bb'.variables[i].name != name {
        assert bb'.variables[i] == bb.variables[i];
      }
    }
  }

  /** `AddVariable`: a name already present is refused; otherwise a fresh variable is appended. */
  function AddVariable(bb: BlackboardData, name: string, t: BlackboardValueType): (r: BlackboardData)
    ensures HasVariable(bb, name) ==> r == bb
    ensures !HasVariable(bb, name) ==> r.variables == bb.variables + [Fresh(name, t)]
    ensures HasVariable(r, name)
  {
    if HasVariable(bb, name) then bb
    else
      var r := BlackboardData(bb.variables + [Fresh(name, t)]);
      assert r.variables[|bb.variables|].name == name;
      r
  }

  /** Adding to a blackboard with unique names keeps the names unique. */
  lemma AddVariableKeepsNamesUnique(bb: BlackboardData, name: string, t: BlackboardValueType)
    requires UniqueNames(bb)
    ensures UniqueNames(AddVariable(bb, name, t))
  {
  }

  ghost predicate UniqueNames(bb: BlackboardData) {
    forall i, j :: 0 <= i < j < |bb.variables| ==> bb.variables[i].name != bb.variables[j].name
  }

  /** `RemoveVariable`: every variable called `name` goes; the others stay, in order. */
  function RemoveVariable(bb: BlackboardData, name: string): (r: BlackboardData)
    ensures !HasVariable(r, name)
    ensures forall i :: 0 <= i < |r.variables| ==> r.variables[i] in bb.variables
    ensures forall i :: 0 <= i < |bb.variables| && bb.variables[i].name != name ==> bb.variables[i] in r.variables
    ensures !HasVariable(bb, name) ==> r == bb
  {
    BlackboardData(RemoveNamed(bb.variables, name))
  }

  /** The variables not called `name`, in order. */
  function RemoveNamed(vs: seq<BlackboardVariable>, name: string): (r: seq<BlackboardVariable>)
    ensures forall i :: 0 <= i < |r| ==> r[i].name != name && r[i] in vs
    ensures forall i :: 0 <= i < |vs| && vs[i].name != name ==> vs[i] in r
    ensures (forall i :: 0 <= i < |vs| ==> vs[i].name != name) ==> r == vs
    decreases |vs|
  {
    if |vs| == 0 then []
    else
      var rest := RemoveNamed(vs[1..], name);
      assert forall i :: 1 <= i < |vs| ==> vs[i] == vs[1..][i - 1];
      if vs[0].name == name then rest
      else
        var r := [vs[0]] + rest;
        assert forall i :: 1 <= i < |r| ==> r[i] == rest[i - 1];
        r
  }

  /**
   * `RemoveNamed` is a filter: it works piecewise over a concatenation, and on
   * one variable it keeps it exactly when the name differs. Together these fix
   * the order and the multiplicity of what is kept.
   */
  lemma {:induction false} RemoveNamedAppend(a: seq<BlackboardVariable>, b: seq<BlackboardVariable>, name: string)
    ensures RemoveNamed(a + b, name) == RemoveNamed(a, name) + RemoveNamed(b, name)
    decreases |a|
  {
    if |a| > 0 {
      assert (a + b)[1..] == a[1..] + b;
      RemoveNamedAppend(a[1..], b, name);
    } else {
      assert a + b == b;
    }
  }

  lemma RemoveNamedOne(v: BlackboardVariable, name: string)
    ensures RemoveNamed([v], name) == (if v.name == name then [] else [v])
  {
  }

  /** Each variable with another name is kept as often as it occurs; those called `name` all go. */
  lemma {:induction false} RemoveNamedCounts(vs: seq<BlackboardVariable>, name: string, v: BlackboardVariable)
    ensures multiset(RemoveNamed(vs, name))[v] == (if v.name == name then 0 else multiset(vs)[v])
    decreases |vs|
  {
    if |vs| > 0 {
      assert vs == [vs[0]] + vs[1..];
      RemoveNamedAppend([vs[0]], vs[1..], name);
      RemoveNamedOne(vs[0], name);
      RemoveNamedCounts(vs[1..], name, v);
    }
  }

  /** `RemoveVariable` keeps the other variables in their order: removing from a prefix and the rest separately gives the same list. */
  lemma RemoveVariableKeepsOrder(bb: BlackboardData, name: string, k: nat)
    requires k <= |bb.variables|
    ensures RemoveVariable(bb, name).variables
      == RemoveNamed(bb.variables[..k], name) + RemoveNamed(bb.variables[k..], name)
  {
    assert bb.variables == bb.variables[..k] + bb.variables[k..];
    RemoveNamedAppend(bb.variables[..k], bb.variables[k..], name);
  }

  /** `Clear` empties the list. */
  function Clear(bb: BlackboardData): (r: BlackboardData)
    ensures forall name :: !HasVariable(r, name)
  {
    BlackboardData([])
  }

  /** `Clone`: a new list of copied variables. */
  function Clone(bb: BlackboardData): (r: BlackboardData)
    ensures |r.variables| == |bb.variables|
    ensures forall i :: 0 <= i < |r.variables| ==> r.variables[i] == CloneVariable(bb.variables[i])
    decreases |bb.variables|
  {
    if |bb.variables| == 0 then BlackboardData([])
    else BlackboardData([CloneVariable(bb.variables[0])] + Clone(BlackboardData(bb.variables[1..])).variables)
  }

  /**
   * The clone equals the original; being a value, a later write to either side
   * leaves the other as it was.
   */
  lemma CloneIsIndependentCopy(bb: BlackboardData)
    ensures Clone(bb) == bb
    ensures forall name' :: GetVariable(Clone(bb), name') == GetVariable(bb, name')
  {
    assert Clone(bb).variables == bb.variables;
  }
}
