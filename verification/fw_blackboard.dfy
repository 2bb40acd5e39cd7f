/**
 * The Framework engine's `Blackboard`: a list of typed parameters looked up
 * by key. Setters demand that key and type both match; getters look at the
 * key only.
 */
module FwBlackboard {
  import opened Wrappers

  datatype VariableType = Int | Float | Bool | String

  /**
   * A `BlackboardVariable`: a key, a declared type and one value slot per
   * type. A `null` string is `None`.
   */
  datatype Variable = Variable(
    key: string,
    vtype: VariableType,
    intValue: int,
    floatValue: real,
    boolValue: bool,
    stringValue: Option<string>)

  type Board = seq<Variable>

  /** `FindIndex` by key: the first position whose key is `key`, or -1. */
  function FindKey(b: Board, key: string): (r: int)
    ensures -1 <= r < |b|
    ensures r == -1 <==> forall i :: 0 <= i < |b| ==> b[i].key != key
    ensures r >= 0 ==> b[r].key == key && forall i :: 0 <= i < r ==> b[i].key != key
  {
    if |b| == 0 then -1
    else if b[0].key == key then 0
    else
      var k := FindKey(b[1..], key);
      if k < 0 then -1 else k + 1
  }

  /** `FindIndex` by key and type together: the first position matching both, or -1. */
  function FindKeyType(b: Board, key: string, t: VariableType): (r: int)
    ensures -1 <= r < |b|
    ensures r == -1 <==> forall i :: 0 <= i < |b| ==> !(b[i].key == key && b[i].vtype == t)
    ensures r >= 0 ==> b[r].key == key && b[r].vtype == t
    ensures r >= 0 ==> forall i :: 0 <= i < r ==> !(b[i].key == key && b[i].vtype == t)
  {
    if |b| == 0 then -1
    else if b[0].key == key && b[0].vtype == t then 0
    else
      var k := FindKeyType(b[1..], key, t);
      if k < 0 then -1 else k + 1
  }

  /** `ContainsParameter`: some parameter has the key. */
  function ContainsParameter(b: Board, key: string): (r: bool)
    ensures r <==> exists i :: 0 <= i < |b| && b[i].key == key
  {
    FindKey(b, key) >= 0
  }

  /** No two parameters share a key. */
  predicate UniqueKeys(b: Board) {
    forall i, j :: 0 <= i < j < |b| ==> b[i].key != b[j].key
  }

  // ---- AddParameter ----

  /** `key` followed by `n` copies of "_0". */
  function Suffixed(key: string, n: nat): (r: string)
    ensures |r| == |key| + 2 * n
  {
    if n == 0 then key else Suffixed(key, n - 1) + "_0"
  }

  /** The longest key on the board. */
  function MaxKeyLength(b: Board): (r: nat)
    ensures forall i :: 0 <= i < |b| ==> |b[i].key| <= r
  {
    if |b| == 0 then 0
    else
      var m := MaxKeyLength(b[1..]);
      assert forall i :: 1 <= i < |b| ==> b[i] == b[1..][i - 1];
      if |b[0].key| > m then |b[0].key| else m
  }

  /**
   * The recursion of `GetOnlyKey`, counted in suffixes: from `n` on, the
   * first number of "_0" suffixes that gives a key not yet on the board.
   */
  function FreeSuffix(b: Board, key: string, n: nat): (r: nat)
    requires forall m :: 0 <= m < n ==> ContainsParameter(b, Suffixed(key, m))
    ensures n <= r && !ContainsParameter(b, Suffixed(key, r))
    ensures forall m :: 0 <= m < r ==> ContainsParameter(b, Suffixed(key, m))
    decreases MaxKeyLength(b) + 2 - |Suffixed(key, n)|
  {
    if !ContainsParameter(b, Suffixed(key, n)) then n
    else FreeSuffix(b, key, n + 1)
  }

  /** `GetOnlyKey`: the key itself, or with "_0" appended until it is new. */
  function GetOnlyKey(b: Board, key: string): (r: string)
    ensures !ContainsParameter(b, r)
    ensures !ContainsParameter(b, key) ==> r == key
  {
    Suffixed(key, FreeSuffix(b, key, 0))
  }

  /** `AddParameter`: the parameter is appended under a key no other parameter has. */
  function AddParameter(b: Board, v: Variable): (r: Board)
    ensures |r| == |b| + 1 && r[..|b|] == b
    ensures r[|b|] == v.(key := r[|b|].key)
    ensures UniqueKeys(b) ==> UniqueKeys(r)
  {
    var r := b + [v.(key := GetOnlyKey(b, v.key))];
    assert r[..|b|] == b;
    r
  }

  /** The appended key is the requested key with the fewest "_0" suffixes that make it new. */
  lemma AddParameterKeyIsFewestSuffixes(b: Board, v: Variable)
    ensures exists n: nat ::
      && AddParameter(b, v)[|b|].key == Suffixed(v.key, n)
      && !ContainsParameter(b, Suffixed(v.key, n))
      && forall m :: 0 <= m < n ==> ContainsParameter(b, Suffixed(v.key, m))
  {
    var n := FreeSuffix(b, v.key, 0);
    assert AddParameter(b, v)[|b|].key == Suffixed(v.key, n);
  }

  /** `RemoveParameter`: only the first parameter with the key goes; an absent key changes nothing. */
  function RemoveParameter(b: Board, key: string): (r: Board)
    ensures !ContainsParameter(b, key) ==> r == b
    ensures ContainsParameter(b, key) ==>
      var i := FindKey(b, key);
      && |r| == |b| - 1
      && (forall j :: 0 <= j < i ==> r[j] == b[j])
      && (forall j :: i <= j < |r| ==> r[j] == b[j + 1])
    ensures UniqueKeys(b) ==> UniqueKeys(r) && !ContainsParameter(r, key)
  {
    var i := FindKey(b, key);
    if i < 0 then b else b[..i] + b[i + 1..]
  }

  // ---- Setters ----

  /** The value slot `v`'s type names, copied from `v` into `x`; every other field of `x` stays. */
  function WriteValue(x: Variable, v: Variable): (r: Variable)
    ensures r.key == x.key && r.vtype == x.vtype
    ensures v.vtype == Int ==> r == x.(intValue := v.intValue)
    ensures v.vtype == Float ==> r == x.(floatValue := v.floatValue)
    ensures v.vtype == Bool ==> r == x.(boolValue := v.boolValue)
    ensures v.vtype == String ==> r == x.(stringValue := v.stringValue)
  {
    match v.vtype
    case Int => x.(intValue := v.intValue)
    case Float => x.(floatValue := v.floatValue)
    case Bool => x.(boolValue := v.boolValue)
    case String => x.(stringValue := v.stringValue)
  }

  /** The board keeps its keys and types in place. */
  predicate SameLayout(b: Board, r: Board) {
    |r| == |b| && forall j :: 0 <= j < |b| ==> r[j].key == b[j].key && r[j].vtype == b[j].vtype
  }

  /**
   * `SetParameter`: nothing changes unless a parameter has the same key and
   * type; then only the slot of that type in the first such parameter is written.
   */
  function SetParameter(b: Board, v: Variable): (r: Board)
    ensures FindKeyType(b, v.key, v.vtype) < 0 ==> r == b
    ensures SameLayout(b, r)
    ensures FindKeyType(b, v.key, v.vtype) >= 0 ==>
      var i := FindKeyType(b, v.key, v.vtype);
      && r[i] == WriteValue(b[i], v)
      && forall j :: 0 <= j < |b| && j != i ==> r[j] == b[j]
  {
    var i := FindKeyType(b, v.key, v.vtype);
    if i < 0 then b else b[i := WriteValue(b[i], v)]
  }

  /** A variable carrying only a key, a type and one value; the other slots hold their defaults. */
  function Carrier(key: string, t: VariableType): Variable {
    Variable(key, t, 0, 0.0, false, None)
  }

  /** `SetIntParameter`: `SetParameter` with an `Int` variable. */
  function SetIntParameter(b: Board, key: string, value: int): (r: Board)
    ensures FindKeyType(b, key, Int) < 0 ==> r == b
    ensures SameLayout(b, r)
    ensures FindKeyType(b, key, Int) >= 0 ==>
      var i := FindKeyType(b, key, Int);
      r == b[i := b[i].(intValue := value)]
  {
    SetParameter(b, Carrier(key, Int).(intValue := value))
  }

  /** `SetFloatParameter`: `SetParameter` with a `Float` variable. */
  function SetFloatParameter(b: Board, key: string, value: real): (r: Board)
    ensures FindKeyType(b, key, Float) < 0 ==> r == b
    ensures FindKeyType(b, key, Float) >= 0 ==>
      var i := FindKeyType(b, key, Float);
      r == b[i := b[i].(floatValue := value)]
  {
    SetParameter(b, Carrier(key, Float).(floatValue := value))
  }

  /** `SetBoolParameter`: `SetParameter` with a `Bool` variable. */
  function SetBoolParameter(b: Board, key: string, value: bool): (r: Board)
    ensures FindKeyType(b, key, Bool) < 0 ==> r == b
    ensures FindKeyType(b, key, Bool) >= 0 ==>
      var i := FindKeyType(b, key, Bool);
      r == b[i := b[i].(boolValue := value)]
  {
    SetParameter(b, Carrier(key, Bool).(boolValue := value))
  }

  /** `SetStringParameter`: `SetParameter` with a `String` variable. */
  function SetStringParameter(b: Board, key: string, value: Option<string>): (r: Board)
    ensures FindKeyType(b, key, String) < 0 ==> r == b
    ensures FindKeyType(b, key, String) >= 0 ==>
      var i := FindKeyType(b, key, String);
      r == b[i := b[i].(stringValue := value)]
  {
    SetParameter(b, Carrier(key, String).(stringValue := value))
  }

  // ---- Getters ----

  /** `GetParameter`: the first parameter with the key, `null` when there is none. */
  function GetParameter(b: Board, key: string): (r: Option<Variable>)
    ensures r.None? <==> !ContainsParameter(b, key)
    ensures r.Some? ==> r.value.key == key && r.value in b
    ensures r.Some? ==> exists i :: 0 <= i < |b| && r.value == b[i] && forall j :: 0 <= j < i ==> b[j].key != key
  {
    var i := FindKey(b, key);
    if i < 0 then None else Some(b[i])
  }

  /** `GetIntParameter`: by key only, whatever the type; 0 when absent. */
  function GetIntParameter(b: Board, key: string): (r: int)
    ensures !ContainsParameter(b, key) ==> r == 0
    ensures ContainsParameter(b, key) ==> r == GetParameter(b, key).value.intValue
  {
    match GetParameter(b, key)
    case None => 0
    case Some(v) => v.intValue
  }

  /** `GetFloatParameter`: by key only; 0 when absent. */
  function GetFloatParameter(b: Board, key: string): (r: real)
    ensures !ContainsParameter(b, key) ==> r == 0.0
    ensures ContainsParameter(b, key) ==> r == GetParameter(b, key).value.floatValue
  {
    match GetParameter(b, key)
    case None => 0.0
    case Some(v) => v.floatValue
  }

  /** `GetBoolParameter`: by key only; false when absent. */
  function GetBoolParameter(b: Board, key: string): (r: bool)
    ensures !ContainsParameter(b, key) ==> !r
    ensures ContainsParameter(b, key) ==> r == GetParameter(b, key).value.boolValue
  {
    match GetParameter(b, key)
    case None => false
    case Some(v) => v.boolValue
  }

  /** `GetStringParameter`: by key only; `null` when absent. */
  function GetStringParameter(b: Board, key: string): (r: Option<string>)
    ensures !ContainsParameter(b, key) ==> r == None
    ensures ContainsParameter(b, key) ==> r == GetParameter(b, key).value.stringValue
  {
    match GetParameter(b, key)
    case None => None
    case Some(v) => v.stringValue
  }

  /** With unique keys, an int written under an `Int` parameter's key reads back. */
  lemma SetIntThenGetInt(b: Board, key: string, value: int)
    requires UniqueKeys(b)
    requires FindKeyType(b, key, Int) >= 0
    ensures GetIntParameter(SetIntParameter(b, key, value), key) == value
  {
    var r := SetIntParameter(b, key, value);
    var i := FindKeyType(b, key, Int);
    assert FindKey(r, key) == i;
  }

  /** A key held by a parameter of another type: the write is refused, the read ignores the type. */
  lemma SetIntOnOtherTypeIsRefused(b: Board, key: string, value: int)
    requires UniqueKeys(b)
    requires ContainsParameter(b, key) && GetParameter(b, key).value.vtype != Int
    ensures SetIntParameter(b, key, value) == b
    ensures GetIntParameter(SetIntParameter(b, key, value), key) == GetParameter(b, key).value.intValue
  {
  }

  // ---- Applying a list of variables ----

  /** The last of `vs` with this key and type, if any. */
  function LastMatch(vs: seq<Variable>, key: string, t: VariableType): (r: Option<Variable>)
    ensures r.Some? ==> r.value in vs && r.value.key == key && r.value.vtype == t
    ensures r.None? <==> forall i :: 0 <= i < |vs| ==> !(vs[i].key == key && vs[i].vtype == t)
  {
    if |vs| == 0 then None
    else
      var v := vs[|vs| - 1];
      if v.key == key && v.vtype == t then Some(v)
      else
        var r := LastMatch(vs[..|vs| - 1], key, t);
        assert forall i :: 0 <= i < |vs| - 1 ==> vs[..|vs| - 1][i] == vs[i];
        r
  }

  /** `SetParameter` for each of `vs`, in list order. */
  function ApplyAll(vs: seq<Variable>, b: Board): (r: Board)
    ensures SameLayout(b, r)
  {
    if |vs| == 0 then b
    else SetParameter(ApplyAll(vs[..|vs| - 1], b), vs[|vs| - 1])
  }

  /** `FindKeyType` depends on keys and types only. */
  lemma FindKeyTypeLayout(b: Board, r: Board, key: string, t: VariableType)
    requires SameLayout(b, r)
    ensures FindKeyType(r, key, t) == FindKeyType(b, key, t)
  {
    if |b| > 0 {
      assert SameLayout(b[1..], r[1..]);
      FindKeyTypeLayout(b[1..], r[1..], key, t);
    }
  }

  /**
   * Applying `vs`: the first parameter of each key and type ends with the
   * value of the last matching entry of `vs`; with no matching entry, and
   * for every later duplicate, the parameter is unchanged.
   */
  lemma {:induction false} ApplyAllLastWins(vs: seq<Variable>, b: Board, j: nat)
    requires j < |b|
    ensures
      var r := ApplyAll(vs, b);
      if FindKeyType(b, b[j].key, b[j].vtype) == j then
        match LastMatch(vs, b[j].key, b[j].vtype)
        case None => r[j] == b[j]
        case Some(v) => r[j] == WriteValue(b[j], v)
      else r[j] == b[j]
    decreases |vs|
  {
    if |vs| > 0 {
      var front := vs[..|vs| - 1];
      var v := vs[|vs| - 1];
      ApplyAllLastWins(front, b, j);
      var mid := ApplyAll(front, b);
      FindKeyTypeLayout(b, mid, v.key, v.vtype);
      var i := FindKeyType(b, v.key, v.vtype);
      if i == j {
        assert v.key == b[j].key && v.vtype == b[j].vtype;
        assert mid[j].key == b[j].key && mid[j].vtype == b[j].vtype;
        match LastMatch(front, b[j].key, b[j].vtype)
        case None =>
        case Some(w) =>
          assert WriteValue(WriteValue(b[j], w), v) == WriteValue(b[j], v);
      }
    }
  }

  /**
   * `Synchronize(target)`: every parameter of this board whose key the
   * target contains is set there -- still subject to the target's type check.
   */
  function Synchronize(src: Board, dst: Board): (r: Board)
    ensures SameLayout(dst, r)
  {
    if |src| == 0 then dst
    else
      var mid := Synchronize(src[..|src| - 1], dst);
      var p := src[|src| - 1];
      if ContainsParameter(mid, p.key) then SetParameter(mid, p) else mid
  }

  /** The key test of `Synchronize` is subsumed by the key-and-type test: it is applying every parameter. */
  lemma {:induction false} SynchronizeIsApplyAll(src: Board, dst: Board)
    ensures Synchronize(src, dst) == ApplyAll(src, dst)
    decreases |src|
  {
    if |src| > 0 {
      SynchronizeIsApplyAll(src[..|src| - 1], dst);
      var mid := Synchronize(src[..|src| - 1], dst);
      var p := src[|src| - 1];
      if !ContainsParameter(mid, p.key) {
        assert FindKeyType(mid, p.key, p.vtype) < 0;
      }
    }
  }

  // ---- Synchronizing there and back ----

  /** With unique keys, the last entry with a parameter's key and type is that parameter. */
  lemma {:induction false} LastMatchUnique(vs: seq<Variable>, j: nat)
    requires UniqueKeys(vs) && j < |vs|
    ensures LastMatch(vs, vs[j].key, vs[j].vtype) == Some(vs[j])
    decreases |vs|
  {
    if j < |vs| - 1 {
      var front := vs[..|vs| - 1];
      assert front[j] == vs[j];
      assert UniqueKeys(front);
      LastMatchUnique(front, j);
    }
  }

  /** The entry `LastMatch` finds sits at some position of the list. */
  lemma {:induction false} LastMatchAt(vs: seq<Variable>, key: string, t: VariableType) returns (i: nat)
    requires LastMatch(vs, key, t).Some?
    ensures i < |vs| && vs[i] == LastMatch(vs, key, t).value
    decreases |vs|
  {
    var v := vs[|vs| - 1];
    if v.key == key && v.vtype == t {
      i := |vs| - 1;
    } else {
      var front := vs[..|vs| - 1];
      i := LastMatchAt(front, key, t);
      assert front[i] == vs[i];
    }
  }

  /** Writing a variable back with the slot it was given: a parameter gets its own value back. */
  lemma WriteBack(x: Variable, y: Variable)
    requires y.key == x.key && y.vtype == x.vtype
    ensures WriteValue(x, WriteValue(y, x)) == x
  {
  }

  /**
   * Pushing `b` into `s` and pulling `s` straight back into `b` gives `b`
   * again, when both boards have unique keys: a parameter the two share by
   * key and type makes the round trip with its value; every other parameter
   * is never written.
   */
  lemma SynchronizeBackRestores(b: Board, s: Board)
    requires UniqueKeys(b) && UniqueKeys(s)
    ensures Synchronize(Synchronize(b, s), b) == b
  {
    var pushed := Synchronize(b, s);
    SynchronizeIsApplyAll(b, s);
    SynchronizeIsApplyAll(pushed, b);
    var r := ApplyAll(pushed, b);
    forall j | 0 <= j < |b| ensures r[j] == b[j] {
      SynchronizeBackAt(b, s, pushed, j);
    }
  }

  /** One parameter of `SynchronizeBackRestores`. */
  lemma SynchronizeBackAt(b: Board, s: Board, pushed: Board, j: nat)
    requires UniqueKeys(b) && UniqueKeys(s) && j < |b|
    requires pushed == ApplyAll(b, s)
    ensures ApplyAll(pushed, b)[j] == b[j]
  {
    assert FindKeyType(b, b[j].key, b[j].vtype) == j;
    ApplyAllLastWins(pushed, b, j);
    var m := LastMatch(pushed, b[j].key, b[j].vtype);
    if m.Some? {
      var i := LastMatchAt(pushed, b[j].key, b[j].vtype);
      assert s[i].key == b[j].key && s[i].vtype == b[j].vtype;
      assert FindKeyType(s, s[i].key, s[i].vtype) == i;
      ApplyAllLastWins(b, s, i);
      LastMatchUnique(b, j);
      assert pushed[i] == WriteValue(s[i], b[j]);
      WriteBack(b[j], s[i]);
    }
  }
}
