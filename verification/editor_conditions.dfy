/**
 * The value tests of the editor engine's two blackboard-driven nodes:
 * `CheckBlackboardNode` (compares one variable with a constant) and the
 * condition that `ConditionalAbortNode` watches.
 */
module EditorConditions {
  import opened Wrappers
  import ND = EditorNodeData
  import BB = EditorBlackboard

  datatype ComparisonOperator =
    | Equal | NotEqual | GreaterThan | LessThan | GreaterOrEqual | LessOrEqual

  /** The public fields of a `CheckBlackboardNode`; `compareStringValue` may be `null`. */
  datatype CheckConfig = CheckConfig(
    variableName: string,
    comparison: ComparisonOperator,
    valueType: BB.BlackboardValueType,
    compareIntValue: BB.Int32,
    compareFloatValue: real,
    compareBoolValue: bool,
    compareStringValue: Option<string>)

  /** A freshly created node: `Equal`, `Bool`, every constant at its default. */
  function DefaultCheck(variableName: string): (r: CheckConfig)
    ensures r.comparison == Equal && r.valueType == BB.Bool
    ensures r.variableName == variableName && !r.compareBoolValue && r.compareStringValue == None
  {
    CheckConfig(variableName, Equal, BB.Bool, 0, 0.0, false, None)
  }

  /**
   * Applies the operator to two numbers, with exact equality: every
   * operator is decided by which of `a < b` and `b < a` hold.
   */
  function CompareNumeric(op: ComparisonOperator, a: real, b: real): (r: bool)
    ensures op == Equal ==> (r <==> !(a < b) && !(b < a))
    ensures op == NotEqual ==> (r <==> a < b || b < a)
    ensures op == GreaterThan ==> (r <==> b < a)
    ensures op == LessThan ==> (r <==> a < b)
    ensures op == GreaterOrEqual ==> (r <==> !(a < b))
    ensures op == LessOrEqual ==> (r <==> !(b < a))
  {
    match op
    case Equal => a == b
    case NotEqual => !(a == b)
    case GreaterThan => a > b
    case LessThan => a < b
    case GreaterOrEqual => a >= b
    case LessOrEqual => a <= b
  }

  /**
   * The integer comparison as intended: the operator applied to the two
   * 32-bit values themselves.
   */
  function CompareInt(op: ComparisonOperator, a: int, b: int): (r: bool)
    ensures r <==> CompareNumeric(op, a as real, b as real)
  {
    match op
    case Equal => a == b
    case NotEqual => a != b
    case GreaterThan => a > b
    case LessThan => a < b
    case GreaterOrEqual => a >= b
    case LessOrEqual => a <= b
  }

  /**
   * The operators on numbers pair up: `NotEqual` negates `Equal`,
   * `LessThan` mirrors `GreaterThan`, the non-strict orders negate the
   * strict ones, and `Equal` is both non-strict orders at once.
   */
  lemma CompareNumericDuals(a: real, b: real)
    ensures CompareNumeric(NotEqual, a, b) == !CompareNumeric(Equal, a, b)
    ensures CompareNumeric(LessThan, a, b) == CompareNumeric(GreaterThan, b, a)
    ensures CompareNumeric(GreaterOrEqual, a, b) == !CompareNumeric(LessThan, a, b)
    ensures CompareNumeric(LessOrEqual, a, b) == !CompareNumeric(GreaterThan, a, b)
    ensures CompareNumeric(Equal, a, b) == (CompareNumeric(GreaterOrEqual, a, b) && CompareNumeric(LessOrEqual, a, b))
  {
  }

  /** Both directions of each operator: `NotEqual` negates `Equal`, `LessThan` mirrors `GreaterThan`. */
  lemma CompareIntDuals(a: int, b: int)
    ensures CompareInt(NotEqual, a, b) == !CompareInt(Equal, a, b)
    ensures CompareInt(LessThan, a, b) == CompareInt(GreaterThan, b, a)
    ensures CompareInt(GreaterOrEqual, a, b) == !CompareInt(LessThan, a, b)
    ensures CompareInt(LessOrEqual, a, b) == !CompareInt(GreaterThan, a, b)
    ensures CompareInt(Equal, a, b) == (CompareInt(GreaterOrEqual, a, b) && CompareInt(LessOrEqual, a, b))
  {
  }

  /**
   * `CompareValues`: the node's own `valueType` chooses which field of the
   * variable is read, whatever the variable's declared type. Strings only
   * know `Equal`; every other operator means "not equal". Vector and
   * reference types never match.
   */
  function CompareValues(cfg: CheckConfig, v: BB.BlackboardVariable): (r: bool)
    ensures cfg.valueType == BB.Bool ==> (r <==> v.boolValue == cfg.compareBoolValue)
    ensures cfg.valueType == BB.Int ==> (r <==> CompareInt(cfg.comparison, v.intValue, cfg.compareIntValue))
    ensures cfg.valueType == BB.String ==>
      (r <==> (cfg.comparison == Equal <==> v.stringValue == cfg.compareStringValue))
    ensures cfg.valueType !in {BB.Bool, BB.Int, BB.Float, BB.String} ==> !r
  {
    match cfg.valueType
    case Bool => v.boolValue == cfg.compareBoolValue
    case Int => CompareInt(cfg.comparison, v.intValue, cfg.compareIntValue)
    case Float => CompareNumeric(cfg.comparison, v.floatValue, cfg.compareFloatValue)
    case String =>
      if cfg.comparison == Equal then v.stringValue == cfg.compareStringValue
      else v.stringValue != cfg.compareStringValue
    case _ => false
  }

  /**
   * The outcome of a `CheckBlackboardNode`: `Failure` without a variable
   * name, without a blackboard or when the variable is missing; otherwise
   * the comparison decides.
   */
  function CheckOutcome(cfg: CheckConfig, bb: Option<BB.BlackboardData>): (r: ND.NodeState)
    ensures r == ND.Success || r == ND.Failure
    ensures r == ND.Success <==>
      && cfg.variableName != ""
      && bb.Some?
      && BB.HasVariable(bb.value, cfg.variableName)
      && CompareValues(cfg, BB.GetVariable(bb.value, cfg.variableName).value)
  {
    if cfg.variableName == "" || bb.None? then ND.Failure
    else match BB.GetVariable(bb.value, cfg.variableName)
      case None => ND.Failure
      case Some(v) => if CompareValues(cfg, v) then ND.Success else ND.Failure
  }

  /** A check succeeds exactly when it is re-run on a blackboard that agrees on the variable. */
  lemma CheckOutcomeDependsOnlyOnVariable(cfg: CheckConfig, b1: BB.BlackboardData, b2: BB.BlackboardData)
    requires BB.GetVariable(b1, cfg.variableName) == BB.GetVariable(b2, cfg.variableName)
    ensures CheckOutcome(cfg, Some(b1)) == CheckOutcome(cfg, Some(b2))
  {
  }

  // ---- The watched condition of a ConditionalAbortNode ----

  /**
   * How the watched value is read as a truth value: a bool is itself, an
   * int or float must be positive, and anything else counts when it is not `null`.
   */
  predicate Truthy(value: Option<BB.Boxed>) {
    match value
    case None => false
    case Some(BInt(i)) => i > 0
    case Some(BFloat(f)) => f > 0.0
    case Some(BBool(b)) => b
    case Some(_) => true
  }

  /** The condition and the value it read (the new `lastWatchedValue`, unchanged when nothing is read). */
  datatype Watch = Watch(met: bool, lastWatched: Option<BB.Boxed>)

  /**
   * `EvaluateCondition`: true without a watched variable or without a
   * blackboard; otherwise the variable's current value is recorded and
   * tested. A missing variable reads as `null`.
   */
  function EvaluateCondition(bb: Option<BB.BlackboardData>, watched: string, lastWatched: Option<BB.Boxed>): (r: Watch)
    ensures watched == "" || bb.None? ==> r == Watch(true, lastWatched)
    ensures watched != "" && bb.Some? ==>
      var cur := match BB.GetVariable(bb.value, watched)
        case None => None
        case Some(v) => BB.GetValue(v);
      r == Watch(Truthy(cur), cur)
  {
    if watched == "" || bb.None? then Watch(true, lastWatched)
    else
      var cur := match BB.GetVariable(bb.value, watched)
        case None => None
        case Some(v) => BB.GetValue(v);
      Watch(Truthy(cur), cur)
  }

  /** A watched bool variable is the condition itself; a missing one makes it false. */
  lemma WatchedBoolIsCondition(bb: BB.BlackboardData, watched: string, last: Option<BB.Boxed>)
    requires watched != ""
    ensures !BB.HasVariable(bb, watched) ==> !EvaluateCondition(Some(bb), watched, last).met
    ensures BB.HasVariable(bb, watched) && BB.GetVariable(bb, watched).value.valueType == BB.Bool ==>
      EvaluateCondition(Some(bb), watched, last).met == BB.GetVariable(bb, watched).value.boolValue
  {
  }

  // ---- The comparison as the source writes it ----

  /** `0x100_0000`: floats carry 24 significant bits. */
  const FloatSignificand: int := 0x100_0000

  /** The power of two that is the spacing of floats near `n` (at least 1). */
  function Spacing(n: nat, ulp: nat): (r: nat)
    requires ulp >= 1
    ensures r >= ulp && n < FloatSignificand * r
    decreases n - ulp
  {
    if n < FloatSignificand * ulp then ulp else Spacing(n, 2 * ulp)
  }

  /**
   * The value of `(float)n` for a non-negative integer: round to the nearest
   * multiple of the spacing, ties to the even multiple.
   */
  function RoundToFloat(n: nat): (r: nat)
    ensures n <= FloatSignificand ==> r == n
  {
    var u := Spacing(n, 1);
    assert n < FloatSignificand ==> u == 1;
    assert n == FloatSignificand ==> u == 2 by {
      if n == FloatSignificand { assert Spacing(n, 2) == 2; }
    }
    var q := n / u;
    var rem := n % u;
    assert n <= FloatSignificand ==> rem == 0 && q * u == n;
    if 2 * rem > u || (2 * rem == u && q % 2 == 1) then (q + 1) * u else q * u
  }

  /** `(float)i` for a 32-bit `int`: rounding is symmetric about zero. */
  function ToFloat(i: int): (r: int)
    ensures -FloatSignificand <= i <= FloatSignificand ==> r == i
  {
    if i < 0 then -(RoundToFloat(-i) as int) else RoundToFloat(i)
  }

  function Abs(x: real): real { if x < 0.0 then -x else x }
  function Max(x: real, y: real): real { if x < y then y else x }

  /** Eight times the smallest positive float (2^-149), rounded up in its last printed digit. */
  const EightEpsilon: real := 0.000000000000000000000000000000000000000000011210388

  /**
   * Unity's `Mathf.Approximately`: the difference is below one millionth of
   * the larger magnitude, or below eight times the smallest float. The
   * tolerance is computed here in exact arithmetic.
   */
  predicate Approximately(a: real, b: real) {
    Abs(b - a) < Max(0.000001 * Max(Abs(a), Abs(b)), EightEpsilon)
  }

  /** `CompareNumeric(float a, float b)` as written: `Equal` and `NotEqual` are approximate. */
  function CompareNumericAsWritten(op: ComparisonOperator, a: real, b: real): bool {
    match op
    case Equal => Approximately(a, b)
    case NotEqual => !Approximately(a, b)
    case GreaterThan => a > b
    case LessThan => a < b
    case GreaterOrEqual => a >= b
    case LessOrEqual => a <= b
  }

  /** The `Int` branch as written: both ints are converted to float before comparing. */
  function CompareIntAsWritten(op: ComparisonOperator, a: int, b: int): bool {
    CompareNumericAsWritten(op, ToFloat(a) as real, ToFloat(b) as real)
  }

  /** Two distinct ints around two million are reported equal by the approximate test. */
  lemma ApproximateEqualityMergesInts()
    ensures CompareIntAsWritten(Equal, 2000000, 2000001)
    ensures !CompareIntAsWritten(NotEqual, 2000000, 2000001)
    ensures !CompareInt(Equal, 2000000, 2000001)
  {
  }

  /** Above 2^24 the conversion to float merges neighbours, so `>` misses a real difference. */
  lemma FloatConversionHidesOrder()
    ensures ToFloat(16777217) == 16777216
    ensures !CompareIntAsWritten(GreaterThan, 16777217, 16777216)
    ensures CompareInt(GreaterThan, 16777217, 16777216)
  {
    assert Spacing(16777217, 1) == 2 by {
      assert Spacing(16777217, 2) == 2;
    }
  }

  /**
   * Where the two agree: for the ordering operators on ints of magnitude at
   * most 2^24 the conversion is exact, so the comparison as written is the
   * intended one.
   */
  lemma CompareIntAgreesOnSmallInts(op: ComparisonOperator, a: int, b: int)
    requires -FloatSignificand <= a <= FloatSignificand && -FloatSignificand <= b <= FloatSignificand
    requires op != Equal && op != NotEqual
    ensures CompareIntAsWritten(op, a, b) == CompareInt(op, a, b)
  {
  }
}
