/** `compareValues` (content.js): the comparator between an element's value and a target. */
module Comparator {
  import opened JsStrings
  import opened Dom

  /** A condition's `operator`; `UnknownOperator` stands for every other string. */
  datatype Operator = Equals | NotEquals | Contains | UnknownOperator

  /** `checkSingle`: one trimmed string against the trimmed target. */
  predicate CheckSingle(val: string, op: Operator, target: string): (r: bool)
    ensures op == UnknownOperator ==> !r
    ensures op == Contains && Trim(val) == target ==> r
  {
    var v := Trim(val);
    IncludesItself(v);
    match op
    case Equals => v == target
    case NotEquals => v != target
    case Contains => Includes(v, target)
    case UnknownOperator => false
  }

  /**
   * `compareValues(actual, op, target)`. A SELECT's record is tested on its
   * value and on its caption: `not_equals` needs both to differ, the other
   * operators need one of them to match.
   */
  predicate Compare(actual: Value, op: Operator, target: Value): (r: bool)
    ensures op == UnknownOperator ==> !r
    ensures actual.Dual? && op == NotEquals && r ==> Trim(actual.value) != Trim(JsString(target))
    ensures actual.Dual? && op != NotEquals && Trim(actual.value) == Trim(JsString(target)) && op != UnknownOperator ==> r
  {
    var t := Trim(JsString(target));
    match actual
    case Dual(v, x) =>
      var valueMatch := CheckSingle(v, op, t);
      var textMatch := CheckSingle(x, op, t);
      if op == NotEquals then valueMatch && textMatch else valueMatch || textMatch
    case _ => CheckSingle(JsString(actual), op, t)
  }

  /** The comparison on a plain value, stated on the trimmed strings. */
  lemma ComparePlain(a: string, op: Operator, target: Value)
    ensures Compare(Str(a), op, target) <==> match op
      case Equals => Trim(a) == Trim(JsString(target))
      case NotEquals => Trim(a) != Trim(JsString(target))
      case Contains => exists i :: OccursAt(Trim(a), Trim(JsString(target)), i)
      case UnknownOperator => false
  {
    IncludesIsSubstring(Trim(a), Trim(JsString(target)));
  }

  /** An unknown operator never holds, whatever the values. */
  lemma UnknownOperatorFails(actual: Value, target: Value)
    ensures !Compare(actual, UnknownOperator, target)
  {
  }

  /**
   * The OR of `equals` and the AND of `not_equals` on a SELECT's two parts
   * make `not_equals` the exact negation of `equals`, for every value.
   */
  lemma NotEqualsNegatesEquals(actual: Value, target: Value)
    ensures Compare(actual, NotEquals, target) <==> !Compare(actual, Equals, target)
  {
  }

  /** A SELECT matches with `equals` or `contains` when its value or its caption does. */
  lemma DualMatchesEitherPart(v: string, x: string, op: Operator, target: Value)
    requires op in {Equals, Contains}
    ensures Compare(Dual(v, x), op, target) <==> Compare(Str(v), op, target) || Compare(Str(x), op, target)
  {
  }

  /** A SELECT is `not_equals` a target only when neither its value nor its caption equals it. */
  lemma DualNotEqualsNeedsBothParts(v: string, x: string, target: Value)
    ensures Compare(Dual(v, x), NotEquals, target)
        <==> !Compare(Str(v), Equals, target) && !Compare(Str(x), Equals, target)
  {
  }

  /** Every value that is `equals` a target also `contains` it. */
  lemma EqualsImpliesContains(actual: Value, target: Value)
    requires Compare(actual, Equals, target)
    ensures Compare(actual, Contains, target)
  {
    IncludesItself(Trim(JsString(target)));
  }

  /** Surrounding white space on either side never changes a comparison. */
  lemma CompareIgnoresPadding(a: string, op: Operator, t: string)
    ensures Compare(Str(Trim(a)), op, Str(Trim(t))) == Compare(Str(a), op, Str(t))
  {
    TrimIdempotent(a);
    TrimIdempotent(t);
  }

  /** "Label A" and "Lab" are left as they are by `trim`, and the first contains the second. */
  lemma ExampleStrings()
    ensures Trim("Label A") == "Label A" && Trim("Lab") == "Lab" && Trim("v1") == "v1"
    ensures Includes("Label A", "Lab") && !Includes("v1", "Lab")
  {
    var caption, lab, v1 := "Label A", "Lab", "v1";
    assert !IsSpace(caption[0]) && !IsSpace(caption[|caption| - 1]);
    TrimFixedPoints(caption);
    assert !IsSpace(lab[0]) && !IsSpace(lab[|lab| - 1]);
    TrimFixedPoints(lab);
    assert !IsSpace(v1[0]) && !IsSpace(v1[|v1| - 1]);
    TrimFixedPoints(v1);
    assert OccursAt(caption, lab, 0);
  }

  /**
   * A SELECT showing value "v1" with label "Label A": `not_equals "Label A"`
   * fails, `equals "Label A"` holds, `contains "Lab"` holds.
   */
  lemma SelectLabelExample()
    ensures !Compare(Dual("v1", "Label A"), NotEquals, Str("Label A"))
    ensures Compare(Dual("v1", "Label A"), Equals, Str("Label A"))
    ensures Compare(Dual("v1", "Label A"), Contains, Str("Lab"))
  {
    ExampleStrings();
  }
}
