/**
 Validation of a point cloud's field table (`checkFields`): the table must
 hold at least three fields and the first three must be named "x", "y" and
 "z", in that order. Each failure is an `invalid_argument` exception in the
 C++; here it is a `Fail` outcome carrying what the message reports.
 */
module Fields {
  import opened Messages

  /** The reason `checkFields` gives when it throws `invalid_argument`. */
  datatype FieldError =
    | WrongNumberOfFields(count: nat)         // "Wrong number of fields. Expected at least 3, got <n>."
    | WrongField(expected: string, found: string) // "Wrong field. Expected \"<e>\", got \"<g>\"."

  datatype Outcome = Pass | Fail(error: FieldError)

  /** The name required at position `k` of the field table. */
  function AxisName(k: nat): string
    requires k < 3
  {
    if k == 0 then "x" else if k == 1 then "y" else "z"
  }

  /** The field table starts with x, y, z in that order; later fields are free. */
  predicate HasXyzPrefix(fields: seq<PointField>)
  {
    |fields| >= 3 && forall k :: 0 <= k < 3 ==> fields[k].name == AxisName(k)
  }

  /** Position `k` is the earliest of positions 0, 1, 2 whose name is wrong. */
  predicate IsFirstMismatch(fields: seq<PointField>, k: nat)
  {
    k < 3 && k < |fields| && fields[k].name != AxisName(k)
    && forall j :: 0 <= j < k ==> fields[j].name == AxisName(j)
  }

  /**
   `checkFields`: too few fields are reported first; otherwise the earliest
   misnamed position among 0, 1, 2 is reported with its expected and actual
   name; a table that passes is exactly one with an x, y, z prefix.
   */
  function CheckFields(fields: seq<PointField>): (r: Outcome)
    ensures r == Pass <==> HasXyzPrefix(fields)
    ensures r == Fail(WrongNumberOfFields(|fields|)) <==> |fields| < 3
    ensures r.Fail? && |fields| >= 3 ==>
      exists k: nat :: IsFirstMismatch(fields, k) && r.error == WrongField(AxisName(k), fields[k].name)
  {
    if |fields| < 3 then
      Fail(WrongNumberOfFields(|fields|))
    else if fields[0].name != "x" then
      assert IsFirstMismatch(fields, 0);
      Fail(WrongField("x", fields[0].name))
    else if fields[1].name != "y" then
      assert IsFirstMismatch(fields, 1);
      Fail(WrongField("y", fields[1].name))
    else if fields[2].name != "z" then
      assert IsFirstMismatch(fields, 2);
      Fail(WrongField("z", fields[2].name))
    else
      Pass
  }

  /** Only the names of the first three fields decide the verdict. */
  lemma LaterFieldsIgnored(fields: seq<PointField>, other: seq<PointField>)
    requires |fields| >= 3 && |other| >= 3
    requires forall k :: 0 <= k < 3 ==> fields[k].name == other[k].name
    ensures CheckFields(fields) == CheckFields(other)
  {
  }

  /** At most one position is the first mismatch, so the report is unambiguous. */
  lemma FirstMismatchUnique(fields: seq<PointField>, k: nat, k': nat)
    requires IsFirstMismatch(fields, k) && IsFirstMismatch(fields, k')
    ensures k == k'
  {
  }
}
