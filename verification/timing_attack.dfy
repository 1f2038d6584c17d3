/** The timing-attack inspection: an `==` or `!=` comparison with a password-like
    variable on either side gets one finding per such side, each offering the
    `hmac.compare_digest` fix. The list of password-like names is defined outside this
    model and is a parameter. */
module TimingAttack {
  import opened Wrappers
  import opened Psi

  /** A binary expression: its operator text and its operands, `None` when missing. */
  datatype BinaryExpr = BinaryExpr(operator: string, left: Option<Expr>, right: Option<Expr>)

  /** `looksLikeAPassword`: a reference whose name is one of the listed names. */
  predicate LooksLikeAPassword(e: Expr, passwordNames: seq<string>) {
    e.Reference? && e.name.Some? && e.name.value in passwordNames
  }

  /** The finding for one password-like operand. */
  const Warning: Finding := Finding(TimingAttack, OnNode, Some(UseCompareDigest), Default)

  /** `visitPyBinaryExpression`: the findings registered for one comparison, the right
      operand's before the left operand's. */
  function Inspect(b: BinaryExpr, passwordNames: seq<string>): (findings: seq<Finding>)
    ensures forall k :: 0 <= k < |findings| ==> findings[k] == Warning
    ensures b.right.None? || b.left.None? || (b.operator != "==" && b.operator != "!=") ==> findings == []
    ensures b.right.Some? && b.left.Some? && (b.operator == "==" || b.operator == "!=") ==>
      |findings| == (if LooksLikeAPassword(b.right.value, passwordNames) then 1 else 0)
                  + (if LooksLikeAPassword(b.left.value, passwordNames) then 1 else 0)
  {
    match (b.right, b.left)
    case (Some(right), Some(left)) =>
      if b.operator != "==" && b.operator != "!=" then []
      else
        (if LooksLikeAPassword(right, passwordNames) then [Warning] else [])
        + (if LooksLikeAPassword(left, passwordNames) then [Warning] else [])
    case _ => []
  }

  /** Swapping the operands of a comparison does not change its findings. */
  lemma InspectSymmetric(b: BinaryExpr, passwordNames: seq<string>)
    ensures Inspect(BinaryExpr(b.operator, b.right, b.left), passwordNames) == Inspect(b, passwordNames)
  {
  }

  /** Membership, not substring: with `password` listed, `password_hash == x` is not
      flagged, `password == x` is, and `password == password` is flagged twice. */
  lemma MembershipNotSubstring()
    ensures Inspect(BinaryExpr("==", Some(Reference(Some("password_hash"), None)), Some(OtherExpr)), ["password"]) == []
    ensures |Inspect(BinaryExpr("==", Some(Reference(Some("password"), None)), Some(OtherExpr)), ["password"])| == 1
    ensures |Inspect(BinaryExpr("!=", Some(Reference(Some("password"), None)), Some(Reference(Some("password"), None))), ["password"])| == 2
    ensures Inspect(BinaryExpr("<", Some(Reference(Some("password"), None)), Some(OtherExpr)), ["password"]) == []
  {
    assert "password_hash" != "password";
  }
}
