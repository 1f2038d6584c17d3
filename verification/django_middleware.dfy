/** The Django middleware inspection: an assignment `MIDDLEWARE = [...]` in a file named
    `settings.py` gets a finding for each of the CSRF and clickjacking middleware whose
    dotted path is missing from the list's string literals. */
module DjangoMiddleware {
  import opened Wrappers
  import opened Psi

  const CsrfMiddleware: string := "django.middleware.csrf.CsrfViewMiddleware"
  const ClickjackMiddleware: string := "django.middleware.clickjacking.XFrameOptionsMiddleware"

  /** An assignment statement: whether it sits in a docstring, its file, the text of its
      left-hand side and its assigned value, each `None` when absent. */
  datatype Assignment = Assignment(inDocstring: bool, file: Option<File>, leftText: Option<string>,
                                   assignedValue: Option<Expr>)

  /** The string values of the string-literal elements, in order; other elements are
      dropped. */
  function StringValues(elements: seq<Expr>): (r: seq<string>)
    ensures |r| <= |elements|
    ensures forall x :: x in r <==> StringLiteral(x) in elements
  {
    if |elements| == 0 then []
    else
      var rest := StringValues(elements[1..]);
      assert forall e :: e in elements <==> e == elements[0] || e in elements[1..];
      match elements[0]
      case StringLiteral(x) => [x] + rest
      case _ => rest
  }

  /** The gates: outside docstrings, in `settings.py`, assigning a list literal to a
      left-hand side whose text is `MIDDLEWARE`. */
  predicate Gated(a: Assignment) {
    && !a.inDocstring
    && a.file.Some? && a.file.value.name == "settings.py"
    && a.leftText == Some("MIDDLEWARE")
    && a.assignedValue.Some? && a.assignedValue.value.ListLiteral?
  }

  /** The finding for a missing middleware, carrying the fixer that adds it. */
  function Missing(check: Check, path: string): Finding {
    Finding(check, OnNode, Some(AddMiddleware(path)), Default)
  }

  /** `visitPyAssignmentStatement`: the findings registered for one assignment. */
  function Inspect(a: Assignment): (findings: seq<Finding>)
    ensures |findings| <= 2
    ensures !Gated(a) ==> findings == []
    ensures Gated(a) ==>
      var elements := a.assignedValue.value.elements;
      && (Missing(DjangoCsrfMiddleware, CsrfMiddleware) in findings <==> StringLiteral(CsrfMiddleware) !in elements)
      && (Missing(DjangoClickjackMiddleware, ClickjackMiddleware) in findings <==> StringLiteral(ClickjackMiddleware) !in elements)
    ensures forall f :: f in findings ==>
      f == Missing(DjangoCsrfMiddleware, CsrfMiddleware) || f == Missing(DjangoClickjackMiddleware, ClickjackMiddleware)
    ensures |findings| == 2 ==> findings[0].check == DjangoCsrfMiddleware && findings[1].check == DjangoClickjackMiddleware
  {
    if !Gated(a) then []
    else
      var middleware := StringValues(a.assignedValue.value.elements);
      (if CsrfMiddleware !in middleware then [Missing(DjangoCsrfMiddleware, CsrfMiddleware)] else [])
      + (if ClickjackMiddleware !in middleware then [Missing(DjangoClickjackMiddleware, ClickjackMiddleware)] else [])
  }

  /** Applying a finding's fix, adding its path as a string literal anywhere in the list,
      removes that finding and leaves the other one as it was. */
  lemma FixRemovesFinding(a: Assignment, before: seq<Expr>, after: seq<Expr>, check: Check, path: string)
    requires Gated(a) && a.assignedValue.value.elements == before + after
    requires Missing(check, path) in Inspect(a)
    ensures var fixed := a.(assignedValue := Some(ListLiteral(before + [StringLiteral(path)] + after)));
      && Missing(check, path) !in Inspect(fixed)
      && forall f :: f in Inspect(fixed) <==> f in Inspect(a) && f != Missing(check, path)
  {
    var elements := a.assignedValue.value.elements;
    var fixedElements := before + [StringLiteral(path)] + after;
    assert StringLiteral(path) in fixedElements;
    assert forall e :: e != StringLiteral(path) ==> (e in fixedElements <==> e in elements);
  }

  /** A list holding both paths gets no finding; an empty list gets both, CSRF first. */
  lemma CompleteAndEmptyLists(a: Assignment)
    requires Gated(a)
    ensures (StringLiteral(CsrfMiddleware) in a.assignedValue.value.elements &&
             StringLiteral(ClickjackMiddleware) in a.assignedValue.value.elements) ==> Inspect(a) == []
    ensures a.assignedValue.value.elements == [] ==>
      Inspect(a) == [Missing(DjangoCsrfMiddleware, CsrfMiddleware), Missing(DjangoClickjackMiddleware, ClickjackMiddleware)]
  {
  }
}
