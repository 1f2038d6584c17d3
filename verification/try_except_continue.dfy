/** The try/except/continue inspection: outside test files, each except part that catches
    everything (no class, or `Exception`) and whose body is only `continue` statements and
    comments gets a weak warning of its own. */
module TryExceptContinue {
  import opened Wrappers
  import opened Strings
  import opened Psi

  /** A statement of an except body, as far as the inspection tells them apart. */
  datatype Stmt = ContinueStmt | CommentStmt | OtherStmt

  /** A child node of an except part. */
  datatype PartChild = StatementList(statements: seq<Stmt>) | OtherChild

  /** An except part: its children and the text of its exception class, if any. */
  datatype ExceptPart = ExceptPart(children: seq<PartChild>, exceptClass: Option<string>)

  /** A try statement with its except parts. */
  datatype TryExcept = TryExcept(inDocstring: bool, file: File, exceptParts: seq<ExceptPart>)

  /** The first statement-list child, `children.filterIsInstance<PyStatementList>()`
      followed by `first()`, or `None` when there is none. */
  function FirstStatementList(children: seq<PartChild>): (r: Option<seq<Stmt>>)
    ensures r.None? <==> forall k :: 0 <= k < |children| ==> !children[k].StatementList?
    ensures r.Some? ==> exists k :: (0 <= k < |children| && children[k] == StatementList(r.value) &&
      forall l :: 0 <= l < k ==> !children[l].StatementList?)
  {
    if |children| == 0 then None
    else if children[0].StatementList? then Some(children[0].statements)
    else
      var r := FirstStatementList(children[1..]);
      assert forall k :: 1 <= k < |children| ==> children[k] == children[1..][k - 1];
      assert r.Some? ==> exists k :: (0 <= k < |children| - 1 && children[1..][k] == StatementList(r.value) &&
        forall l :: 0 <= l < k ==> !children[1..][l].StatementList?);
      r
  }

  /** `statements.any { it !is PyContinueStatement && it !is PsiComment }`. */
  function HasOtherStatement(statements: seq<Stmt>): (r: bool)
    ensures r <==> exists k :: 0 <= k < |statements| && statements[k] == OtherStmt
  {
    if |statements| == 0 then false
    else statements[0] == OtherStmt || HasOtherStatement(statements[1..])
  }

  /** The reference reading of a part the inspection flags: its first statement-list
      child holds only `continue` statements and comments, and it catches everything. */
  predicate CatchesAndContinues(part: ExceptPart) {
    && (exists k :: 0 <= k < |part.children| && part.children[k].StatementList?
         && (forall l :: 0 <= l < k ==> !part.children[l].StatementList?)
         && forall m :: 0 <= m < |part.children[k].statements| ==> part.children[k].statements[m] != OtherStmt)
    && (part.exceptClass.None? || part.exceptClass == Some("Exception"))
  }

  /** The loop body for one part, as the source writes it: skip a part without children,
      without a statement list, or with another kind of statement in the first list;
      otherwise flag it when it has no class or the class text is `Exception`. */
  function Flagged(part: ExceptPart): (r: bool)
    ensures r <==> CatchesAndContinues(part)
  {
    if |part.children| == 0 then false
    else
      match FirstStatementList(part.children)
      case None => false
      case Some(statements) =>
        if HasOtherStatement(statements) then false
        else part.exceptClass.None? || part.exceptClass.value == "Exception"
  }

  /** The weak warning registered on the except part at `index`. */
  function Warning(index: nat): Finding {
    Finding(TryExceptContinue, OnExceptPart(index), None, WeakWarning)
  }

  /** The findings are exactly the weak warnings of the listed parts, in part order. */
  predicate WarnsExactly(findings: seq<Finding>, parts: seq<ExceptPart>, upTo: nat)
    requires upTo <= |parts|
  {
    && (forall j :: 0 <= j < |findings| ==>
          findings[j].at.OnExceptPart? && findings[j].at.index < upTo && findings[j] == Warning(findings[j].at.index)
          && CatchesAndContinues(parts[findings[j].at.index]))
    && (forall j, l :: 0 <= j < l < |findings| ==> findings[j].at.index < findings[l].at.index)
    && (forall k :: 0 <= k < upTo && CatchesAndContinues(parts[k]) ==> Warning(k) in findings)
  }

  /** `visitPyTryExceptStatement`: the findings registered for one try statement. */
  method Inspect(t: TryExcept) returns (findings: seq<Finding>)
    ensures t.inDocstring || Contains(t.file.name, "test") ==> findings == []
    ensures !t.inDocstring && !Contains(t.file.name, "test") ==> WarnsExactly(findings, t.exceptParts, |t.exceptParts|)
  {
    findings := [];
    if t.inDocstring || Contains(t.file.name, "test") || |t.exceptParts| == 0 {
      return;
    }
    var k := 0;
    while k < |t.exceptParts|
      invariant 0 <= k <= |t.exceptParts|
      invariant WarnsExactly(findings, t.exceptParts, k)
    {
      if Flagged(t.exceptParts[k]) {
        findings := findings + [Warning(k)];
      }
      k := k + 1;
    }
  }

  /** An empty first statement list is vacuously eligible; a named class other than
      `Exception` is not flagged, and neither is a body that does more than continue. */
  lemma FlaggedExamples()
    ensures Flagged(ExceptPart([OtherChild, StatementList([])], None))
    ensures Flagged(ExceptPart([StatementList([CommentStmt, ContinueStmt])], Some("Exception")))
    ensures !Flagged(ExceptPart([StatementList([ContinueStmt])], Some("ValueError")))
    ensures !Flagged(ExceptPart([StatementList([ContinueStmt, OtherStmt])], None))
    ensures !Flagged(ExceptPart([OtherChild], None))
  {
    assert [OtherChild, StatementList([])][1] == StatementList([]);
  }
}
