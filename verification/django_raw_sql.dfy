/** The Django raw-SQL inspection: a call to `RawSQL`, `raw` or `execute` in a file that
    imports Django, whose first argument is a string literal, gets one finding for each
    leading `%s` placeholder wrapped in single quotes. */
module DjangoRawSql {
  import opened Wrappers
  import opened Psi
  import opened DjangoHelpers

  /** The callee names the inspection reacts to. */
  const MethodNames: seq<string> := ["RawSQL", "raw", "execute"]

  /** The gates before the scan: a listed callee name, a Python file importing Django,
      and a string literal as first argument. */
  predicate Gated(call: Call) {
    && call.calleeName.Some? && call.calleeName.value in MethodNames
    && call.file.isPyFile && call.file.importsDjango
    && |call.arguments| > 0 && call.arguments[0].StringLiteral?
  }

  /** A placeholder with a single quote on each side, both inside the string. */
  predicate SingleQuoted(s: string, p: int) {
    0 < p && p + 3 <= |s| && s[p - 1] == '\'' && s[p + 2] == '\''
  }

  /** The loop over the placeholders `ps`: each one that passes both single-quote tests
      registers a finding; the first that fails a test, or throws, returns. */
  function SingleQuotedRun(s: string, ps: seq<nat>): (n: nat)
    ensures n <= |ps|
    ensures forall j :: 0 <= j < n ==> SingleQuoted(s, ps[j])
    ensures n < |ps| ==> !SingleQuoted(s, ps[n])
  {
    if |ps| == 0 then 0
    else if QuotedBy(s, ps[0], '\'') != Some(true) then 0
    else
      var n := SingleQuotedRun(s, ps[1..]);
      assert forall j :: 1 <= j < |ps| ==> ps[j] == ps[1..][j - 1];
      1 + n
  }

  /** `visitPyCallExpression`: the findings registered for one call. */
  function Inspect(call: Call): (findings: seq<Finding>)
    ensures forall k :: 0 <= k < |findings| ==> findings[k] == Plain(DjangoRawSql)
    ensures !Gated(call) ==> findings == []
    ensures Gated(call) ==>
      var s := call.arguments[0].value;
      && |findings| <= |Placeholders(s)|
      && (forall j :: 0 <= j < |findings| ==> SingleQuoted(s, Placeholders(s)[j]))
      && (|findings| < |Placeholders(s)| ==> !SingleQuoted(s, Placeholders(s)[|findings|]))
  {
    if !Gated(call) then []
    else
      var s := call.arguments[0].value;
      seq(SingleQuotedRun(s, Placeholders(s)), _ => Plain(DjangoRawSql))
  }

  /** Whenever the raw-SQL inspection reports, the shared `inspectStatement` test holds
      for the same first argument: a single-quoted first placeholder makes it return
      true at once. */
  lemma FindingsImplyInspectStatement(call: Call)
    requires |Inspect(call)| > 0
    ensures InspectStatement(call.arguments[0])
  {
    var s := call.arguments[0].value;
    var ps := Placeholders(s);
    assert SingleQuoted(s, ps[0]);
    assert PlaceholderStep(s, ps[0]) == ReturnTrue;
  }

  /** Only single quotes count: a first placeholder in double quotes gives no finding,
      although `inspectStatement` flags the same literal. */
  lemma DoubleQuotedFirstPlaceholder(call: Call, i: nat)
    requires Gated(call)
    requires var s := call.arguments[0].value;
      QuotedPlaceholder(s, i) && s[i - 1] == '"' && forall p :: 0 <= p < i ==> !IsPlaceholderAt(s, p)
    ensures Inspect(call) == []
    ensures InspectStatement(call.arguments[0])
  {
    var s := call.arguments[0].value;
    var ps := Placeholders(s);
    assert i in ps;
    assert ps[0] == i by {
      var j :| 0 <= j < |ps| && ps[j] == i;
      assert ps[0] <= ps[j] && IsPlaceholderAt(s, ps[0]);
    }
    assert FirstQuoted(s, i);
    FirstQuotedIsFlagged(s, i);
  }
}
