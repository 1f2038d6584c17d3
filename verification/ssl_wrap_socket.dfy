/** The `ssl.wrap_socket` inspection: a call without arguments, without an `ssl_version`
    keyword (before Python 3.6), or with `ssl_version=None` gets a no-version finding;
    `ssl_version` naming a protocol from the bad-protocol list gets a bad-protocol
    finding. The bad-protocol list is defined outside this model and is a parameter. */
module SslWrapSocket {
  import opened Wrappers
  import opened Psi

  /** `getKeywordArgument(keyword)`: the value of the first keyword argument with that
      keyword, or `None`. */
  function KeywordArgumentValue(arguments: seq<Expr>, keyword: string): (r: Option<Expr>)
    ensures r.None? <==> forall k :: 0 <= k < |arguments| ==> !(arguments[k].KeywordArgument? && arguments[k].keyword == keyword)
    ensures r.Some? ==> exists k :: (0 <= k < |arguments| && arguments[k] == KeywordArgument(keyword, r.value) &&
      forall l :: 0 <= l < k ==> !(arguments[l].KeywordArgument? && arguments[l].keyword == keyword))
  {
    if |arguments| == 0 then None
    else if arguments[0].KeywordArgument? && arguments[0].keyword == keyword then Some(arguments[0].argument)
    else
      var r := KeywordArgumentValue(arguments[1..], keyword);
      assert forall k :: 1 <= k < |arguments| ==> arguments[k] == arguments[1..][k - 1];
      assert r.Some? ==> exists k :: (0 <= k < |arguments| - 1 && arguments[1..][k] == KeywordArgument(keyword, r.value) &&
        forall l :: 0 <= l < k ==> !(arguments[1..][l].KeywordArgument? && arguments[1..][l].keyword == keyword));
      r
  }

  /** `asQualifiedName().toString()`: the dotted name, or Kotlin's `"null"` for a
      reference without one. */
  function QualifiedNameText(qualifiedName: Option<string>): string {
    match qualifiedName
    case Some(name) => name
    case None => "null"
  }

  /** The gates: outside docstrings, the callee is `wrap_socket` and resolves to
      `ssl.wrap_socket`. */
  predicate Gated(call: Call) {
    !call.inDocstring && call.calleeName == Some("wrap_socket") && call.qualifiedName == Some("ssl.wrap_socket")
  }

  /** Python 3.6 and later default to a secure protocol. */
  predicate HasSecureDefaults(file: File) {
    file.isPyFile && IsAtLeast(file.level, Python36)
  }

  /** `ssl_version` names a protocol from the bad-protocol list. */
  predicate NamesBadProtocol(version: Option<Expr>, badProtocols: seq<string>) {
    version.Some? && version.value.Reference? && QualifiedNameText(version.value.qualifiedName) in badProtocols
  }

  /** `visitPyCallExpression`: the findings registered for one call, in order. */
  function Inspect(call: Call, badProtocols: seq<string>): (findings: seq<Finding>)
    ensures !Gated(call) ==> findings == []
    ensures |findings| <= 2
    ensures forall k :: 0 <= k < |findings| ==>
      findings[k] == Plain(SslWrapSocketNoVersion) || findings[k] == Plain(SslBadProtocols)
    ensures Gated(call) ==>
      var version := KeywordArgumentValue(call.arguments, "ssl_version");
      && (Plain(SslBadProtocols) in findings <==> NamesBadProtocol(version, badProtocols))
      && (Plain(SslWrapSocketNoVersion) in findings <==>
            |call.arguments| == 0 || (version.None? && !HasSecureDefaults(call.file)) || version == Some(NoneLiteral))
    ensures Gated(call) ==>
      var version := KeywordArgumentValue(call.arguments, "ssl_version");
      version.Some? && version.value.Reference? ==>
        findings == (if NamesBadProtocol(version, badProtocols) then [Plain(SslBadProtocols)] else [])
  {
    if !Gated(call) then []
    else
      var version := KeywordArgumentValue(call.arguments, "ssl_version");
      var secure := call.file.isPyFile && IsAtLeast(call.file.level, Python36);
      (if |call.arguments| == 0 then [Plain(SslWrapSocketNoVersion)] else [])
      + (if version.None? && !secure then [Plain(SslWrapSocketNoVersion)] else [])
      + (if version == Some(NoneLiteral) then [Plain(SslWrapSocketNoVersion)] else [])
      + (match version
         case Some(Reference(_, qualifiedName)) =>
           if QualifiedNameText(qualifiedName) in badProtocols then [Plain(SslBadProtocols)] else []
         case _ => [])
  }

  /** A call without arguments is reported once, and once more unless the file has
      secure defaults. */
  lemma NoArgumentsReported(call: Call, badProtocols: seq<string>)
    requires Gated(call) && call.arguments == []
    ensures |Inspect(call, badProtocols)| == if HasSecureDefaults(call.file) then 1 else 2
  {
  }

  /** With arguments but no `ssl_version`, there is one finding iff the file lacks secure
      defaults. */
  lemma MissingVersionReported(call: Call, badProtocols: seq<string>)
    requires Gated(call) && call.arguments != [] && KeywordArgumentValue(call.arguments, "ssl_version").None?
    ensures Inspect(call, badProtocols) == if HasSecureDefaults(call.file) then [] else [Plain(SslWrapSocketNoVersion)]
  {
  }

  /** `ssl_version=None` is reported once whatever the language level. */
  lemma NoneVersionReported(call: Call, badProtocols: seq<string>)
    requires Gated(call) && KeywordArgumentValue(call.arguments, "ssl_version") == Some(NoneLiteral)
    ensures Inspect(call, badProtocols) == [Plain(SslWrapSocketNoVersion)]
  {
    var k :| 0 <= k < |call.arguments| && call.arguments[k] == KeywordArgument("ssl_version", NoneLiteral);
  }

  /** A reference that does not resolve to a qualified name reads as the text `"null"`,
      so it is reported exactly when the bad-protocol list holds that text. */
  lemma UnresolvedReferenceReadsAsNull(call: Call, name: Option<string>, badProtocols: seq<string>)
    requires Gated(call) && KeywordArgumentValue(call.arguments, "ssl_version") == Some(Reference(name, None))
    ensures Inspect(call, badProtocols) == if "null" in badProtocols then [Plain(SslBadProtocols)] else []
  {
  }

  /** Moving to a later language level never adds findings. */
  lemma LaterLevelNeverAddsFindings(call: Call, level: LanguageLevel, badProtocols: seq<string>)
    requires IsAtLeast(level, call.file.level)
    ensures |Inspect(call.(file := call.file.(level := level)), badProtocols)| <= |Inspect(call, badProtocols)|
  {
  }
}
