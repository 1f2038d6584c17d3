/** The parts of the Python syntax tree, and of the editor's problem list, that the
    inspections look at. Each inspection reads a node's facts (its callee name, its
    resolved qualified name, its arguments, its containing file) and reports findings. */
module Psi {
  import opened Wrappers

  /** An expression, as far as the inspections tell expressions apart. */
  datatype Expr =
    | StringLiteral(value: string)
    | NoneLiteral
    | Reference(name: Option<string>, qualifiedName: Option<string>)
    | ListLiteral(elements: seq<Expr>)
    | KeywordArgument(keyword: string, argument: Expr)
    | OtherExpr

  /** A Python language level such as 3.6. */
  datatype LanguageLevel = LanguageLevel(major: nat, minor: nat)

  /** `level.isAtLeast(other)`. */
  predicate IsAtLeast(level: LanguageLevel, other: LanguageLevel) {
    level.major > other.major || (level.major == other.major && level.minor >= other.minor)
  }

  /** The first level whose `ssl` module defaults to a secure protocol. */
  const Python36 := LanguageLevel(3, 6)

  /** The containing file of a node: its name, whether it is a Python file, its language
      level, and whether it imports a module under the `django` namespace. */
  datatype File = File(name: string, isPyFile: bool, level: LanguageLevel, importsDjango: bool)

  /** A call expression. `calleeName` is the callee's name, `None` when there is no
      callee or it has no name; `qualifiedName` is the callee's resolved qualified name. */
  datatype Call = Call(inDocstring: bool, file: File, calleeName: Option<string>,
                       qualifiedName: Option<string>, arguments: seq<Expr>)

  /** The checks whose descriptions the inspections register. */
  datatype Check =
    | DjangoRawSql
    | PickleLoad
    | SslWrapSocketNoVersion
    | SslBadProtocols
    | TimingAttack
    | DjangoCsrfMiddleware
    | DjangoClickjackMiddleware
    | TryExceptContinue

  /** The quick fixes attached to findings. */
  datatype Fix = AddMiddleware(path: string) | UseCompareDigest

  /** How a finding is highlighted. */
  datatype Highlight = Default | WeakWarning

  /** Where a finding is registered: on the visited node, or on one of its except parts. */
  datatype Location = OnNode | OnExceptPart(index: nat)

  /** One registered problem. */
  datatype Finding = Finding(check: Check, at: Location, fix: Option<Fix>, highlight: Highlight)

  /** A plain finding on the visited node: no fix, default highlighting. */
  function Plain(check: Check): Finding {
    Finding(check, OnNode, None, Default)
  }
}
