/** The advisory-database matcher: parses version-constraint expressions such as
    `"<1.0.0,>=0.5.0"` into clauses and decides whether an installed package version
    satisfies every clause of some advisory record.

    The comparison of an installed version against one clause (PEP 440 ordering) is a
    library call outside this model; it is the parameter `sat`. */
module SafetyDb {
  import opened Wrappers
  import opened Strings
  import Seqs

  /** The eight relations of section "Version specifiers" of PEP 440. */
  datatype Relation = StrEq | Eq | Lte | Gte | Compatible | Ne | Lt | Gt

  /** The operator spelling of each relation (its presentable text). */
  function Operator(r: Relation): string {
    match r
    case StrEq => "==="
    case Eq => "=="
    case Lte => "<="
    case Gte => ">="
    case Compatible => "~="
    case Ne => "!="
    case Lt => "<"
    case Gt => ">"
  }

  /** The three lookup tables the parser consults, longest operators first. */
  const TripleRequirementMap: map<string, Relation> := map["===" := StrEq]
  const DoubleRequirementMap: map<string, Relation> :=
    map["==" := Eq, "<=" := Lte, ">=" := Gte, "~=" := Compatible, "!=" := Ne]
  const SingleRequirementMap: map<string, Relation> := map["<" := Lt, ">" := Gt]

  /** One parsed clause: a relation and the version literal after the operator. */
  datatype VersionSpec = VersionSpec(relation: Relation, version: string)

  /** One advisory of the detailed database; `v` is its combined constraint expression. */
  datatype Record = Record(advisory: string, cve: Option<string>, id: string, specs: seq<string>, v: string)

  /** An installed package as the package manager reports it. */
  datatype Package = Package(name: string, version: string)

  /** The exceptions the matcher lets escape. */
  datatype Fault =
    | StringIndexOutOfBounds  // a clause shorter than three characters reaches `substring(0, 3)`
    | PackageNotInDatabase    // detailed matches requested for a package the database lacks

  /** `sat(relation, literal, installed)`: the installed version satisfies the clause. */
  type VersionMatcher = (Relation, string, string) -> bool

  /** The least index `i >= beginIndex` of a non-whitespace character of `line`, or
      `|line|` when there is none. */
  function FindFirstNotWhiteSpaceAfter(line: string, beginIndex: nat): (i: nat)
    ensures beginIndex <= |line| ==> beginIndex <= i <= |line|
    ensures beginIndex > |line| ==> i == |line|
    ensures forall k :: beginIndex <= k < i ==> IsWhiteSpace(line[k])
    ensures i < |line| ==> !IsWhiteSpace(line[i])
    decreases |line| - beginIndex
  {
    if beginIndex >= |line| then |line|
    else if !IsWhiteSpace(line[beginIndex]) then beginIndex
    else FindFirstNotWhiteSpaceAfter(line, beginIndex + 1)
  }

  /** The operator of `rel` is a prefix of `s`. */
  predicate StartsWithOperator(s: string, rel: Relation) {
    Operator(rel) <= s
  }

  /** `rel` is an operator that starts `s` and no longer operator does. */
  predicate LongestOperator(s: string, rel: Relation) {
    StartsWithOperator(s, rel) &&
    forall other :: StartsWithOperator(s, other) ==> |Operator(other)| <= |Operator(rel)|
  }

  /** At most one relation is the longest operator starting a string, so the parse of a
      clause is determined by its contract. */
  lemma LongestOperatorUnique(s: string, r1: Relation, r2: Relation)
    requires LongestOperator(s, r1) && LongestOperator(s, r2)
    ensures r1 == r2
  {
    assert |Operator(r1)| == |Operator(r2)|;
    assert Operator(r1) == s[..|Operator(r1)|] == Operator(r2);
  }

  /** An operator is a prefix of `s` exactly when `s` starts with its characters. */
  lemma OperatorPrefixes(s: string)
    requires |s| >= 3
    ensures forall rel :: StartsWithOperator(s, rel) <==> s[..|Operator(rel)|] == Operator(rel)
    ensures forall rel :: |Operator(rel)| == 3 <==> rel == StrEq
    ensures forall rel :: |Operator(rel)| == 1 <==> rel == Lt || rel == Gt
  {
    forall rel
      ensures StartsWithOperator(s, rel) <==> s[..|Operator(rel)|] == Operator(rel)
    {
      assert |Operator(rel)| <= 3;
    }
  }

  /** The relation whose operator the table lookups find at the start of `s`, trying
      three-character keys, then two, then one. */
  function LookupRelation(s: string): (r: Option<Relation>)
    requires |s| >= 3
    ensures r.Some? ==> LongestOperator(s, r.value)
    ensures r.None? <==> forall rel :: !StartsWithOperator(s, rel)
  {
    OperatorPrefixes(s);
    if s[..3] in TripleRequirementMap then Some(TripleRequirementMap[s[..3]])
    else if s[..2] in DoubleRequirementMap then Some(DoubleRequirementMap[s[..2]])
    else if s[..1] in SingleRequirementMap then
      assert forall rel :: StartsWithOperator(s, rel) ==> rel == Lt || rel == Gt;
      Some(SingleRequirementMap[s[..1]])
    else
      assert forall rel :: !StartsWithOperator(s, rel) by {
        forall rel ensures !StartsWithOperator(s, rel) {
          assert s[..1] != "<" && s[..1] != ">";
        }
      }
      None
  }

  /** The relation found depends only on the first three characters: `===`, then
      `<=`/`>=` before `<`/`>`, and no relation for a clause that starts with none of
      the operator characters. */
  lemma LookupByLeadingCharacters(s: string)
    requires |s| >= 3
    ensures s[0] == '=' && s[1] == '=' && s[2] == '=' ==> LookupRelation(s) == Some(StrEq)
    ensures s[0] == '<' && s[1] == '=' ==> LookupRelation(s) == Some(Lte)
    ensures s[0] == '>' && s[1] == '=' ==> LookupRelation(s) == Some(Gte)
    ensures s[0] == '<' && s[1] != '=' ==> LookupRelation(s) == Some(Lt)
    ensures s[0] == '>' && s[1] != '=' ==> LookupRelation(s) == Some(Gt)
    ensures s[0] !in "=<>~!" ==> LookupRelation(s) == None
  {
    if s[0] == '=' && s[1] == '=' && s[2] == '=' {
      assert s[..3] == "===";
    } else if s[0] == '<' || s[0] == '>' {
      assert s[..3] !in TripleRequirementMap;
      if s[1] == '=' {
        assert s[..2] == [s[0], '='];
      } else {
        assert s[..2] !in DoubleRequirementMap;
        assert s[..1] == [s[0]];
      }
    } else if s[0] !in "=<>~!" {
      assert s[..3] !in TripleRequirementMap;
      assert s[..2] !in DoubleRequirementMap;
      assert s[..1] !in SingleRequirementMap;
    }
  }

  /** One trimmed clause: a failure when it is shorter than three characters, `None`
      when no operator starts it, otherwise the longest operator that starts it and the
      rest of the clause after any whitespace. */
  function ParseVersionSpec(s: string): (r: Result<Option<VersionSpec>, Fault>)
    ensures r.Failure? <==> |s| < 3
    ensures r.Failure? ==> r.error == StringIndexOutOfBounds
    ensures r == Success(None) <==> |s| >= 3 && forall rel :: !StartsWithOperator(s, rel)
    ensures r.Success? && r.value.Some? ==>
      && LongestOperator(s, r.value.value.relation)
      && r.value.value.version == s[FindFirstNotWhiteSpaceAfter(s, |Operator(r.value.value.relation)|)..]
  {
    if |s| < 3 then Failure(StringIndexOutOfBounds)
    else
      match LookupRelation(s)
      case None => Success(None)
      case Some(relation) =>
        var versionIndex := FindFirstNotWhiteSpaceAfter(s, |Operator(relation)|);
        Success(Some(VersionSpec(relation, s[versionIndex..])))
  }

  /** One comma token: trimmed of blanks, then parsed. */
  function ParseToken(token: string): (r: Result<Option<VersionSpec>, Fault>)
    ensures r.Failure? <==> |Trim(token)| < 3
  {
    ParseVersionSpec(Trim(token))
  }

  /** A whole constraint expression: split into comma tokens, each trimmed of blanks and
      parsed, in order; the first token too short to parse throws. */
  function ParseVersionSpecs(versionSpecs: string): (r: Result<seq<Option<VersionSpec>>, Fault>)
    ensures r.Failure? <==> exists k :: 0 <= k < |Tokenize(versionSpecs)| && |Trim(Tokenize(versionSpecs)[k])| < 3
    ensures r.Failure? ==> r.error == StringIndexOutOfBounds
    ensures r.Success? ==> |r.value| == |Tokenize(versionSpecs)|
    ensures r.Success? ==> forall k :: 0 <= k < |r.value| ==>
      ParseToken(Tokenize(versionSpecs)[k]) == Success(r.value[k])
  {
    Seqs.MapOrFail(Tokenize(versionSpecs), ParseToken)
  }

  /** Every clause parsed and is satisfied by the installed version. */
  predicate AllSatisfied(specs: seq<Option<VersionSpec>>, installed: string, sat: VersionMatcher) {
    forall k :: 0 <= k < |specs| ==>
      specs[k].Some? && sat(specs[k].value.relation, specs[k].value.version, installed)
  }

  /** The verdict of one constraint expression for the installed version: the clause
      list parsed and `specs.all { it != null && it.matches(installed) }`, or the
      exception raised while parsing. */
  function Evaluate(v: string, installed: string, sat: VersionMatcher): (r: Result<bool, Fault>)
    ensures r.Failure? <==> ParseVersionSpecs(v).Failure?
    ensures r == Success(true) <==> ParseVersionSpecs(v).Success? && AllSatisfied(ParseVersionSpecs(v).value, installed, sat)
  {
    match ParseVersionSpecs(v)
    case Failure(e) => Failure(e)
    case Success(specs) => Success(AllSatisfied(specs, installed, sat))
  }

  /** The constraint expression parses without an exception. */
  predicate Parses(v: string) {
    ParseVersionSpecs(v).Success?
  }

  /** The installed version satisfies the constraint expression `v`. */
  predicate Matches(v: string, installed: string, sat: VersionMatcher) {
    Evaluate(v, installed, sat) == Success(true)
  }

  /** The verdict of `hasMatch` on one lookup entry. */
  function EntryVerdict(installed: string, sat: VersionMatcher): (string -> Result<bool, Fault>)
  {
    v => Evaluate(v, installed, sat)
  }

  /** `hasMatch`: the cheap check against the lookup table. */
  function HasMatch(lookup: map<string, seq<string>>, pkg: Package, sat: VersionMatcher): (r: Result<bool, Fault>)
    ensures pkg.name !in lookup ==> r == Success(false)
    ensures pkg.name in lookup && (forall k :: 0 <= k < |lookup[pkg.name]| ==> Parses(lookup[pkg.name][k])) ==>
      r == Success(exists k :: 0 <= k < |lookup[pkg.name]| && Matches(lookup[pkg.name][k], pkg.version, sat))
    ensures r.Failure? ==> pkg.name in lookup && exists k :: 0 <= k < |lookup[pkg.name]| && !Parses(lookup[pkg.name][k])
  {
    if pkg.name !in lookup then Success(false)
    else
      var entries := lookup[pkg.name];
      var verdict := EntryVerdict(pkg.version, sat);
      if forall k :: 0 <= k < |entries| ==> verdict(entries[k]).Success? then
        Seqs.FindAnyAllDecided(entries, verdict);
        Seqs.FindAny(entries, verdict)
      else
        Seqs.FindAny(entries, verdict)
  }

  /** The verdict of `getMatches` on one record: its combined expression `v` evaluated. */
  function RecordVerdict(installed: string, sat: VersionMatcher): (Record -> Result<bool, Fault>)
  {
    (rec: Record) => Evaluate(rec.v, installed, sat)
  }

  /** `getMatches`: the detailed check against the full database. */
  function GetMatches(database: map<string, seq<Record>>, pkg: Package, sat: VersionMatcher): (r: Result<seq<Record>, Fault>)
    ensures pkg.name !in database ==> r == Failure(PackageNotInDatabase)
    ensures pkg.name in database ==> (r.Failure? <==> exists k :: 0 <= k < |database[pkg.name]| && !Parses(database[pkg.name][k].v))
    ensures r.Success? ==> (pkg.name in database &&
      forall rec :: rec in r.value <==> rec in database[pkg.name] && Matches(rec.v, pkg.version, sat))
  {
    if pkg.name !in database then Failure(PackageNotInDatabase)
    else
      Seqs.Select(database[pkg.name], RecordVerdict(pkg.version, sat))
  }

  /** The constraint expressions of a list of records. */
  function Versions(recs: seq<Record>): (vs: seq<string>)
    ensures |vs| == |recs| && forall k :: 0 <= k < |recs| ==> vs[k] == recs[k].v
  {
    seq(|recs|, k requires 0 <= k < |recs| => recs[k].v)
  }
}
