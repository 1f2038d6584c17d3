/** Properties of the advisory matcher that relate several calls: the cheap and the
    detailed check agree, clauses combine by conjunction, and the sample data behaves
    as the repository's own scan expects. */
module SafetyDbProperties {
  import opened Wrappers
  import opened Strings
  import opened SafetyDb
  import Seqs

  /** `hasMatch` returns at the first entry that matches: whatever follows it, even an
      entry too short to parse, is never read. */
  lemma FirstMatchingEntryWins(lookup: map<string, seq<string>>, pkg: Package, first: string,
                               rest: seq<string>, sat: VersionMatcher)
    requires pkg.name in lookup && lookup[pkg.name] == [first] + rest
    requires Matches(first, pkg.version, sat)
    ensures HasMatch(lookup, pkg, sat) == Success(true)
  {
    assert lookup[pkg.name][0] == first;
    EntryVerdictMeaning(first, pkg.version, sat);
  }

  /** The verdict on one lookup entry is true iff the entry matches, and it is decided iff
      the entry parses. */
  lemma EntryVerdictMeaning(v: string, installed: string, sat: VersionMatcher)
    ensures EntryVerdict(installed, sat)(v) == Success(true) <==> Matches(v, installed, sat)
    ensures EntryVerdict(installed, sat)(v).Success? <==> Parses(v)
  {
  }

  /** When the lookup entries of a package are exactly the `v` fields of its database
      records, `hasMatch` is true iff `getMatches` is non-empty; if `getMatches` throws,
      `hasMatch` cannot have answered false. */
  lemma HasMatchAgreesWithGetMatches(lookup: map<string, seq<string>>, database: map<string, seq<Record>>,
                                     pkg: Package, sat: VersionMatcher)
    requires pkg.name in lookup && pkg.name in database
    requires lookup[pkg.name] == Versions(database[pkg.name])
    ensures GetMatches(database, pkg, sat).Success? ==>
      HasMatch(lookup, pkg, sat) == Success(|GetMatches(database, pkg, sat).value| > 0)
    ensures GetMatches(database, pkg, sat).Failure? ==> HasMatch(lookup, pkg, sat) != Success(false)
  {
    var recs := database[pkg.name];
    var vs := lookup[pkg.name];
    Seqs.FindAnyAgreesWithSelect(vs, EntryVerdict(pkg.version, sat), recs, RecordVerdict(pkg.version, sat));
  }

  /** A clause list is satisfied as a whole iff both of its parts are. */
  lemma AllSatisfiedAppend(p: seq<Option<VersionSpec>>, q: seq<Option<VersionSpec>>, installed: string, sat: VersionMatcher)
    ensures AllSatisfied(p + q, installed, sat) <==> AllSatisfied(p, installed, sat) && AllSatisfied(q, installed, sat)
  {
    if AllSatisfied(p, installed, sat) && AllSatisfied(q, installed, sat) {
      forall k | 0 <= k < |p + q|
        ensures (p + q)[k].Some? && sat((p + q)[k].value.relation, (p + q)[k].value.version, installed)
      {
        if k >= |p| { assert (p + q)[k] == q[k - |p|]; }
      }
    }
    if AllSatisfied(p + q, installed, sat) {
      forall k | 0 <= k < |p|
        ensures p[k].Some? && sat(p[k].value.relation, p[k].value.version, installed)
      {
        assert (p + q)[k] == p[k];
      }
      forall k | 0 <= k < |q|
        ensures q[k].Some? && sat(q[k].value.relation, q[k].value.version, installed)
      {
        assert (p + q)[|p| + k] == q[k];
      }
    }
  }

  /** Parsing `a + "," + b` parses the tokens of `a`, then those of `b`. */
  lemma ParseVersionSpecsAppend(a: string, b: string)
    ensures ParseVersionSpecs(a + "," + b).Success? <==> ParseVersionSpecs(a).Success? && ParseVersionSpecs(b).Success?
    ensures ParseVersionSpecs(a + "," + b).Success? ==>
      ParseVersionSpecs(a + "," + b).value == ParseVersionSpecs(a).value + ParseVersionSpecs(b).value
  {
    TokenizeAppend(a, b);
    Seqs.MapOrFailAppend(Tokenize(a), Tokenize(b), ParseToken);
  }

  /** Clause lists combine by conjunction: `a + "," + b` parses iff both halves parse,
      and the installed version satisfies it iff it satisfies both halves. */
  lemma ClausesCombineByConjunction(a: string, b: string, installed: string, sat: VersionMatcher)
    ensures Parses(a + "," + b) <==> Parses(a) && Parses(b)
    ensures Matches(a + "," + b, installed, sat) <==> Matches(a, installed, sat) && Matches(b, installed, sat)
  {
    ParseVersionSpecsAppend(a, b);
    if Parses(a) && Parses(b) {
      AllSatisfiedAppend(ParseVersionSpecs(a).value, ParseVersionSpecs(b).value, installed, sat);
    }
  }

  /** A token whose trimmed text starts with no operator makes the whole expression
      unmatchable, whatever the installed version, although it parses. */
  lemma UnknownOperatorNeverMatches(v: string, k: nat, installed: string, sat: VersionMatcher)
    requires k < |Tokenize(v)| && ParseToken(Tokenize(v)[k]) == Success(None)
    ensures !Matches(v, installed, sat)
  {
    var r := ParseVersionSpecs(v);
    if r.Success? {
      assert r.value[k] == None;
    }
  }

  /** `<=` followed by a literal is read as LTE, never as `<` with a literal starting `=`. */
  lemma LessOrEqualClauseParses(literal: string)
    requires |literal| > 0 && !IsWhiteSpace(literal[0])
    ensures ParseVersionSpec("<=" + literal) == Success(Some(VersionSpec(Lte, literal)))
  {
    var s := "<=" + literal;
    assert s[0] == '<' && s[1] == '=' && s[2] == literal[0];
    LookupByLeadingCharacters(s);
    assert FindFirstNotWhiteSpaceAfter(s, 2) == 2;
    assert s[2..] == literal;
  }

  /** `===` followed by a literal is read as STR_EQ, never as `==` with a literal starting `=`. */
  lemma StrictEqualClauseParses(literal: string)
    requires |literal| > 0 && !IsWhiteSpace(literal[0])
    ensures ParseVersionSpec("===" + literal) == Success(Some(VersionSpec(StrEq, literal)))
  {
    var s := "===" + literal;
    assert s[0] == '=' && s[1] == '=' && s[2] == '=' && s[3] == literal[0];
    LookupByLeadingCharacters(s);
    assert FindFirstNotWhiteSpaceAfter(s, 3) == 3;
    assert s[3..] == literal;
  }

  /** The longest operator that starts a clause wins: `<=` is not read as `<`, and `===`
      not as `==`, whatever version literal follows. */
  lemma LongestOperatorWins(literal: string)
    requires |literal| > 0 && !IsWhiteSpace(literal[0])
    ensures ParseVersionSpec("<=" + literal) == Success(Some(VersionSpec(Lte, literal)))
    ensures ParseVersionSpec("===" + literal) == Success(Some(VersionSpec(StrEq, literal)))
  {
    LessOrEqualClauseParses(literal);
    StrictEqualClauseParses(literal);
  }

  /** Whitespace between the operator and the version literal is skipped. */
  lemma WhitespaceAfterOperatorSkipped(literal: string)
    requires |literal| > 0 && !IsWhiteSpace(literal[0])
    ensures ParseVersionSpec("<= " + literal) == Success(Some(VersionSpec(Lte, literal)))
  {
    var s := "<= " + literal;
    assert s[0] == '<' && s[1] == '=' && s[2] == ' ' && s[3] == literal[0];
    LookupByLeadingCharacters(s);
    assert FindFirstNotWhiteSpaceAfter(s, 2) == FindFirstNotWhiteSpaceAfter(s, 3) == 3;
    assert s[3..] == literal;
  }

  /** A clause without a known operator parses to no clause; one under three characters
      throws. */
  lemma MalformedClauses()
    ensures ParseVersionSpec("1.0") == Success(None)
    ensures ParseVersionSpec("<1") == Failure(StringIndexOutOfBounds)
  {
    LookupByLeadingCharacters("1.0");
  }

  /** A token without surrounding blanks is parsed as it stands. */
  lemma ParseUnblankedToken(token: string)
    requires |token| > 0 && !IsBlank(token[0]) && !IsBlank(token[|token| - 1])
    ensures ParseToken(token) == ParseVersionSpec(token)
  {
    TrimUnblanked(token);
  }

  /** A `<` clause whose literal starts with neither `=` nor whitespace parses to LT and
      that literal; the apples clause and the bananas upper bound are of this form. */
  lemma LessThanClauseParses(literal: string)
    requires |literal| >= 2 && literal[0] != '=' && !IsWhiteSpace(literal[0])
    ensures ParseVersionSpec("<" + literal) == Success(Some(VersionSpec(Lt, literal)))
  {
    var s := "<" + literal;
    assert s[0] == '<' && s[1] == literal[0];
    LookupByLeadingCharacters(s);
    assert FindFirstNotWhiteSpaceAfter(s, 1) == 1;
    assert s[1..] == literal;
  }

  /** `>=` followed by a literal is read as GTE, never as `>` with a literal starting `=`. */
  lemma GreaterOrEqualClauseParses(literal: string)
    requires |literal| > 0 && !IsWhiteSpace(literal[0])
    ensures ParseVersionSpec(">=" + literal) == Success(Some(VersionSpec(Gte, literal)))
  {
    var s := ">=" + literal;
    assert s[0] == '>' && s[1] == '=' && s[2] == literal[0];
    LookupByLeadingCharacters(s);
    assert FindFirstNotWhiteSpaceAfter(s, 2) == 2;
    assert s[2..] == literal;
  }

  /** A single blank-free token parses to the one clause it spells. */
  lemma SingleClauseExpression(token: string, spec: VersionSpec)
    requires |token| > 0 && ',' !in token && !IsBlank(token[0]) && !IsBlank(token[|token| - 1])
    requires ParseVersionSpec(token) == Success(Some(spec))
    ensures ParseVersionSpecs(token) == Success([Some(spec)])
  {
    ParseUnblankedToken(token);
    SingleToken(token);
    Seqs.MapOrFailSingleton(token, ParseToken);
  }

  /** Two blank-free, comma-free tokens joined by a comma parse to their two clauses. */
  lemma TwoClauseExpression(a: string, b: string, specA: VersionSpec, specB: VersionSpec)
    requires |a| > 0 && ',' !in a && !IsBlank(a[0]) && !IsBlank(a[|a| - 1])
    requires |b| > 0 && ',' !in b && !IsBlank(b[0]) && !IsBlank(b[|b| - 1])
    requires ParseVersionSpec(a) == Success(Some(specA)) && ParseVersionSpec(b) == Success(Some(specB))
    ensures ParseVersionSpecs(a + "," + b) == Success([Some(specA), Some(specB)])
  {
    TokenizeAppend(a, b);
    SingleToken(a);
    SingleToken(b);
    assert Tokenize(a + "," + b) == [a, b];
    ParseUnblankedToken(a);
    ParseUnblankedToken(b);
    Seqs.MapOrFailPair(a, b, ParseToken);
  }

  /** The apples expression parses to its one clause. */
  lemma ApplesExpressionParses()
    ensures ParseVersionSpecs(ApplesExpression) == Success([Some(VersionSpec(Lt, "0.6.0"))])
  {
    LessThanClauseParses("0.6.0");
    SingleClauseExpression("<" + "0.6.0", VersionSpec(Lt, "0.6.0"));
  }

  /** The bananas expression parses to its two clauses, in order. */
  lemma BananasExpressionParses()
    ensures ParseVersionSpecs(BananasExpression) == Success([Some(VersionSpec(Lt, "1.0.0")), Some(VersionSpec(Gte, "0.5.0"))])
  {
    LessThanClauseParses("1.0.0");
    GreaterOrEqualClauseParses("0.5.0");
    TwoClauseExpression("<" + "1.0.0", ">=" + "0.5.0", VersionSpec(Lt, "1.0.0"), VersionSpec(Gte, "0.5.0"));
  }

  /** The constraint expressions of the repository's scan test. Each clause is written as
      its operator followed by its literal, the shape the clause lemmas above are stated
      for, so they apply to these constants without unfolding the parser on a literal. */
  const ApplesExpression: string := "<" + "0.6.0"
  const BananasExpression: string := ("<" + "1.0.0") + "," + (">=" + "0.5.0")

  /** The lookup table of the same test. */
  const SampleLookup: map<string, seq<string>> := map["apples" := [ApplesExpression], "bananas" := [BananasExpression]]

  const AppleRecord := Record("apple pips taste nasty.", None, "pyup.io-25612", [ApplesExpression], ApplesExpression)
  const BananaRecord := Record("green bananas give you stomach ache.", Some("CVE-1234"), "pyup.io-253",
                               [BananasExpression], BananasExpression)

  /** The detailed database of the same test. */
  const SampleDatabase: map<string, seq<Record>> := map["apples" := [AppleRecord], "bananas" := [BananaRecord]]

  /** With one lookup entry, `hasMatch` is that entry's verdict, exception included. */
  lemma HasMatchSingleEntry(lookup: map<string, seq<string>>, pkg: Package, v: string, sat: VersionMatcher)
    requires pkg.name in lookup && lookup[pkg.name] == [v]
    ensures HasMatch(lookup, pkg, sat) == Evaluate(v, pkg.version, sat)
  {
    assert lookup[pkg.name][0] == v;
  }

  /** With one database record, parsed to `specs`, `getMatches` keeps it iff they all hold. */
  lemma GetMatchesSingleRecord(database: map<string, seq<Record>>, pkg: Package, rec: Record,
                               specs: seq<Option<VersionSpec>>, sat: VersionMatcher)
    requires pkg.name in database && database[pkg.name] == [rec] && ParseVersionSpecs(rec.v) == Success(specs)
    ensures GetMatches(database, pkg, sat) == Success(if AllSatisfied(specs, pkg.version, sat) then [rec] else [])
  {
    Seqs.SelectSingleton(rec, RecordVerdict(pkg.version, sat));
  }

  /** A one-clause list holds iff its clause does; a two-clause list iff both do. */
  lemma ShortClauseLists(x: VersionSpec, y: VersionSpec, installed: string, sat: VersionMatcher)
    ensures AllSatisfied([Some(x)], installed, sat) <==> sat(x.relation, x.version, installed)
    ensures AllSatisfied([Some(x), Some(y)], installed, sat) <==>
      sat(x.relation, x.version, installed) && sat(y.relation, y.version, installed)
  {
    assert [Some(x)][0] == Some(x);
    assert [Some(x), Some(y)][0] == Some(x) && [Some(x), Some(y)][1] == Some(y);
  }

  /** The entries of the two sample tables. */
  lemma SampleTables()
    ensures "apples" in SampleLookup && SampleLookup["apples"] == [ApplesExpression]
    ensures "bananas" in SampleLookup && SampleLookup["bananas"] == [BananasExpression]
    ensures "apples" in SampleDatabase && SampleDatabase["apples"] == [AppleRecord]
    ensures "bananas" in SampleDatabase && SampleDatabase["bananas"] == [BananaRecord]
    ensures "good" !in SampleLookup && "good" !in SampleDatabase
  {
  }

  /** Apples 0.4.0 is vulnerable in both checks when the ordering says 0.4.0 < 0.6.0. */
  lemma SampleApples(sat: VersionMatcher)
    requires sat(Lt, "0.6.0", "0.4.0")
    ensures HasMatch(SampleLookup, Package("apples", "0.4.0"), sat) == Success(true)
    ensures GetMatches(SampleDatabase, Package("apples", "0.4.0"), sat) == Success([AppleRecord])
  {
    var x := VersionSpec(Lt, "0.6.0");
    ApplesExpressionParses();
    SampleTables();
    ShortClauseLists(x, x, "0.4.0", sat);
    HasMatchSingleEntry(SampleLookup, Package("apples", "0.4.0"), ApplesExpression, sat);
    GetMatchesSingleRecord(SampleDatabase, Package("apples", "0.4.0"), AppleRecord, [Some(x)], sat);
  }

  /** Bananas 0.6.0 satisfies both clauses of `<1.0.0,>=0.5.0`; 1.2.0 fails the first, so
      the lookup says no and the detailed check returns nothing. */
  lemma SampleBananas(sat: VersionMatcher)
    requires sat(Lt, "1.0.0", "0.6.0") && sat(Gte, "0.5.0", "0.6.0")
    requires !sat(Lt, "1.0.0", "1.2.0")
    ensures HasMatch(SampleLookup, Package("bananas", "0.6.0"), sat) == Success(true)
    ensures HasMatch(SampleLookup, Package("bananas", "1.2.0"), sat) == Success(false)
    ensures GetMatches(SampleDatabase, Package("bananas", "1.2.0"), sat) == Success([])
  {
    var x := VersionSpec(Lt, "1.0.0");
    var y := VersionSpec(Gte, "0.5.0");
    BananasExpressionParses();
    SampleTables();
    ShortClauseLists(x, y, "0.6.0", sat);
    ShortClauseLists(x, y, "1.2.0", sat);
    HasMatchSingleEntry(SampleLookup, Package("bananas", "0.6.0"), BananasExpression, sat);
    HasMatchSingleEntry(SampleLookup, Package("bananas", "1.2.0"), BananasExpression, sat);
    GetMatchesSingleRecord(SampleDatabase, Package("bananas", "1.2.0"), BananaRecord, [Some(x), Some(y)], sat);
  }

  /** A package absent from both tables has no lookup match, and the detailed check
      throws for it. */
  lemma SampleUnknownPackage(sat: VersionMatcher)
    ensures HasMatch(SampleLookup, Package("good", "0.4.0"), sat) == Success(false)
    ensures GetMatches(SampleDatabase, Package("good", "0.4.0"), sat) == Failure(PackageNotInDatabase)
  {
    SampleTables();
  }
}
