/** `inspectStatement`: whether a SQL string literal contains a `%s` placeholder wrapped
    in a pair of matching quotes, the shape that makes a raw query injectable. The
    placeholders are the matches of the regular expression `%s`; the quote tests are two
    one-character `substring` calls around each match, whose out-of-range exception ends
    the scan. */
module DjangoHelpers {
  import opened Wrappers
  import opened Strings
  import opened Psi

  /** A `%s` starts at index `i` of `s`. */
  predicate IsPlaceholderAt(s: string, i: int) {
    0 <= i && i + 2 <= |s| && s[i] == '%' && s[i + 1] == 's'
  }

  /** The start indices of the regular-expression matches of `%s` in `s` from index `k`
      on: a match resumes the search after its two characters, a miss one character on. */
  function PlaceholdersFrom(s: string, k: nat): (r: seq<nat>)
    ensures forall j :: 0 <= j < |r| ==> k <= r[j] && IsPlaceholderAt(s, r[j])
    ensures forall l, j :: 0 <= l < j < |r| ==> r[l] + 2 <= r[j]
    ensures forall i :: k <= i && IsPlaceholderAt(s, i) ==> i in r
    decreases |s| - k
  {
    if k + 2 > |s| then []
    else if s[k] == '%' && s[k + 1] == 's' then [k] + PlaceholdersFrom(s, k + 2)
    else PlaceholdersFrom(s, k + 1)
  }

  /** All `%s` matches of `s`, left to right. */
  function Placeholders(s: string): (r: seq<nat>)
    ensures forall j :: 0 <= j < |r| ==> IsPlaceholderAt(s, r[j])
    ensures forall l, j :: 0 <= l < j < |r| ==> r[l] < r[j]
    ensures forall i :: IsPlaceholderAt(s, i) <==> i in r
  {
    PlaceholdersFrom(s, 0)
  }

  /** The test `substring(i - 1, i) == q && substring(i + 2, i + 3) == q` on the
      placeholder at `i`, with Kotlin's short-circuit `&&`: `None` when one of the
      evaluated `substring` calls throws. */
  function QuotedBy(s: string, i: int, q: char): (r: Option<bool>)
    ensures r.None? <==> i < 1 || i > |s| || (s[i - 1] == q && i + 3 > |s|)
    ensures r == Some(true) <==> 1 <= i && i + 3 <= |s| && s[i - 1] == q && s[i + 2] == q
  {
    match Substring(s, i - 1, i)
    case None => None
    case Some(before) =>
      if before != [q] then Some(false)
      else
        match Substring(s, i + 2, i + 3)
        case None => None
        case Some(after) => Some(after == [q])
  }

  /** What one loop iteration of `inspectStatement` does with a placeholder. */
  datatype Step = ReturnTrue | Continue | ReturnFalse

  /** The iteration for the placeholder at `i`: the single-quote test, then the
      double-quote test; an exception in either returns false. */
  function PlaceholderStep(s: string, i: nat): (step: Step)
    requires IsPlaceholderAt(s, i)
    ensures step == ReturnTrue <==> 0 < i && i + 3 <= |s| && s[i - 1] == s[i + 2] && (s[i - 1] == '\'' || s[i - 1] == '"')
    ensures step == ReturnFalse <==> i == 0 || ((s[i - 1] == '\'' || s[i - 1] == '"') && i + 3 > |s|)
  {
    match QuotedBy(s, i, '\'')
    case None => ReturnFalse
    case Some(true) => ReturnTrue
    case Some(false) =>
      match QuotedBy(s, i, '"')
      case None => ReturnFalse
      case Some(true) => ReturnTrue
      case Some(false) => Continue
  }

  /** The loop over the placeholders `ps`: the first that does not continue decides, and
      running out of placeholders returns false. */
  function Scan(s: string, ps: seq<nat>): (r: bool)
    requires forall j :: 0 <= j < |ps| ==> IsPlaceholderAt(s, ps[j])
    ensures r <==> exists j :: (0 <= j < |ps| && PlaceholderStep(s, ps[j]) == ReturnTrue &&
      forall l :: 0 <= l < j ==> PlaceholderStep(s, ps[l]) == Continue)
  {
    if |ps| == 0 then false
    else
      match PlaceholderStep(s, ps[0])
      case ReturnTrue => true
      case ReturnFalse => false
      case Continue =>
        var r := Scan(s, ps[1..]);
        assert forall j :: 1 <= j < |ps| ==> ps[j] == ps[1..][j - 1];
        r
  }

  /** `inspectStatement`: false for anything but a string literal, otherwise the scan of
      its placeholders. */
  function InspectStatement(sqlStatement: Expr): (r: bool)
    ensures !sqlStatement.StringLiteral? ==> !r
    ensures sqlStatement.StringLiteral? ==>
      var s := sqlStatement.value;
      (r <==> exists j :: (0 <= j < |Placeholders(s)| && PlaceholderStep(s, Placeholders(s)[j]) == ReturnTrue &&
        forall l :: 0 <= l < j ==> PlaceholderStep(s, Placeholders(s)[l]) == Continue))
  {
    match sqlStatement
    case StringLiteral(s) => Scan(s, Placeholders(s))
    case _ => false
  }

  /** A quote character as `inspectStatement` tests for it. */
  predicate IsQuote(c: char) {
    c == '\'' || c == '"'
  }

  /** A placeholder with the same quote character immediately before and after it. */
  predicate QuotedPlaceholder(s: string, i: int) {
    IsPlaceholderAt(s, i) && 0 < i && i + 3 <= |s| && IsQuote(s[i - 1]) && s[i + 2] == s[i - 1]
  }

  /** A placeholder the scan passes over: not at the start, and either not preceded by a
      quote or followed, inside the string, by a different character. */
  predicate PassedOver(s: string, p: int) {
    IsPlaceholderAt(s, p) && 0 < p && (!IsQuote(s[p - 1]) || (p + 3 <= |s| && s[p + 2] != s[p - 1]))
  }

  /** The placeholder the scan stops on with true, as a string position. */
  predicate FirstQuoted(s: string, i: int) {
    QuotedPlaceholder(s, i) && forall p :: 0 <= p < i && IsPlaceholderAt(s, p) ==> PassedOver(s, p)
  }

  /** The loop's decisions in terms of positions: it continues exactly past placeholders
      that are passed over and returns true exactly on quoted ones. */
  lemma StepByPositions(s: string, p: nat)
    requires IsPlaceholderAt(s, p)
    ensures PlaceholderStep(s, p) == Continue <==> PassedOver(s, p)
    ensures PlaceholderStep(s, p) == ReturnTrue <==> QuotedPlaceholder(s, p)
  {
  }

  /** A placeholder before the `j`-th is one of the first `j`, so the loop continued
      past it. */
  lemma EarlierPlaceholderPassedOver(s: string, j: nat, p: nat)
    requires j < |Placeholders(s)| && p < Placeholders(s)[j] && IsPlaceholderAt(s, p)
    requires forall l :: 0 <= l < j ==> PlaceholderStep(s, Placeholders(s)[l]) == Continue
    ensures PassedOver(s, p)
  {
    var ps := Placeholders(s);
    var l :| 0 <= l < |ps| && ps[l] == p;
    assert l < j;
    StepByPositions(s, p);
  }

  /** A flagged literal has a quoted placeholder with only passed-over ones before it. */
  lemma FlaggedHasFirstQuoted(s: string)
    requires InspectStatement(StringLiteral(s))
    ensures exists i :: FirstQuoted(s, i)
  {
    var ps := Placeholders(s);
    var j :| 0 <= j < |ps| && PlaceholderStep(s, ps[j]) == ReturnTrue &&
      forall l :: 0 <= l < j ==> PlaceholderStep(s, ps[l]) == Continue;
    var i := ps[j];
    forall p | 0 <= p < i && IsPlaceholderAt(s, p)
      ensures PassedOver(s, p)
    {
      EarlierPlaceholderPassedOver(s, j, p);
    }
    StepByPositions(s, i);
    assert FirstQuoted(s, i);
  }

  /** A literal with a quoted placeholder and only passed-over ones before it is flagged. */
  lemma FirstQuotedIsFlagged(s: string, i: int)
    requires FirstQuoted(s, i)
    ensures InspectStatement(StringLiteral(s))
  {
    var ps := Placeholders(s);
    var j :| 0 <= j < |ps| && ps[j] == i;
    forall l | 0 <= l < j
      ensures PlaceholderStep(s, ps[l]) == Continue
    {
      assert ps[l] < i;
      StepByPositions(s, ps[l]);
    }
    StepByPositions(s, i);
  }

  /** `inspectStatement` in terms of string positions: a literal is flagged iff it has a
      quoted placeholder and every placeholder before it is passed over; in particular a
      literal without `%s` is never flagged. */
  lemma InspectStatementByPositions(s: string)
    ensures InspectStatement(StringLiteral(s)) <==> exists i :: FirstQuoted(s, i)
    ensures (forall i :: !IsPlaceholderAt(s, i)) ==> !InspectStatement(StringLiteral(s))
  {
    if InspectStatement(StringLiteral(s)) {
      FlaggedHasFirstQuoted(s);
    }
    if exists i :: FirstQuoted(s, i) {
      var i :| FirstQuoted(s, i);
      FirstQuotedIsFlagged(s, i);
    }
  }

  /** A placeholder at the very start makes `substring(-1, 0)` throw, so the literal is
      not flagged even when a later placeholder is quoted. */
  lemma LeadingPlaceholderAborts(s: string)
    requires IsPlaceholderAt(s, 0)
    ensures !InspectStatement(StringLiteral(s))
  {
    var ps := Placeholders(s);
    assert 0 in ps;
    assert ps[0] == 0;
  }

  /** A placeholder preceded by a quote but ending the string makes the closing
      `substring` throw, which stops the scan with false. */
  lemma QuoteAtEndAborts(s: string, i: nat)
    requires IsPlaceholderAt(s, i) && i + 2 == |s| && 0 < i && IsQuote(s[i - 1])
    requires forall p :: 0 <= p < i && IsPlaceholderAt(s, p) ==> PassedOver(s, p)
    ensures !InspectStatement(StringLiteral(s))
  {
    InspectStatementByPositions(s);
  }

  /** With a single placeholder, the literal is flagged iff that placeholder is quoted. */
  lemma SinglePlaceholder(s: string, i: int)
    requires IsPlaceholderAt(s, i) && forall p :: IsPlaceholderAt(s, p) ==> p == i
    ensures InspectStatement(StringLiteral(s)) <==> QuotedPlaceholder(s, i)
  {
    InspectStatementByPositions(s);
    if QuotedPlaceholder(s, i) {
      assert FirstQuoted(s, i);
    }
  }

  /** Either quote character counts when it appears on both sides. */
  lemma QuotedExamples()
    ensures InspectStatement(StringLiteral("id='%s'"))
    ensures InspectStatement(StringLiteral("id=\"%s\""))
  {
    FirstQuotedIsFlagged("id='%s'", 4);
    FirstQuotedIsFlagged("id=\"%s\"", 4);
  }

  /** Mixed quotes and a bare placeholder are not flagged. */
  lemma UnquotedExamples()
    ensures !InspectStatement(StringLiteral("id='%s\""))
    ensures !InspectStatement(StringLiteral("id=%s"))
  {
    SinglePlaceholder("id='%s\"", 4);
    SinglePlaceholder("id=%s", 3);
  }
}
