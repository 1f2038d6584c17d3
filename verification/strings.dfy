/** String utilities the core relies on: Kotlin's `trim`, IntelliJ's whitespace test and
    comma tokenizer, and substring search. Strings are `seq<char>`. */
module Strings {
  import opened Wrappers

  /** The predicate `it <= ' '` that the advisory parser passes to Kotlin's `trim`. */
  predicate IsBlank(c: char) {
    c <= ' '
  }

  /** IntelliJ's `StringUtil.isWhiteSpace`: space, tab and line feed. */
  predicate IsWhiteSpace(c: char) {
    c == ' ' || c == '\t' || c == '\n'
  }

  /** Number of blank characters at the start of `s`. */
  function LeadingBlanks(s: string): (n: nat)
    ensures n <= |s|
    ensures forall k :: 0 <= k < n ==> IsBlank(s[k])
    ensures n < |s| ==> !IsBlank(s[n])
  {
    if |s| == 0 || !IsBlank(s[0]) then 0 else 1 + LeadingBlanks(s[1..])
  }

  /** Number of blank characters at the end of `s`. */
  function TrailingBlanks(s: string): (n: nat)
    ensures n <= |s|
    ensures forall k :: |s| - n <= k < |s| ==> IsBlank(s[k])
    ensures n < |s| ==> !IsBlank(s[|s| - 1 - n])
  {
    if |s| == 0 || !IsBlank(s[|s| - 1]) then 0 else 1 + TrailingBlanks(s[..|s| - 1])
  }

  /** The slice `[start, end)` that Kotlin's `trim { it <= ' ' }` keeps: it first skips
      blanks from the front, then from the back of what remains. */
  function TrimBounds(s: string): (b: (nat, nat))
    ensures b.0 <= b.1 <= |s|
    ensures forall k :: 0 <= k < b.0 ==> IsBlank(s[k])
    ensures forall k :: b.1 <= k < |s| ==> IsBlank(s[k])
    ensures b.0 < b.1 ==> !IsBlank(s[b.0]) && !IsBlank(s[b.1 - 1])
  {
    var start := LeadingBlanks(s);
    var rest := s[start..];
    (start, start + |rest| - TrailingBlanks(rest))
  }

  /** `s.trim { it <= ' ' }`. */
  function Trim(s: string): (r: string)
    ensures |r| <= |s|
    ensures |r| == 0 || (!IsBlank(r[0]) && !IsBlank(r[|r| - 1]))
  {
    var b := TrimBounds(s);
    s[b.0..b.1]
  }

  /** Every piece of `s` between separators, empty pieces included; `Split("a,,b", ',')`
      is `["a", "", "b"]`. */
  function Split(s: string, sep: char): (r: seq<string>)
    ensures |r| >= 1
    ensures forall k :: 0 <= k < |r| ==> sep !in r[k]
    decreases |s|
  {
    if |s| == 0 then [""]
    else
      var rest := Split(s[1..], sep);
      if s[0] == sep then [""] + rest
      else [[s[0]] + rest[0]] + rest[1..]
  }

  /** The pieces glued back together with the separator between them. */
  function Join(parts: seq<string>, sep: char): string
    requires |parts| >= 1
    decreases |parts|
  {
    if |parts| == 1 then parts[0] else parts[0] + [sep] + Join(parts[1..], sep)
  }

  /** Splitting loses nothing: joining the pieces gives the original string back. */
  lemma {:induction false} JoinSplit(s: string, sep: char)
    ensures Join(Split(s, sep), sep) == s
    decreases |s|
  {
    if |s| > 0 {
      var rest := Split(s[1..], sep);
      JoinSplit(s[1..], sep);
      if s[0] == sep {
        assert Split(s, sep)[1..] == rest;
      } else {
        var r := Split(s, sep);
        if |rest| == 1 {
          assert r == [[s[0]] + rest[0]];
        } else {
          assert r[1..] == rest[1..];
          assert Join(rest, sep) == rest[0] + [sep] + Join(rest[1..], sep);
        }
      }
    }
  }

  /** Splitting distributes over a separator: the pieces of `a + [sep] + b` are the
      pieces of `a` followed by the pieces of `b`. */
  lemma {:induction false} SplitAppend(a: string, b: string, sep: char)
    ensures Split(a + [sep] + b, sep) == Split(a, sep) + Split(b, sep)
    decreases |a|
  {
    var s := a + [sep] + b;
    if |a| == 0 {
      assert s[1..] == b;
    } else {
      assert s[1..] == a[1..] + [sep] + b;
      SplitAppend(a[1..], b, sep);
    }
  }

  /** A string without the separator is a single piece. */
  lemma {:induction false} SplitWithoutSeparator(s: string, sep: char)
    requires sep !in s
    ensures Split(s, sep) == [s]
    decreases |s|
  {
    if |s| > 0 {
      SplitWithoutSeparator(s[1..], sep);
      assert [s[0]] + s[1..] == s;
    }
  }

  /** The non-empty strings of `parts`, in order. */
  function NonEmpty(parts: seq<string>): (r: seq<string>)
    ensures |r| <= |parts|
    ensures forall k :: 0 <= k < |r| ==> |r[k]| > 0
    ensures forall x :: x in r <==> x in parts && |x| > 0
  {
    if |parts| == 0 then []
    else if |parts[0]| == 0 then NonEmpty(parts[1..])
    else [parts[0]] + NonEmpty(parts[1..])
  }

  lemma {:induction false} NonEmptyAppend(a: seq<string>, b: seq<string>)
    ensures NonEmpty(a + b) == NonEmpty(a) + NonEmpty(b)
    decreases |a|
  {
    if |a| > 0 {
      assert (a + b)[1..] == a[1..] + b;
      NonEmptyAppend(a[1..], b);
    } else {
      assert a + b == b;
    }
  }

  /** IntelliJ's `StringUtil.tokenize(s, ",")`, a `java.util.StringTokenizer`: the
      maximal comma-free runs of `s`, with empty runs skipped. */
  function Tokenize(s: string): (r: seq<string>)
    ensures forall k :: 0 <= k < |r| ==> |r[k]| > 0 && ',' !in r[k]
  {
    NonEmpty(Split(s, ','))
  }

  /** A non-empty comma-free string is a single token. */
  lemma SingleToken(s: string)
    requires |s| > 0 && ',' !in s
    ensures Tokenize(s) == [s]
  {
    SplitWithoutSeparator(s, ',');
  }

  /** Trimming leaves a string alone when neither end is blank. */
  lemma TrimUnblanked(s: string)
    requires |s| > 0 && !IsBlank(s[0]) && !IsBlank(s[|s| - 1])
    ensures Trim(s) == s
  {
    var b := TrimBounds(s);
    assert b.0 == 0;
    assert b.1 == |s|;
  }

  /** Tokens of a comma-joined pair are the tokens of each half. */
  lemma TokenizeAppend(a: string, b: string)
    ensures Tokenize(a + "," + b) == Tokenize(a) + Tokenize(b)
  {
    SplitAppend(a, b, ',');
    NonEmptyAppend(Split(a, ','), Split(b, ','));
  }

  /** `t` occurs in `s` starting at offset `i`. */
  predicate OccursAt(s: string, t: string, i: int) {
    0 <= i && i + |t| <= |s| && s[i..i + |t|] == t
  }

  /** Kotlin's `s.contains(t)`: `t` occurs in `s` at some offset. */
  function Contains(s: string, t: string): (b: bool)
    ensures b <==> exists i :: OccursAt(s, t, i)
    decreases |s|
  {
    if |s| < |t| then false
    else if s[..|t|] == t then assert OccursAt(s, t, 0); true
    else
      var r := Contains(s[1..], t);
      assert r <==> exists i :: OccursAt(s, t, i) by {
        if r {
          var i :| OccursAt(s[1..], t, i);
          assert s[i + 1..i + 1 + |t|] == s[1..][i..i + |t|];
          assert OccursAt(s, t, i + 1);
        }
        forall i | OccursAt(s, t, i)
          ensures r
        {
          assert i != 0;
          assert s[1..][i - 1..i - 1 + |t|] == s[i..i + |t|];
          assert OccursAt(s[1..], t, i - 1);
        }
      }
      r
  }

  /** Kotlin's `substring(begin, end)`: the characters in `[begin, end)`, or `None` for
      the `StringIndexOutOfBoundsException` it throws when the range leaves the string. */
  function Substring(s: string, begin: int, end: int): (r: Option<string>)
    ensures r.Some? <==> 0 <= begin <= end <= |s|
    ensures r.Some? ==> |r.value| == end - begin && forall k :: 0 <= k < |r.value| ==> r.value[k] == s[begin + k]
  {
    if 0 <= begin <= end <= |s| then Some(s[begin..end]) else None
  }
}
