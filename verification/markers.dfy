/** The question marker: the part of the pattern
    `(?:^|\n)(?:Q\.?\s*\d+|Question\s*\d+|\d+\.)` after the line start, i.e.
    `Q` with an optional dot, optional whitespace and digits; `Question`,
    optional whitespace and digits; or digits followed by a dot. */
module Markers {
  import opened Wrappers
  import opened Chars

  /** The three alternatives of the marker, in the order the regular expression
      tries them. */
  datatype Alt = QNumber | QuestionNumber | NumberDot

  /** A recognised marker: the alternative that matched and how many characters
      it covers. */
  datatype Marker = Marker(alt: Alt, len: nat)

  /** `s[i..j]` consists of digits only. */
  ghost predicate DigitsIn(s: string, i: nat, j: nat)
    requires i <= j <= |s|
  {
    forall k :: i <= k < j ==> IsDigit(s[k])
  }

  /** `\s*\d+` matches exactly `s[i..j]`: either `s[i..j]` is a non-empty run
      of digits, or it starts with a whitespace character and the rest
      matches. */
  ghost predicate SpaceDigitsIn(s: string, i: nat, j: nat)
    requires i <= j <= |s|
    decreases j - i
  {
    i < j && (DigitsIn(s, i, j) || (IsSpace(s[i]) && SpaceDigitsIn(s, i + 1, j)))
  }

  /** Alternative `a` matches exactly the `n` characters of `s` starting at `q`. */
  ghost predicate AltMatches(s: string, q: nat, a: Alt, n: nat) {
    && q + n <= |s|
    && match a
       case QNumber =>
         && n >= 1 && s[q] == 'Q'
         && (SpaceDigitsIn(s, q + 1, q + n) || (n >= 2 && s[q + 1] == '.' && SpaceDigitsIn(s, q + 2, q + n)))
       case QuestionNumber =>
         n >= 8 && s[q..q + 8] == "Question" && SpaceDigitsIn(s, q + 8, q + n)
       case NumberDot =>
         n >= 2 && s[q + n - 1] == '.' && DigitsIn(s, q, q + n - 1)
  }

  /** Alternative `a` matches nothing starting at `q`. */
  ghost predicate AltFails(s: string, q: nat, a: Alt) {
    forall n: nat :: !AltMatches(s, q, a, n)
  }

  /** The match a backtracking regular-expression engine reports at `q`: the
      first alternative that matches at all, and within it the longest match.
      All matches of one alternative at one position differ only in how many
      trailing digits `\d+` takes, so the greedy match is the longest one. */
  ghost predicate RegexChoice(s: string, q: nat, a: Alt, n: nat) {
    && AltMatches(s, q, a, n)
    && (forall n': nat :: n < n' ==> !AltMatches(s, q, a, n'))
    && (a != QNumber ==> AltFails(s, q, QNumber))
    && (a == NumberDot ==> AltFails(s, q, QuestionNumber))
  }

  /** Length of the run of whitespace starting at `i`. */
  function SpaceRun(s: string, i: nat): (n: nat)
    requires i <= |s|
    ensures i + n <= |s|
    ensures i + n < |s| ==> !IsSpace(s[i + n])
    decreases |s| - i
  {
    if i < |s| && IsSpace(s[i]) then 1 + SpaceRun(s, i + 1) else 0
  }

  /** Length of the run of digits starting at `i`. */
  function DigitRun(s: string, i: nat): (n: nat)
    requires i <= |s|
    ensures i + n <= |s|
    ensures i + n < |s| ==> !IsDigit(s[i + n])
    decreases |s| - i
  {
    if i < |s| && IsDigit(s[i]) then 1 + DigitRun(s, i + 1) else 0
  }

  /** Every character of the run `SpaceRun` measures is whitespace. */
  lemma {:induction false} SpaceRunAll(s: string, i: nat)
    requires i <= |s|
    ensures forall j :: i <= j < i + SpaceRun(s, i) ==> IsSpace(s[j])
    decreases |s| - i
  {
    if i < |s| && IsSpace(s[i]) {
      SpaceRunAll(s, i + 1);
    }
  }

  /** Every character of the run `DigitRun` measures is a digit. */
  lemma {:induction false} DigitRunAll(s: string, i: nat)
    requires i <= |s|
    ensures forall j :: i <= j < i + DigitRun(s, i) ==> IsDigit(s[j])
    decreases |s| - i
  {
    if i < |s| && IsDigit(s[i]) {
      DigitRunAll(s, i + 1);
    }
  }

  /** Where the whitespace of `Q\.?\s*\d+` starts when `s[q]` is `Q`: after
      the dot if there is one. (When `\s*\d+` fails after a dot, taking no
      dot does not help: `\s*\d+` cannot start at a dot.) */
  function QRestStart(s: string, q: nat): (a: nat)
    requires q < |s|
    ensures q < a <= |s|
    ensures a == q + 2 <==> q + 1 < |s| && s[q + 1] == '.'
  {
    if q + 1 < |s| && s[q + 1] == '.' then q + 2 else q + 1
  }

  /** `Q\.?\s*\d+` at `q`: the length of its match, if any. */
  function MatchQNumber(s: string, q: nat): (r: Option<nat>)
    requires q <= |s|
    ensures r.Some? ==> 1 <= r.value && q + r.value <= |s|
  {
    if q < |s| && s[q] == 'Q' then
      var a := QRestStart(s, q);
      var b := a + SpaceRun(s, a);
      var d := DigitRun(s, b);
      if d > 0 then Some(b + d - q) else None
    else None
  }

  /** `Question\s*\d+` at `q`: the length of its match, if any. */
  function MatchQuestionNumber(s: string, q: nat): (r: Option<nat>)
    requires q <= |s|
    ensures r.Some? ==> 1 <= r.value && q + r.value <= |s|
  {
    if q + 8 <= |s| && s[q..q + 8] == "Question" then
      var b := q + 8 + SpaceRun(s, q + 8);
      var d := DigitRun(s, b);
      if d > 0 then Some(b + d - q) else None
    else None
  }

  /** `\d+\.` at `q`: the length of its match, if any. */
  function MatchNumberDot(s: string, q: nat): (r: Option<nat>)
    requires q <= |s|
    ensures r.Some? ==> 1 <= r.value && q + r.value <= |s|
  {
    var d := DigitRun(s, q);
    if d > 0 && q + d < |s| && s[q + d] == '.' then Some(d + 1) else None
  }

  /** The marker starting at `q`, trying the alternatives in the pattern's order. */
  function MarkerAt(s: string, q: nat): (r: Option<Marker>)
    requires q <= |s|
    ensures r.Some? ==> 1 <= r.value.len && q + r.value.len <= |s|
  {
    match MatchQNumber(s, q)
    case Some(n) => Some(Marker(QNumber, n))
    case None =>
      match MatchQuestionNumber(s, q)
      case Some(n) => Some(Marker(QuestionNumber, n))
      case None =>
        match MatchNumberDot(s, q)
        case Some(n) => Some(Marker(NumberDot, n))
        case None => None
  }

  /** A whitespace stretch starting at `a` lies within the run `SpaceRun` measures. */
  lemma {:induction false} SpaceRunCovers(s: string, a: nat, e: nat)
    requires a <= e <= |s|
    requires forall j :: a <= j < e ==> IsSpace(s[j])
    ensures e <= a + SpaceRun(s, a)
    decreases e - a
  {
    if a < e {
      assert IsSpace(s[a]);
      SpaceRunCovers(s, a + 1, e);
    }
  }

  /** A digit stretch starting at `a` lies within the run `DigitRun` measures. */
  lemma {:induction false} DigitRunCovers(s: string, a: nat, e: nat)
    requires a <= e <= |s|
    requires forall j :: a <= j < e ==> IsDigit(s[j])
    ensures e <= a + DigitRun(s, a)
    decreases e - a
  {
    if a < e {
      assert IsDigit(s[a]);
      DigitRunCovers(s, a + 1, e);
    }
  }

  /** `\d+` matches `s[a..e]` exactly when `e` lies inside the digit run at `a`. */
  lemma DigitsAt(s: string, a: nat, e: nat)
    requires a <= e <= |s|
    ensures a < e && DigitsIn(s, a, e) <==> a < e <= a + DigitRun(s, a)
  {
    DigitRunAll(s, a);
    if DigitsIn(s, a, e) {
      DigitRunCovers(s, a, e);
    }
  }

  /** `\s*\d+` matches `s[a..e]` exactly when `e` lies past the whitespace run
      at `a` and within the digit run that follows it. */
  lemma {:induction false} SpaceDigitsAt(s: string, a: nat, e: nat)
    requires a <= e <= |s|
    ensures SpaceDigitsIn(s, a, e) <==>
              var b := a + SpaceRun(s, a); b < e <= b + DigitRun(s, b)
    decreases e - a
  {
    if a < e {
      if IsSpace(s[a]) {
        assert !IsDigit(s[a]);
        SpaceDigitsAt(s, a + 1, e);
      } else {
        DigitsAt(s, a, e);
      }
    }
  }

  /** The matches of `Q\.?\s*\d+` at `q` are exactly the ones that end inside the
      digit run after the `Q`, its optional dot and its whitespace. */
  lemma QNumberLanguage(s: string, q: nat, n: nat)
    requires q + n <= |s|
    ensures AltMatches(s, q, QNumber, n) <==>
              && q < |s| && s[q] == 'Q'
              && var a := QRestStart(s, q);
              && var b := a + SpaceRun(s, a);
              && b < q + n <= b + DigitRun(s, b)
  {
    if n >= 1 && s[q] == 'Q' {
      if q + 1 < |s| && s[q + 1] == '.' {
        QNumberDotted(s, q, n);
      } else {
        QNumberPlain(s, q, n);
      }
    }
  }

  /** With a dot after the `Q`, `\s*\d+` has to match after the dot, since it
      cannot start at the dot itself. */
  lemma QNumberDotted(s: string, q: nat, n: nat)
    requires q + n <= |s| && 1 <= n && s[q] == 'Q' && q + 1 < |s| && s[q + 1] == '.'
    ensures AltMatches(s, q, QNumber, n) <==>
              var b := q + 2 + SpaceRun(s, q + 2); b < q + n <= b + DigitRun(s, b)
  {
    assert !SpaceDigitsIn(s, q + 1, q + n) by {
      assert !IsSpace(s[q + 1]) && !IsDigit(s[q + 1]);
    }
    if n >= 2 {
      SpaceDigitsAt(s, q + 2, q + n);
    }
  }

  /** Without a dot after the `Q`, `\s*\d+` has to match right after the `Q`. */
  lemma QNumberPlain(s: string, q: nat, n: nat)
    requires q + n <= |s| && 1 <= n && s[q] == 'Q' && !(q + 1 < |s| && s[q + 1] == '.')
    ensures AltMatches(s, q, QNumber, n) <==>
              var b := q + 1 + SpaceRun(s, q + 1); b < q + n <= b + DigitRun(s, b)
  {
    SpaceDigitsAt(s, q + 1, q + n);
  }

  /** `MatchQNumber` finds the longest match of `Q\.?\s*\d+`, or reports that there
      is none. */
  lemma MatchQNumberCorrect(s: string, q: nat)
    requires q <= |s|
    ensures MatchQNumber(s, q).Some? ==>
              && AltMatches(s, q, QNumber, MatchQNumber(s, q).value)
              && forall n' :: MatchQNumber(s, q).value < n' ==> !AltMatches(s, q, QNumber, n')
    ensures MatchQNumber(s, q).None? ==> AltFails(s, q, QNumber)
  {
    forall n: nat | q + n <= |s| {
      QNumberLanguage(s, q, n);
    }
  }

  /** The matches of `Question\s*\d+` at `q` are exactly the ones that end inside
      the digit run after the word and its whitespace. */
  lemma QuestionNumberLanguage(s: string, q: nat, n: nat)
    requires q + n <= |s|
    ensures AltMatches(s, q, QuestionNumber, n) <==>
              && q + 8 <= |s| && s[q..q + 8] == "Question"
              && var b := q + 8 + SpaceRun(s, q + 8); b < q + n <= b + DigitRun(s, b)
  {
    if n >= 8 {
      SpaceDigitsAt(s, q + 8, q + n);
    }
  }

  /** `\d+\.` has at most one match at `q`: the whole digit run and the dot after it. */
  lemma NumberDotLanguage(s: string, q: nat, n: nat)
    requires q + n <= |s|
    ensures AltMatches(s, q, NumberDot, n) <==>
              && var d := DigitRun(s, q);
              && d > 0 && n == d + 1 && s[q + d] == '.'
  {
    DigitRunAll(s, q);
    if AltMatches(s, q, NumberDot, n) {
      DigitRunCovers(s, q, q + n - 1);
    }
  }

  /** `MatchQuestionNumber` finds the longest match of `Question\s*\d+`, or
      reports that there is none. */
  lemma MatchQuestionNumberCorrect(s: string, q: nat)
    requires q <= |s|
    ensures MatchQuestionNumber(s, q).Some? ==>
              && AltMatches(s, q, QuestionNumber, MatchQuestionNumber(s, q).value)
              && forall n' :: MatchQuestionNumber(s, q).value < n' ==> !AltMatches(s, q, QuestionNumber, n')
    ensures MatchQuestionNumber(s, q).None? ==> AltFails(s, q, QuestionNumber)
  {
    forall n: nat | q + n <= |s| {
      QuestionNumberLanguage(s, q, n);
    }
  }

  /** `MatchNumberDot` finds the match of `\d+\.`, or reports that there is none. */
  lemma MatchNumberDotCorrect(s: string, q: nat)
    requires q <= |s|
    ensures MatchNumberDot(s, q).Some? ==>
              && AltMatches(s, q, NumberDot, MatchNumberDot(s, q).value)
              && forall n' :: MatchNumberDot(s, q).value < n' ==> !AltMatches(s, q, NumberDot, n')
    ensures MatchNumberDot(s, q).None? ==> AltFails(s, q, NumberDot)
  {
    forall n: nat | q + n <= |s| {
      NumberDotLanguage(s, q, n);
    }
  }

  /** `MarkerAt` reports what the regular-expression engine reports: the first
      alternative that matches, with its longest match, or nothing when no
      alternative matches at all. */
  lemma MarkerAtIsRegexChoice(s: string, q: nat)
    requires q <= |s|
    ensures MarkerAt(s, q).Some? ==> RegexChoice(s, q, MarkerAt(s, q).value.alt, MarkerAt(s, q).value.len)
    ensures MarkerAt(s, q).None? <==>
              AltFails(s, q, QNumber) && AltFails(s, q, QuestionNumber) && AltFails(s, q, NumberDot)
  {
    MatchQNumberCorrect(s, q);
    MatchQuestionNumberCorrect(s, q);
    MatchNumberDotCorrect(s, q);
  }

  /** The regular-expression choice at `q` is unique, and it is what `MarkerAt`
      returns. */
  lemma MarkerAtExactly(s: string, q: nat, a: Alt, n: nat)
    requires q <= |s|
    ensures MarkerAt(s, q) == Some(Marker(a, n)) <==> RegexChoice(s, q, a, n)
  {
    MarkerAtIsRegexChoice(s, q);
    if RegexChoice(s, q, a, n) && MarkerAt(s, q).Some? {
      var mk := MarkerAt(s, q).value;
      assert AltMatches(s, q, mk.alt, mk.len);
    }
  }
}
