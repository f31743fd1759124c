/** The text side of `extract_questions_from_pdf`: joining the page texts,
    splitting on the question pattern, and turning the pieces after the first
    match into question records. */
module Extraction {
  import opened Wrappers
  import opened Chars
  import opened Markers
  import opened Splitting

  /** What `page.extract_text()` returned for one page: `None` when the page
      has no text. */
  type PageText = Option<string>

  /** Longest question text a record keeps. */
  const MaxQuestionLength: nat := 500

  /** One extracted question: `{'id': id, 'question': question}`. */
  datatype Question = Question(id: nat, question: string)

  /** What one page adds to the full text: its text and a newline, or nothing
      when the text is missing or empty (both are falsy in `if text:`). */
  function Contribution(page: PageText): (c: string)
    ensures c == [] <==> page.None? || page.value == []
    ensures c != [] ==> c[|c| - 1] == '\n'
  {
    if page.Some? && page.value != [] then page.value + "\n" else []
  }

  /** The contributions of the pages, in page order. */
  function JoinPages(pages: seq<PageText>): (text: string)
    decreases |pages|
  {
    if |pages| == 0 then [] else Contribution(pages[0]) + JoinPages(pages[1..])
  }

  /** Joining distributes over splitting the page list in two. */
  lemma {:induction false} JoinPagesAppend(a: seq<PageText>, b: seq<PageText>)
    ensures JoinPages(a + b) == JoinPages(a) + JoinPages(b)
    decreases |a|
  {
    if |a| > 0 {
      assert (a + b)[1..] == a[1..] + b;
      JoinPagesAppend(a[1..], b);
    } else {
      assert a + b == b;
    }
  }

  /** The joined text is empty exactly when no page has any text. */
  lemma {:induction false} JoinPagesEmpty(pages: seq<PageText>)
    ensures JoinPages(pages) == [] <==> forall i :: 0 <= i < |pages| ==> Contribution(pages[i]) == []
    decreases |pages|
  {
    if |pages| > 0 {
      JoinPagesEmpty(pages[1..]);
      assert forall i :: 1 <= i < |pages| ==> pages[1..][i - 1] == pages[i];
    }
  }

  /** The joined text is empty or ends with the newline of its last page. */
  lemma {:induction false} JoinPagesEndsWithNewline(pages: seq<PageText>)
    ensures JoinPages(pages) != [] ==> JoinPages(pages)[|JoinPages(pages)| - 1] == '\n'
    decreases |pages|
  {
    if |pages| > 0 {
      JoinPagesEndsWithNewline(pages[1..]);
      var c := Contribution(pages[0]);
      var rest := JoinPages(pages[1..]);
      if rest != [] {
        assert (c + rest)[|c + rest| - 1] == rest[|rest| - 1];
      } else {
        assert c + rest == c;
      }
    }
  }

  /** The page loop of `extract_questions_from_pdf`: `full_text += text + "\n"`
      for every page whose text is non-empty. */
  method ConcatPages(pages: seq<PageText>) returns (fullText: string)
    ensures fullText == JoinPages(pages)
  {
    fullText := "";
    for i := 0 to |pages|
      invariant fullText == JoinPages(pages[..i])
    {
      var text := pages[i];
      if text.Some? && text.value != [] {
        fullText := fullText + text.value + "\n";
      }
      JoinPagesAppend(pages[..i], [pages[i]]);
      assert pages[..i + 1] == pages[..i] + [pages[i]];
      assert JoinPages([pages[i]]) == Contribution(pages[i]) + JoinPages([]);
    }
    assert pages[..|pages|] == pages;
  }

  /** The pieces with their surrounding whitespace removed (`part.strip()`). */
  function StripAll(parts: seq<string>): (ts: seq<string>)
    ensures |ts| == |parts|
    ensures forall k :: 0 <= k < |parts| ==> ts[k] == Strip(parts[k])
  {
    seq(|parts|, k requires 0 <= k < |parts| => Strip(parts[k]))
  }

  /** `q` is the record for stripped piece `q.id`: that piece is not empty,
      and the record keeps its first `MaxQuestionLength` characters. */
  predicate RecordOf(ts: seq<string>, q: Question) {
    && q.id < |ts|
    && ts[q.id] != []
    && q.question == Take(ts[q.id], MaxQuestionLength)
  }

  /** Some record carries id `k`. */
  predicate HasId(qs: seq<Question>, k: nat) {
    exists j :: 0 <= j < |qs| && qs[j].id == k
  }

  /** A record's text is non-empty, at most `MaxQuestionLength` long, and a
      prefix of the stripped piece it came from. */
  lemma RecordShape(ts: seq<string>, q: Question)
    requires RecordOf(ts, q)
    ensures q.question != []
    ensures |q.question| <= MaxQuestionLength
    ensures q.question <= ts[q.id]
  {
  }

  /** The records for the stripped pieces `ts[i..]`, numbered by position in
      `ts`, skipping the empty ones. */
  function RecordsFrom(ts: seq<string>, i: nat): (qs: seq<Question>)
    requires 1 <= i <= |ts|
    ensures |qs| <= |ts| - i
    ensures forall j :: 0 <= j < |qs| ==> i <= qs[j].id && RecordOf(ts, qs[j])
    ensures forall j, k :: 0 <= j < k < |qs| ==> qs[j].id < qs[k].id
    decreases |ts| - i
  {
    if i == |ts| then []
    else
      var rest := RecordsFrom(ts, i + 1);
      if ts[i] != [] then [Question(i, Take(ts[i], MaxQuestionLength))] + rest else rest
  }

  /** A non-empty stripped piece at position `k >= i` gets a record among those
      for `ts[i..]`. */
  lemma {:induction false} RecordsFromHas(ts: seq<string>, i: nat, k: nat)
    requires 1 <= i <= k < |ts|
    requires ts[k] != []
    ensures HasId(RecordsFrom(ts, i), k)
    decreases k - i
  {
    var qs := RecordsFrom(ts, i);
    if i == k {
      assert qs[0].id == i;
    } else {
      RecordsFromHas(ts, i + 1, k);
      var rest := RecordsFrom(ts, i + 1);
      var j :| 0 <= j < |rest| && rest[j].id == k;
      if ts[i] != [] {
        assert qs[j + 1] == rest[j];
      } else {
        assert qs[j] == rest[j];
      }
    }
  }

  /** Every non-empty stripped piece from position `i` on gets a record. */
  lemma RecordsFromComplete(ts: seq<string>, i: nat)
    requires 1 <= i <= |ts|
    ensures forall k :: i <= k < |ts| && ts[k] != [] ==> HasId(RecordsFrom(ts, i), k)
  {
    forall k | i <= k < |ts| && ts[k] != [] {
      RecordsFromHas(ts, i, k);
    }
  }

  /** The record loop of `extract_questions_from_pdf`: every piece after the
      first whose stripped text is non-empty becomes a record whose id is the
      piece's position; the pieces are visited in order. */
  function Questions(parts: seq<string>): (qs: seq<Question>)
    ensures |parts| <= 1 ==> qs == []
    ensures |parts| >= 1 ==> |qs| < |parts|
    ensures forall j :: 0 <= j < |qs| ==> 1 <= qs[j].id && RecordOf(StripAll(parts), qs[j])
    ensures forall j, k :: 0 <= j < k < |qs| ==> qs[j].id < qs[k].id
    ensures forall k :: 1 <= k < |parts| ==> (Strip(parts[k]) != [] <==> HasId(qs, k))
  {
    if |parts| == 0 then []
    else
      var ts := StripAll(parts);
      RecordsFromComplete(ts, 1);
      RecordsFrom(ts, 1)
  }

  /** The pure part of `extract_questions_from_pdf`: the pages' texts in, the
      question records out. There are at most as many records as matches of the
      question pattern; their ids are increasing positions `1..|matches|` in the
      split; each record's text is a non-empty prefix, at most
      `MaxQuestionLength` long, of the stripped piece it came from; and a piece
      after a match has a record exactly when it is not blank. */
  function ExtractQuestions(pages: seq<PageText>): (qs: seq<Question>)
    ensures var text := JoinPages(pages);
            && |qs| <= |Matches(text)|
            && (forall j :: 0 <= j < |qs| ==>
                  && 1 <= qs[j].id <= |Matches(text)|
                  && qs[j].question != []
                  && |qs[j].question| <= MaxQuestionLength
                  && qs[j].question <= Strip(Split(text)[qs[j].id]))
            && (forall j, k :: 0 <= j < k < |qs| ==> qs[j].id < qs[k].id)
            && (forall k :: 1 <= k <= |Matches(text)| ==> (Strip(Split(text)[k]) != [] <==> HasId(qs, k)))
  {
    var parts := Split(JoinPages(pages));
    var qs := Questions(parts);
    forall j | 0 <= j < |qs| {
      RecordShape(StripAll(parts), qs[j]);
    }
    qs
  }

  /** Each record of the extraction holds exactly the first `MaxQuestionLength`
      characters of its stripped piece of the split text. */
  lemma ExtractQuestionsText(pages: seq<PageText>)
    ensures var text := JoinPages(pages);
            var qs := ExtractQuestions(pages);
            forall j :: 0 <= j < |qs| ==>
              qs[j].question == Take(Strip(Split(text)[qs[j].id]), MaxQuestionLength)
  {
  }

  /** Text in which the pattern matches nowhere, neither at its start nor after
      any newline, yields no questions; the text before the first match never
      yields one either. */
  lemma NoMarkerNoQuestions(pages: seq<PageText>)
    requires forall k :: 0 <= k <= |JoinPages(pages)| ==> MatchAt(JoinPages(pages), k).None?
    ensures ExtractQuestions(pages) == []
  {
    SplitSingleIffNoMatch(JoinPages(pages));
  }

  lemma ExampleStrips()
    ensures Strip(" A") == "A" && Strip("") == "" && Strip(" B\n") == "B"
  {
    StripUnique(" ", "A", "");
    assert " " + "A" + "" == " A";
    StripUnique(" ", "B", "\n");
    assert " " + "B" + "\n" == " B\n";
  }

  lemma ExampleRecords(parts: seq<string>)
    requires parts == ["", " A", "", " B\n"]
    ensures Questions(parts) == [Question(1, "A"), Question(3, "B")]
  {
    var ts := StripAll(parts);
    assert ts == ["", "A", "", "B"] by {
      ExampleStrips();
    }
    assert RecordsFrom(ts, 4) == [];
    assert RecordsFrom(ts, 3) == [Question(3, "B")];
    assert RecordsFrom(ts, 2) == [Question(3, "B")];
    assert RecordsFrom(ts, 1) == [Question(1, "A"), Question(3, "B")];
  }

  /** An example of the numbering: a blank piece between two markers keeps its
      id, so the ids have a gap. */
  lemma ExtractExample()
    ensures ExtractQuestions([Some("Q1 A\nQ2\n3. B")]) == [Question(1, "A"), Question(3, "B")]
  {
    var pages := [Some("Q1 A\nQ2\n3. B")];
    assert JoinPages(pages) == ExampleText by {
      assert JoinPages(pages) == Contribution(pages[0]) + JoinPages([]);
    }
    SplitExample();
    ExampleRecords(Split(ExampleText));
  }

  lemma DotExampleSplit()
    ensures Split("Q1. Hi\n") == ["", ". Hi\n"]
  {
    var text := "Q1. Hi\n";
    assert DigitRun(text, 1) == 1;
    assert MarkerAt(text, 0) == Some(Marker(QNumber, 2));
    assert MarkerAt(text, 7).None?;
    var ms := [Span(0, 2)];
    assert NoMatchIn(text, 7, 8);
    assert NoMatchIn(text, 6, 8);
    assert NoMatchIn(text, 5, 8);
    assert NoMatchIn(text, 4, 8);
    assert NoMatchIn(text, 3, 8);
    assert NoMatchIn(text, 2, 8);
    assert IsScan(text, 2, ms[1..]);
    assert IsScan(text, 0, ms);
    ScanUnique(text, 0, ms);
    assert Pieces(text, 2, ms[1..]) == [text[2..]];
  }

  lemma DotExampleRecords(parts: seq<string>)
    requires parts == ["", ". Hi\n"]
    ensures Questions(parts) == [Question(1, ". Hi")]
  {
    var ts := StripAll(parts);
    assert ts == ["", ". Hi"] by {
      StripUnique("", ". Hi", "\n");
      assert "" + ". Hi" + "\n" == ". Hi\n";
    }
    assert RecordsFrom(ts, 2) == [];
    assert RecordsFrom(ts, 1) == [Question(1, ". Hi")];
  }

  /** `Q\.?\s*\d+` stops after the digits, so the dot of a `Q1.` heading stays
      at the front of the question text. */
  lemma DotAfterNumberKept()
    ensures ExtractQuestions([Some("Q1. Hi")]) == [Question(1, ". Hi")]
  {
    var pages := [Some("Q1. Hi")];
    assert JoinPages(pages) == "Q1. Hi\n" by {
      assert JoinPages(pages) == Contribution(pages[0]) + JoinPages([]);
    }
    DotExampleSplit();
    DotExampleRecords(Split("Q1. Hi\n"));
  }
}
