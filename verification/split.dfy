/** `re.split(question_pattern, full_text)` for the pattern
    `(?:^|\n)(?:Q\.?\s*\d+|Question\s*\d+|\d+\.)`, compiled without flags: `^`
    matches only at the very start of the text, and a `\n` before the marker is
    consumed with it. */
module Splitting {
  import opened Wrappers
  import opened Markers

  /** A stretch `s[start..end]` consumed by one match of the pattern. */
  datatype Span = Span(start: nat, end: nat)

  /** The end of the match of the whole pattern that starts at `p`, if one does:
      at the start of the text the `^` branch is tried first and a marker right
      there matches; otherwise (and also at 0 when that fails) the match starts
      with a `\n` and the marker follows it. */
  function MatchAt(s: string, p: nat): (r: Option<nat>)
    requires p <= |s|
    ensures r.Some? ==> p < r.value <= |s|
    ensures r.Some? && p > 0 ==> s[p] == '\n'
  {
    if p == 0 && MarkerAt(s, 0).Some? then Some(MarkerAt(s, 0).value.len)
    else if p < |s| && s[p] == '\n' && MarkerAt(s, p + 1).Some? then Some(p + 1 + MarkerAt(s, p + 1).value.len)
    else None
  }

  /** No match of the pattern starts at any of the positions `p`, ..., `e - 1`. */
  predicate NoMatchIn(s: string, p: nat, e: nat)
    requires p <= e <= |s| + 1
    decreases e - p
  {
    p == e || (MatchAt(s, p).None? && NoMatchIn(s, p + 1, e))
  }

  /** The leftmost match starting at or after `p`, as `re` searches for it. */
  function FindFrom(s: string, p: nat): (r: Option<Span>)
    requires p <= |s|
    ensures r.Some? ==> p <= r.value.start <= |s| && MatchAt(s, r.value.start) == Some(r.value.end)
    ensures r.Some? ==> NoMatchIn(s, p, r.value.start)
    ensures r.None? ==> NoMatchIn(s, p, |s| + 1)
    decreases |s| - p
  {
    match MatchAt(s, p)
    case Some(e) => Some(Span(p, e))
    case None => if p == |s| then None else FindFrom(s, p + 1)
  }

  /** What `re` reports when it scans `s` from `p`: the leftmost match at or after
      `p`, then the leftmost match at or after the end of that one, and so on,
      with no match starting anywhere after the last one ends. Positions inside
      a consumed match are never tried. */
  ghost predicate IsScan(s: string, p: nat, ms: seq<Span>)
    requires p <= |s|
    decreases |ms|
  {
    if |ms| == 0 then
      NoMatchIn(s, p, |s| + 1)
    else
      && p <= ms[0].start <= |s|
      && MatchAt(s, ms[0].start) == Some(ms[0].end)
      && NoMatchIn(s, p, ms[0].start)
      && IsScan(s, ms[0].end, ms[1..])
  }

  /** The spans lie in order, without overlapping, inside `s[p..]`. */
  predicate Ordered(s: string, p: nat, ms: seq<Span>)
    decreases |ms|
  {
    && p <= |s|
    && (|ms| == 0 || (p <= ms[0].start <= ms[0].end <= |s| && Ordered(s, ms[0].end, ms[1..])))
  }

  /** The non-overlapping matches found scanning left to right from `p`. */
  function Scan(s: string, p: nat): (ms: seq<Span>)
    requires p <= |s|
    ensures IsScan(s, p, ms)
    ensures Ordered(s, p, ms)
    decreases |s| - p
  {
    match FindFrom(s, p)
    case None => []
    case Some(sp) =>
      var ms := [sp] + Scan(s, sp.end);
      assert ms[1..] == Scan(s, sp.end);
      ms
  }

  /** The text between the spans: before the first, between consecutive ones and
      after the last. */
  function Pieces(s: string, p: nat, ms: seq<Span>): (parts: seq<string>)
    requires Ordered(s, p, ms)
    ensures |parts| == |ms| + 1
    decreases |ms|
  {
    if |ms| == 0 then [s[p..]]
    else [s[p..ms[0].start]] + Pieces(s, ms[0].end, ms[1..])
  }

  /** The text each span consumed. */
  function Consumed(s: string, p: nat, ms: seq<Span>): (ds: seq<string>)
    requires Ordered(s, p, ms)
    ensures |ds| == |ms|
    decreases |ms|
  {
    if |ms| == 0 then []
    else [s[ms[0].start..ms[0].end]] + Consumed(s, ms[0].end, ms[1..])
  }

  /** The matches of the question pattern in `s`, in document order. */
  function Matches(s: string): (ms: seq<Span>)
    ensures IsScan(s, 0, ms)
  {
    Scan(s, 0)
  }

  /** `re.split(question_pattern, s)`: the pattern has no capturing group, so
      the result is just the pieces between the matches. */
  function Split(s: string): (parts: seq<string>)
    ensures |parts| == |Matches(s)| + 1
  {
    Pieces(s, 0, Matches(s))
  }

  /** The markers `re.split` removed, each with the `\n` it consumed. */
  function Separators(s: string): (ds: seq<string>)
    ensures |ds| == |Matches(s)|
  {
    Consumed(s, 0, Matches(s))
  }

  /** Pieces and separators laid back together in turn. */
  function Interleave(parts: seq<string>, seps: seq<string>): (s: string)
    requires |parts| == |seps| + 1
    decreases |seps|
  {
    if |seps| == 0 then parts[0]
    else parts[0] + seps[0] + Interleave(parts[1..], seps[1..])
  }

  /** `NoMatchIn` says that the pattern matches at none of the positions
      `p..e - 1`. */
  lemma {:induction false} NoMatchInMeans(s: string, p: nat, e: nat)
    requires p <= e <= |s| + 1
    ensures NoMatchIn(s, p, e) <==> forall k :: p <= k < e ==> MatchAt(s, k).None?
    decreases e - p
  {
    if p < e {
      NoMatchInMeans(s, p + 1, e);
    }
  }

  /** The search from `p` reports the match at `st` when none starts before it. */
  lemma {:induction false} FindFromFirst(s: string, p: nat, st: nat, e: nat)
    requires p <= st <= |s|
    requires NoMatchIn(s, p, st) && MatchAt(s, st) == Some(e)
    ensures FindFrom(s, p) == Some(Span(st, e))
    decreases st - p
  {
    if p < st {
      assert MatchAt(s, p).None? && NoMatchIn(s, p + 1, st);
      FindFromFirst(s, p + 1, st, e);
    }
  }

  /** The search from `p` reports nothing when no match starts from `p` on. */
  lemma {:induction false} FindFromNone(s: string, p: nat)
    requires p <= |s|
    requires NoMatchIn(s, p, |s| + 1)
    ensures FindFrom(s, p).None?
    decreases |s| - p
  {
    if p < |s| {
      FindFromNone(s, p + 1);
    }
  }

  /** Scanning is deterministic: the only span sequence that is a scan of `s`
      from `p` is the one `Scan` computes. */
  lemma {:induction false} ScanUnique(s: string, p: nat, ms: seq<Span>)
    requires p <= |s|
    requires IsScan(s, p, ms)
    ensures ms == Scan(s, p)
    decreases |ms|
  {
    if |ms| == 0 {
      FindFromNone(s, p);
    } else {
      FindFromFirst(s, p, ms[0].start, ms[0].end);
      ScanUnique(s, ms[0].end, ms[1..]);
    }
  }

  /** Laying the pieces and the consumed markers back together in turn gives
      back the scanned text exactly. */
  lemma {:induction false} PiecesRoundTrip(s: string, p: nat, ms: seq<Span>)
    requires Ordered(s, p, ms)
    ensures Interleave(Pieces(s, p, ms), Consumed(s, p, ms)) == s[p..]
    decreases |ms|
  {
    if |ms| > 0 {
      var parts := Pieces(s, p, ms);
      var seps := Consumed(s, p, ms);
      assert parts[1..] == Pieces(s, ms[0].end, ms[1..]);
      assert seps[1..] == Consumed(s, ms[0].end, ms[1..]);
      PiecesRoundTrip(s, ms[0].end, ms[1..]);
      assert s[p..] == s[p..ms[0].start] + s[ms[0].start..ms[0].end] + s[ms[0].end..];
    }
  }

  /** Split round trip: the pieces of `re.split` interleaved with the markers it
      consumed (each with its leading `\n` where there was one) reconstruct the
      text. */
  lemma SplitRoundTrip(s: string)
    ensures Interleave(Split(s), Separators(s)) == s
  {
    PiecesRoundTrip(s, 0, Matches(s));
  }

  /** The split has a single piece, the whole text, exactly when the pattern
      matches nowhere: no marker at the start of the text and none after any
      newline. */
  lemma SplitSingleIffNoMatch(s: string)
    ensures |Split(s)| == 1 <==> forall k :: 0 <= k <= |s| ==> MatchAt(s, k).None?
    ensures |Split(s)| == 1 ==> Split(s)[0] == s
  {
    NoMatchInMeans(s, 0, |s| + 1);
  }

  /** Example text: a `Q1` marker at the very start, a `Q2` marker after a
      newline with nothing after it on its line, and a `3.` marker. */
  const ExampleText: string := "Q1 A\nQ2\n3. B\n"

  lemma ExampleMarkerAt0()
    ensures MarkerAt(ExampleText, 0) == Some(Marker(QNumber, 2))
  {
    var text := ExampleText;
    assert text[1] == '1' && text[2] == ' ';
    assert SpaceRun(text, 1) == 0;
    assert QRestStart(text, 0) == 1;
    assert DigitRun(text, 2) == 0;
    assert DigitRun(text, 1) == 1;
    assert MatchQNumber(text, 0) == Some(2);
  }

  lemma ExampleMarkerAt5()
    ensures MarkerAt(ExampleText, 5) == Some(Marker(QNumber, 2))
  {
    var text := ExampleText;
    assert text[6] == '2' && text[7] == '\n';
    assert SpaceRun(text, 6) == 0;
    assert QRestStart(text, 5) == 6;
    assert DigitRun(text, 7) == 0;
    assert DigitRun(text, 6) == 1;
    assert MatchQNumber(text, 5) == Some(2);
  }

  lemma ExampleMarkerAt8()
    ensures MarkerAt(ExampleText, 8) == Some(Marker(NumberDot, 2))
  {
    assert MatchQNumber(ExampleText, 8).None?;
    assert MatchQuestionNumber(ExampleText, 8).None?;
    assert DigitRun(ExampleText, 8) == 1;
  }

  lemma ExampleScanFrom7()
    ensures IsScan(ExampleText, 7, [Span(7, 10)])
  {
    ExampleMarkerAt8();
    var text := ExampleText;
    assert NoMatchIn(text, 13, 14);
    assert NoMatchIn(text, 12, 14);
    assert NoMatchIn(text, 11, 14);
    assert NoMatchIn(text, 10, 14);
    assert IsScan(text, 10, []);
    assert [Span(7, 10)][1..] == [];
  }

  lemma ExampleScanFrom2()
    ensures IsScan(ExampleText, 2, [Span(4, 7), Span(7, 10)])
  {
    ExampleMarkerAt5();
    ExampleScanFrom7();
    var text := ExampleText;
    assert text[2] == ' ' && text[3] == 'A' && text[4] == '\n';
    assert MatchAt(text, 4) == Some(7);
    assert NoMatchIn(text, 3, 4);
    assert NoMatchIn(text, 2, 4);
    assert [Span(4, 7), Span(7, 10)][1..] == [Span(7, 10)];
  }

  lemma ExampleScanFrom0()
    ensures IsScan(ExampleText, 0, [Span(0, 2), Span(4, 7), Span(7, 10)])
  {
    ExampleMarkerAt0();
    ExampleScanFrom2();
    assert [Span(0, 2), Span(4, 7), Span(7, 10)][1..] == [Span(4, 7), Span(7, 10)];
  }

  lemma ExampleScan()
    ensures Matches(ExampleText) == [Span(0, 2), Span(4, 7), Span(7, 10)]
  {
    ExampleScanFrom0();
    ScanUnique(ExampleText, 0, [Span(0, 2), Span(4, 7), Span(7, 10)]);
  }

  lemma ExamplePieces()
    ensures Pieces(ExampleText, 0, [Span(0, 2), Span(4, 7), Span(7, 10)]) == ["", " A", "", " B\n"]
  {
    var text := ExampleText;
    var ms := [Span(0, 2), Span(4, 7), Span(7, 10)];
    assert Pieces(text, 10, ms[3..]) == [" B\n"] by { assert ms[3..] == []; }
    assert ms[2..][1..] == ms[3..];
    assert Pieces(text, 7, ms[2..]) == [text[7..7]] + Pieces(text, 10, ms[3..]);
    assert ms[1..][1..] == ms[2..];
    assert Pieces(text, 2, ms[1..]) == [text[2..4]] + Pieces(text, 7, ms[2..]);
    assert text[2..4] == " A";
    assert Pieces(text, 0, ms) == [text[0..0]] + Pieces(text, 2, ms[1..]);
    assert text[7..7] == "" && text[0..0] == "";
    assert Pieces(text, 7, ms[2..]) == ["", " B\n"];
    assert Pieces(text, 2, ms[1..]) == [" A", "", " B\n"];
  }

  lemma ExampleConsumed()
    ensures Consumed(ExampleText, 0, [Span(0, 2), Span(4, 7), Span(7, 10)]) == ["Q1", "\nQ2", "\n3."]
  {
    var text := ExampleText;
    var ms := [Span(0, 2), Span(4, 7), Span(7, 10)];
    assert Consumed(text, 10, ms[3..]) == [] by { assert ms[3..] == []; }
    assert ms[2..][1..] == ms[3..];
    assert Consumed(text, 7, ms[2..]) == [text[7..10]] + Consumed(text, 10, ms[3..]);
    assert ms[1..][1..] == ms[2..];
    assert Consumed(text, 2, ms[1..]) == [text[4..7]] + Consumed(text, 7, ms[2..]);
    assert Consumed(text, 0, ms) == [text[0..2]] + Consumed(text, 2, ms[1..]);
    assert text[0..2] == "Q1" && text[4..7] == "\nQ2" && text[7..10] == "\n3.";
  }

  /** `re.split` on the example: the empty text before the `Q1` at the start,
      then one piece per marker, the blank one after `Q2` included; each
      consumed marker after the first carries its newline. */
  lemma SplitExample()
    ensures Split(ExampleText) == ["", " A", "", " B\n"]
    ensures Separators(ExampleText) == ["Q1", "\nQ2", "\n3."]
  {
    ExampleScan();
    ExamplePieces();
    ExampleConsumed();
  }
}
