/** The exam session: which question is shown, and how `/next`,
    `/previous`, `/upload`, `/finish` and `/exam` move or read it. Only the
    index arithmetic is modelled; the session store is a value. */
module Navigation {
  import opened Wrappers
  import opened Upload
  import opened Extraction

  /** `/next`: one question forward, unless `current` is already at (or past)
      the last question. */
  function Next(current: int, total: nat): (r: int)
    ensures current <= r <= current + 1
    ensures r == current + 1 <==> current < total - 1
  {
    if current < total - 1 then current + 1 else current
  }

  /** `/previous`: one question back, unless `current` is already at (or
      before) the first question. */
  function Previous(current: int): (r: int)
    ensures current - 1 <= r <= current
    ensures r == current - 1 <==> current > 0
  {
    if current > 0 then current - 1 else current
  }

  /** The indices the session can show: `0` up to the last question, or just
      `0` when there are no questions. */
  predicate InRange(current: int, total: nat) {
    0 <= current && (current < total || current == 0)
  }

  /** `/next` moves forward by exactly one when a later question exists, and
      otherwise leaves the index where it is; from an index in range it stays in
      range. */
  lemma NextStep(current: int, total: nat)
    ensures current < total - 1 ==> Next(current, total) == current + 1
    ensures current >= total - 1 ==> Next(current, total) == current
    ensures InRange(current, total) ==> InRange(Next(current, total), total)
  {
  }

  /** `/previous` moves back by exactly one when an earlier question exists,
      and otherwise leaves the index where it is; from an index in range it
      stays in range. */
  lemma PreviousStep(current: int, total: nat)
    ensures current > 0 ==> Previous(current) == current - 1
    ensures current <= 0 ==> Previous(current) == current
    ensures InRange(current, total) ==> InRange(Previous(current), total)
  {
  }

  /** `/previous` undoes `/next` whenever `/next` moved from an index in
      range, and `/next` undoes
      `/previous` whenever `/previous` moved inside the question list. */
  lemma NextPreviousInverse(current: int, total: nat)
    ensures 0 <= current && Next(current, total) != current ==> Previous(Next(current, total)) == current
    ensures Previous(current) != current && current < total ==> Next(Previous(current), total) == current
  {
  }

  /** The session values the routes read: the stored questions and the
      current index (`session.get` falls back to `[]` and `0`). */
  datatype Session = Session(questions: seq<Question>, current: int)

  /** An empty or cleared session. */
  const Cleared := Session([], 0)

  /** The requests that change the session. `UploadFile` carries the submitted
      file name, the page texts of the file, and whether the form's `duration`
      field converts with `int(...)`. */
  datatype Request =
    | UploadFile(filename: string, pages: seq<PageText>, durationParses: bool)
    | NextQuestion
    | PreviousQuestion
    | Finish

  /** How one request changes the session. An upload with an empty or
      disallowed name is redirected without touching the session. An upload
      whose `duration` does not convert raises after the questions were put in
      the session; run with `debug=True`, Flask propagates the error and the
      session is not saved. */
  function Step(s: Session, r: Request): (s': Session)
    ensures r.UploadFile? ==>
              if r.filename != [] && AllowedFile(r.filename) && r.durationParses
              then s' == Session(ExtractQuestions(r.pages), 0)
              else s' == s
    ensures r.NextQuestion? || r.PreviousQuestion? ==> s'.questions == s.questions
    ensures r.NextQuestion? ==> s'.current == Next(s.current, |s.questions|)
    ensures r.PreviousQuestion? ==> s'.current == Previous(s.current)
    ensures r.Finish? ==> s' == Cleared
  {
    match r
    case UploadFile(name, pages, durationParses) =>
      if name != [] && AllowedFile(name) && durationParses then Session(ExtractQuestions(pages), 0) else s
    case NextQuestion => s.(current := Next(s.current, |s.questions|))
    case PreviousQuestion => s.(current := Previous(s.current))
    case Finish => Cleared
  }

  /** The session after a sequence of requests, starting from an empty one. */
  function Run(rs: seq<Request>): (s: Session)
    decreases |rs|
  {
    if |rs| == 0 then Cleared else Step(Run(rs[..|rs| - 1]), rs[|rs| - 1])
  }

  /** Every request keeps the index inside the question list. */
  lemma StepInRange(s: Session, r: Request)
    requires InRange(s.current, |s.questions|)
    ensures InRange(Step(s, r).current, |Step(s, r).questions|)
  {
    NextStep(s.current, |s.questions|);
  }

  /** Whatever requests arrive, the index stays within `0..max(0, total-1)`. */
  lemma {:induction false} RunInRange(rs: seq<Request>)
    ensures InRange(Run(rs).current, |Run(rs).questions|)
    decreases |rs|
  {
    if |rs| > 0 {
      RunInRange(rs[..|rs| - 1]);
      StepInRange(Run(rs[..|rs| - 1]), rs[|rs| - 1]);
    }
  }

  /** What `/exam` does. */
  datatype View =
    | RedirectToIndex
    | Render(question: Option<Question>, position: int, total: nat)
    | IndexError

  /** `/exam`: with no questions it redirects; otherwise it renders the
      question at `current` when `current < len(questions)` (Python's indexing,
      so a negative index counts from the end) and `None` past the end, with the
      position shown as `current + 1`. */
  function ExamView(s: Session): (v: View)
    ensures v.RedirectToIndex? <==> s.questions == []
    ensures v.IndexError? <==> s.questions != [] && s.current < -|s.questions|
    ensures v.Render? ==> v.position == s.current + 1 && v.total == |s.questions|
    ensures v.Render? && v.question.None? <==> s.questions != [] && s.current >= |s.questions|
    ensures v.Render? && v.question.Some? ==>
              v.question.value == s.questions[if s.current >= 0 then s.current else |s.questions| + s.current]
  {
    var qs := s.questions;
    if |qs| == 0 then RedirectToIndex
    else if s.current < |qs| then
      if 0 <= s.current then Render(Some(qs[s.current]), s.current + 1, |qs|)
      else if -|qs| <= s.current then Render(Some(qs[|qs| + s.current]), s.current + 1, |qs|)
      else IndexError
    else Render(None, s.current + 1, |qs|)
  }

  /** For every session the requests can produce, `/exam` either redirects
      (no questions) or renders the question at the current index, shown as
      position `1..total`; the `None` and error branches are never reached. */
  lemma ExamViewReachable(rs: seq<Request>)
    ensures var s := Run(rs);
            if s.questions == [] then ExamView(s) == RedirectToIndex
            else
              && 1 <= s.current + 1 <= |s.questions|
              && ExamView(s) == Render(Some(s.questions[s.current]), s.current + 1, |s.questions|)
  {
    RunInRange(rs);
  }
}
