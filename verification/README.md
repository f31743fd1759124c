# Exam practice: question extraction and navigation

A Dafny model of the logic in `app.py` of the exam-practice Flask
application. A user uploads a PDF. The application extracts numbered questions
from the PDF's text and shows them one at a time, with "next" and "previous"
buttons.

The model covers four parts of `app.py`:

- **Upload filter** (`allowed_file`). A file name is accepted when it contains
  a dot and the lower-cased text after its last dot is `pdf`.
- **Question extraction** (the text part of `extract_questions_from_pdf`).
  - The texts of the pages that have text are joined, each followed by a
    newline.
  - The joined text is split with `re.split` on the pattern
    `(?:^|\n)(?:Q\.?\s*\d+|Question\s*\d+|\d+\.)`.
  - Every piece after the first is stripped. A piece that is not blank becomes
    a record: its id is the piece's position in the split, and its question is
    the first 500 characters of the stripped text.
- **Navigation** (`/next`, `/previous`). The index moves within the list of
  questions.
- **Exam view** (`/exam`). The view redirects when there are no questions.
  Otherwise it indexes the list with the stored index.

The regular expression is modelled in two layers:

- A declarative description of what Python's `re` reports. For the marker,
  this is the first alternative that matches, and within it the longest
  match. For the split, it is the leftmost non-overlapping scan.
- An executable matcher, proved equal to that description.

The split is proved to be a faithful decomposition: the pieces, interleaved
with the text the matches consumed, give back the input.

Facts about `app.py` that the model keeps:

- Ids are positions in the split, so they can have gaps.
- The cap is 500 characters, with no marker.
- A record has only an id and a question.
- A text in which the pattern matches nowhere gives an empty list.
- An upload is stored only when its `duration` field converts to an integer.

Modules:

- `wrappers.dfy`: `Option`.
- `chars.dfy`: the whitespace class shared by `str.isspace`, `str.strip` and
  `\s`; the digits; `strip`, `[:n]` and `lower`.
- `upload.dfy`: `rsplit('.', 1)` and `allowed_file`.
- `markers.dfy`: the three alternatives of the question marker.
- `split.dfy`: the `(?:^|\n)` anchor, the left-to-right scan and `re.split`.
- `extract.dfy`: page joining, the record loop and the whole extraction.
- `navigation.dfy`: the session index and the `/exam` view.

## Model

| member | source | states |
|---|---|---|
| Chars.Strip | app.py:44-47 | `part.strip()`: the result is never longer than the piece (StripInfix, StripEnds and StripUnique characterise it exactly) |
| Chars.StripInfix | app.py:44-47 | `strip()` leaves an infix of the piece that is preceded and followed only by whitespace |
| Chars.StripEnds | app.py:44 | a stripped piece is empty (the `if part.strip()` test fails) exactly when the piece is all whitespace; otherwise it starts and ends with a non-whitespace character |
| Chars.StripUnique | app.py:44-47 | stripping is characterised by its result: text between a whitespace prefix and a whitespace suffix, which itself neither starts nor ends with whitespace, is what `strip()` returns |
| Chars.Take | app.py:47 | `[:500]` is a prefix of the text, of length 500 when the text is longer and the whole text otherwise |
| Chars.Lower | app.py:19 | `.lower()` keeps the length and maps each character through the ASCII letter lowering |
| Upload.LastIndexOf | app.py:19 | finds the last occurrence of the separator, or reports that there is none |
| Upload.RSplitOnce | app.py:19 | `rsplit('.', 1)` gives the whole name when it has no dot, and otherwise the text before and after the last dot, with no dot after it |
| Upload.AllowedFile | app.py:16-19 | `allowed_file`: a name it accepts has at least four characters, the fourth from the end a dot (AllowedFileIff gives the exact set) |
| Upload.AllowedFileHasSuffix | app.py:16-19 | an accepted name ends in a dot followed by three characters that lower-case to `pdf` |
| Upload.SuffixIsAllowed | app.py:16-19 | every name ending in a dot and three characters that lower-case to `pdf` is accepted |
| Upload.AllowedFileIff | app.py:16-19 | `allowed_file` accepts exactly the names ending in `.pdf`, in any letter case |
| Upload.AllowedFileExamples | app.py:16-19 | `exam.PDF` and `.pdf` are accepted; `pdf` and `exam.pdf.txt` are rejected |
| Markers.MarkerAt | app.py:38 | the marker tried at a position is non-empty and lies inside the text (MarkerAtExactly ties it to the regex choice) |
| Markers.SpaceDigitsAt | app.py:38 | `\s*\d+` matches a stretch exactly when the stretch is the whitespace run followed by a non-empty part of the digit run after it |
| Markers.QNumberLanguage | app.py:38 | the matches of `Q\.?\s*\d+` are `Q`, an optional dot, the whitespace run and one or more digits of the digit run that follows |
| Markers.QuestionNumberLanguage | app.py:38 | the matches of `Question\s*\d+` are `Question`, the whitespace run and one or more digits of the digit run that follows |
| Markers.NumberDotLanguage | app.py:38 | `\d+\.` matches exactly the whole digit run plus the dot right after it |
| Markers.MatchQNumberCorrect | app.py:38 | the `Q` matcher returns the longest match of `Q\.?\s*\d+`, and nothing exactly when the alternative cannot match |
| Markers.MatchQuestionNumberCorrect | app.py:38 | the `Question` matcher returns the longest match of `Question\s*\d+`, and nothing exactly when it cannot match |
| Markers.MatchNumberDotCorrect | app.py:38 | the number-dot matcher returns the only match of `\d+\.`, and nothing exactly when it cannot match |
| Markers.MarkerAtIsRegexChoice | app.py:38 | the marker found at a position is the regex engine's choice: the first alternative in pattern order that matches, with its greedy length; none is found exactly when all three alternatives fail |
| Markers.MarkerAtExactly | app.py:38 | the marker matcher reports alternative `a` with length `n` if and only if that is the regex engine's choice |
| Splitting.MatchAt | app.py:38 | the `(?:^\|\n)` anchor: a match of the whole pattern is non-empty and inside the text, and one that does not start at the very beginning starts with the `\n` it consumes |
| Splitting.FindFrom | app.py:38-40 | the search from a position reports a match of the whole pattern (with `^` only at the start of the text and `\n` consumed otherwise) that starts there or later, and no match starts between the position and the one reported; reporting nothing means no match starts anywhere from the position on |
| Splitting.FindFromFirst | app.py:40 | a match with none before it is the one the search reports |
| Splitting.FindFromNone | app.py:40 | with no match from a position on, the search reports nothing |
| Splitting.Scan | app.py:40 | the scan produces leftmost, non-overlapping matches in document order, with no match starting after the last one ends |
| Splitting.ScanUnique | app.py:40 | the left-to-right scan is the only sequence of matches with that property |
| Splitting.PiecesRoundTrip | app.py:40 | the pieces between the matches, interleaved with the text the matches consumed, give back the scanned text |
| Splitting.Split | app.py:40 | `re.split` with a pattern without groups gives one more piece than there are matches |
| Splitting.SplitRoundTrip | app.py:40 | `re.split`'s pieces, interleaved with the removed markers and their newlines, reconstruct the text |
| Splitting.SplitSingleIffNoMatch | app.py:38-40 | the split has one piece, the whole text, exactly when the pattern matches nowhere |
| Splitting.SplitExample | app.py:38-40 | `"Q1 A\nQ2\n3. B\n"` splits into `""`, `" A"`, `""` and `" B\n"`; the markers removed are `Q1`, `\nQ2` and `\n3.` |
| Extraction.Contribution | app.py:32-34 | a page adds nothing exactly when its text is missing or empty, and otherwise adds text that ends in a newline |
| Extraction.JoinPagesEndsWithNewline | app.py:30-34 | the joined text is empty or ends with a newline |
| Extraction.ConcatPages | app.py:30-34 | the page loop builds the same text as the page-by-page join: each non-empty page text followed by a newline |
| Extraction.JoinPagesAppend | app.py:31-34 | joining a page list cut in two equals joining each half and concatenating |
| Extraction.JoinPagesEmpty | app.py:31-34 | the joined text is empty exactly when no page contributes text |
| Extraction.RecordShape | app.py:45-47 | a record's question is non-empty, at most 500 characters long, and a prefix of its stripped piece |
| Extraction.RecordsFrom | app.py:43-48 | the records for the pieces from position `i` on have strictly increasing ids of at least `i`; each is the record of the stripped piece at its id |
| Extraction.RecordsFromHas | app.py:43-48 | a non-blank stripped piece at position `k` from `i` on has a record with id `k` |
| Extraction.RecordsFromComplete | app.py:43-48 | every non-blank stripped piece from `i` on has a record |
| Extraction.Questions | app.py:43-48 | the first piece never gives a record; the piece at position `k >= 1` gives a record with id `k` exactly when its stripped text is not empty; ids increase; each record is that stripped text's first 500 characters |
| Extraction.ExtractQuestions | app.py:30-48 | from the pages' texts: at most one record per match of the pattern; the piece after a match has a record exactly when it is not blank; ids increase in `1..matches`; each question is a non-empty prefix of at most 500 characters of its stripped piece |
| Extraction.ExtractQuestionsText | app.py:43-47 | every record's question is exactly `part.strip()[:500]` of the piece of the split at its id |
| Extraction.NoMarkerNoQuestions | app.py:38-43 | text where the pattern matches nowhere yields no questions |
| Extraction.ExtractExample | app.py:30-48 | a page `"Q1 A\nQ2\n3. B"` yields the records `(1, "A")` and `(3, "B")`: the blank piece after `Q2` leaves a gap in the ids |
| Extraction.DotAfterNumberKept | app.py:37-47 | the page `"Q1. Hi"` yields the question `". Hi"`: the `Q\.?\s*\d+` alternative stops after the digits, and it is tried before `\d+\.` |
| Navigation.Next | app.py:103-110 | `/next` moves forward by at most one, and by exactly one if and only if `current < len(questions) - 1` |
| Navigation.Previous | app.py:112-119 | `/previous` moves back by at most one, and by exactly one if and only if `current > 0` |
| Navigation.NextStep | app.py:103-110 | `/next` moves forward by one exactly when a later question exists, and otherwise stays put; it keeps an index in range |
| Navigation.PreviousStep | app.py:113-119 | `/previous` moves back by one exactly when the index is positive, and otherwise stays put; it keeps an index in range |
| Navigation.NextPreviousInverse | app.py:103-119 | `/previous` undoes a `/next` that moved, and `/next` undoes a `/previous` that moved inside the list |
| Navigation.Step | app.py:60-125 | an accepted upload whose duration converts installs the extracted questions at index 0; any other upload leaves the session as it was; `/next` and `/previous` change only the index; `/finish` clears the session |
| Navigation.StepInRange | app.py:60-125 | each request (upload, next, previous, finish) keeps the index within `0..max(0, total - 1)` |
| Navigation.RunInRange | app.py:60-125 | whatever requests arrive, the index stays within `0..max(0, total - 1)` |
| Navigation.ExamView | app.py:87-100 | `/exam` redirects exactly when there are no questions; it fails exactly when the index is below `-len(questions)`; it renders `None` exactly when the index is past the end; otherwise it renders `questions[current]`, a negative index counting from the end; what it renders is shown as position `current + 1` of `len(questions)` |
| Navigation.ExamViewReachable | app.py:87-100 | in every reachable session, `/exam` either redirects (no questions) or shows the question at the index as position `1..total`; the `None` and out-of-range branches are never taken |

## Left out

- Flask itself is not modelled: the routes' rendering and redirects, the templates, the cookie-backed session, the secret key, the upload folder and `MAX_CONTENT_LENGTH`. The session is a value with the two fields the routes read.
- pdfplumber is left out: opening the PDF and `page.extract_text()`. The pages come in as a sequence of `Option<string>`, `None` standing for a page without text.
- The `try`/`except` returning `[]` in `extract_questions_from_pdf` is left out. The only failures it catches come from the PDF library, which is left out.
- The upload route's file handling is left out: `secure_filename`, `file.save` and the folder creation. Only the file name and the page texts are modelled. The "no `file` field" redirect is left out too, because a request without a file leaves the session unchanged, just as a rejected name does.
- Navigation.Step: the duration itself and the timer are left out. Only whether `int(request.form.get('duration', 60))` converts is modelled, as a flag on the upload request; the conversion rules are not modelled. A failed conversion raises after the questions and the index were written to the session. The model follows `app.run(debug=True)` in app.py:128: Flask propagates the error and does not save the session, so the session stays as it was. A server that turns the error into a 500 response instead would save the new questions and index; that session is the same as after a successful upload.
- Chars.IsDigit: `\d` in a Python str pattern also matches non-ASCII decimal digits (Arabic-Indic digits, for example); the model takes only `0`-`9`.
- Chars.Lower: lowers only ASCII letters; Python's full Unicode `lower()` is not modelled. It can also change a string's length, for example for `İ`.
- Backtracking: `re` matches by backtracking. The model computes the same match directly from the whitespace and digit runs, and the lemmas above prove it equal to the first-alternative, longest-match choice. No general backtracking engine is modelled.
- Session tampering: Python's negative indexing in `/exam` is modelled, but the session value is trusted. A tampered cookie carrying a non-integer index or foreign questions is out of scope.
