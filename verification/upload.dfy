/** The check applied to an uploaded file's name before the file is accepted. */
module Upload {
  import opened Wrappers
  import opened Chars

  /** Extensions an upload may carry. */
  const AllowedExtensions: set<string> := {"pdf"}

  /** Position of the last occurrence of `sep` in `s`, if there is one. */
  function LastIndexOf(s: string, sep: char): (r: Option<nat>)
    ensures r.None? <==> sep !in s
    ensures r.Some? ==> r.value < |s| && s[r.value] == sep && sep !in s[r.value + 1..]
  {
    if |s| == 0 then None
    else if s[|s| - 1] == sep then Some(|s| - 1)
    else
      var r := LastIndexOf(s[..|s| - 1], sep);
      assert s == s[..|s| - 1] + [s[|s| - 1]];
      r
  }

  /** `s.rsplit(sep, 1)`: the whole of `s` when `sep` does not occur in it, and
      otherwise the text before and the text after its last occurrence. */
  function RSplitOnce(s: string, sep: char): (parts: seq<string>)
    ensures sep !in s ==> parts == [s]
    ensures sep in s ==> |parts| == 2 && s == parts[0] + [sep] + parts[1] && sep !in parts[1]
  {
    match LastIndexOf(s, sep)
    case None => [s]
    case Some(k) =>
      assert s == s[..k] + [sep] + s[k + 1..];
      [s[..k], s[k + 1..]]
  }

  /** `allowed_file`: the name contains a dot and the lower-cased text after its
      last dot is an allowed extension. */
  predicate AllowedFile(filename: string)
    ensures AllowedFile(filename) ==> |filename| >= 4 && filename[|filename| - 4] == '.'
  {
    '.' in filename && Lower(RSplitOnce(filename, '.')[1]) in AllowedExtensions
  }

  /** A name `allowed_file` accepts ends in a dot and three characters that
      lower-case to `pdf`. */
  lemma AllowedFileHasSuffix(filename: string)
    requires AllowedFile(filename)
    ensures |filename| >= 4 && filename[|filename| - 4] == '.'
    ensures Lower(filename[|filename| - 3..]) == "pdf"
  {
    var n := |filename|;
    var parts := RSplitOnce(filename, '.');
    assert |Lower(parts[1])| == 3;
    assert filename[n - 3..] == parts[1];
  }

  /** A name that ends in a dot and three characters lower-casing to `pdf` is
      accepted. */
  lemma SuffixIsAllowed(filename: string)
    requires |filename| >= 4 && filename[|filename| - 4] == '.'
    requires Lower(filename[|filename| - 3..]) == "pdf"
    ensures AllowedFile(filename)
  {
    var n := |filename|;
    var ext := filename[n - 3..];
    assert '.' !in ext by {
      forall i | 0 <= i < 3 ensures ext[i] != '.' {
        assert LowerChar(ext[i]) == "pdf"[i];
      }
    }
    assert filename == filename[..n - 4] + ['.'] + ext;
    var parts := RSplitOnce(filename, '.');
    assert parts[1] == ext;
  }

  /** `allowed_file` accepts exactly the names that end in a dot followed by
      `pdf` in any mix of letter case. */
  lemma AllowedFileIff(filename: string)
    ensures AllowedFile(filename) <==>
              |filename| >= 4 && filename[|filename| - 4] == '.'
              && Lower(filename[|filename| - 3..]) == "pdf"
  {
    if AllowedFile(filename) {
      AllowedFileHasSuffix(filename);
    }
    if |filename| >= 4 && filename[|filename| - 4] == '.' && Lower(filename[|filename| - 3..]) == "pdf" {
      SuffixIsAllowed(filename);
    }
  }

  /** The cases the extension check is meant to separate. */
  lemma AllowedFileExamples()
    ensures AllowedFile("exam.PDF")
    ensures AllowedFile(".pdf")
    ensures !AllowedFile("pdf")
    ensures !AllowedFile("exam.pdf.txt")
  {
    assert "exam.PDF"[5..] == "PDF" && Lower("PDF") == "pdf";
    SuffixIsAllowed("exam.PDF");
    assert ".pdf"[1..] == "pdf" && Lower("pdf") == "pdf";
    SuffixIsAllowed(".pdf");
    if AllowedFile("pdf") {
      AllowedFileHasSuffix("pdf");
    }
    if AllowedFile("exam.pdf.txt") {
      AllowedFileHasSuffix("exam.pdf.txt");
    }
  }
}
