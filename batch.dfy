/** The batch driver of extract_pdf.py (`main`, `save_to_csv`,
    `move_to_archive`): every file of the input folder whose name ends in
    ".pdf", in any letter case, is extracted; a file that extracts gets a
    CSV file named after it and is then moved to the archive, and a file
    that does not is skipped and left where it is. The folders themselves
    are not modelled: the driver's observable behaviour is the sequence of
    CSV writes and archive moves it performs, in order. */
module Batch {
  import opened TextExtraction

  /** ASCII `str.lower` of one character: upper-case letters become their
      lower-case counterparts, and nothing else changes. */
  function LowerChar(c: char): (d: char)
    ensures !('A' <= d <= 'Z')
    ensures d == c || ('A' <= c <= 'Z' && d as int == c as int + 32)
  {
    if 'A' <= c <= 'Z' then (c as int + 32) as char else c
  }

  function Lower(s: string): (r: string)
    ensures |r| == |s|
  {
    seq(|s|, i requires 0 <= i < |s| => LowerChar(s[i]))
  }

  predicate EndsWith(s: string, suffix: string)
  {
    |suffix| <= |s| && s[|s| - |suffix|..] == suffix
  }

  /** `filename.lower().endswith(".pdf")`. */
  predicate IsPdfName(name: string)
  {
    EndsWith(Lower(name), ".pdf")
  }

  /** The filter, character by character: a name is taken exactly when its
      last four characters are a dot and the letters p, d, f, each in
      either case. */
  lemma PdfNameChars(name: string)
    ensures IsPdfName(name) <==>
              |name| >= 4 && name[|name| - 4] == '.' && name[|name| - 3] in "pP" &&
              name[|name| - 2] in "dD" && name[|name| - 1] in "fF"
  {
    var n := |name|;
    if n >= 4 {
      var tail := Lower(name)[n - 4..];
      assert tail == [LowerChar(name[n - 4]), LowerChar(name[n - 3]), LowerChar(name[n - 2]), LowerChar(name[n - 1])];
    }
  }

  /** The index of the last '.' in `s`, or -1 (`str.rfind('.')`). */
  function LastDot(s: string): (d: int)
    ensures -1 <= d < |s|
    ensures d >= 0 ==> s[d] == '.'
    ensures forall k :: d < k < |s| ==> s[k] != '.'
    decreases |s|
  {
    if s == [] then -1
    else if s[|s| - 1] == '.' then |s| - 1
    else LastDot(s[..|s| - 1])
  }

  /** `os.path.splitext` of a directory entry's name (which holds no path
      separator): the extension runs from the last dot to the end, unless
      only dots precede that dot, in which case there is none. */
  function Splitext(name: string): (r: (string, string))
    ensures r.0 + r.1 == name
    ensures r.1 == [] || (r.1[0] == '.' && forall k :: 1 <= k < |r.1| ==> r.1[k] != '.')
  {
    var d := LastDot(name);
    if d >= 0 && exists i :: 0 <= i < d && name[i] != '.' then (name[..d], name[d..]) else (name, [])
  }

  /** Splitting happens exactly when some character other than a dot comes
      before some dot. */
  lemma SplitextSplits(name: string)
    ensures Splitext(name).1 != [] <==>
              exists i, j :: 0 <= i < j < |name| && name[i] != '.' && name[j] == '.'
  {
    var d := LastDot(name);
    if Splitext(name).1 != [] {
      var i :| 0 <= i < d && name[i] != '.';
      assert name[d] == '.';
    }
    if exists i, j :: 0 <= i < j < |name| && name[i] != '.' && name[j] == '.' {
      var i, j :| 0 <= i < j < |name| && name[i] != '.' && name[j] == '.';
      assert j <= d;
      assert Splitext(name) == (name[..d], name[d..]);
    }
  }

  /** `f"{base_name}_extracted.csv"` with `base_name` the stem of the PDF's
      name. */
  function OutputName(name: string): string
  {
    Splitext(name).0 + "_extracted.csv"
  }

  /** For a PDF's name the stem drops the four-character ".pdf" suffix
      (whatever its case), except when only dots come before it; so the
      output name always ends in "_extracted.csv" and keeps every other
      character of the name. */
  lemma OutputNameOfPdf(name: string)
    requires IsPdfName(name)
    ensures OutputName(name) ==
              (if exists i :: 0 <= i < |name| - 4 && name[i] != '.' then name[..|name| - 4] else name) +
              "_extracted.csv"
  {
    PdfNameChars(name);
    var d := LastDot(name);
    assert d == |name| - 4;
  }

  /** Two names that differ only in the case of their ".pdf" suffix give
      the same output name, so the second write replaces the first. */
  lemma SuffixCaseCollides(stem: string)
    requires exists i :: 0 <= i < |stem| && stem[i] != '.'
    ensures OutputName(stem + ".pdf") == OutputName(stem + ".PDF") == stem + "_extracted.csv"
  {
    var a, b := stem + ".pdf", stem + ".PDF";
    PdfNameChars(a);
    PdfNameChars(b);
    var i :| 0 <= i < |stem| && stem[i] != '.';
    assert a[i] != '.' && b[i] != '.';
    OutputNameOfPdf(a);
    OutputNameOfPdf(b);
    assert a[..|a| - 4] == stem && b[..|b| - 4] == stem;
  }

  /** A name that is only the suffix keeps its whole name as its stem. */
  lemma DotOnlyStem()
    ensures OutputName(".pdf") == ".pdf_extracted.csv"
  {
    PdfNameChars(".pdf");
    OutputNameOfPdf(".pdf");
  }

  /** The header row `save_to_csv` writes before the data rows. */
  const CsvHeader: Row := ["Page", "Content"]

  /** The records `save_to_csv(data, path)` writes: the header, then the
      rows in order. */
  function CsvRecords(rows: seq<Row>): (records: seq<Row>)
    ensures |records| == |rows| + 1 && records[0] == CsvHeader
    ensures forall i :: 0 <= i < |rows| ==> records[i + 1] == rows[i]
  {
    [CsvHeader] + rows
  }

  /** What the driver does to the file system: writes a CSV file, or moves a
      PDF to the archive. Errors of either are caught and reported, and the
      driver goes on; they are not modelled. */
  datatype Effect = WriteCsv(path: string, records: seq<Row>) | Archive(name: string)

  /** What one directory entry gives rise to. */
  function FileEffects(name: string, file: PdfFile, password: string): (effects: seq<Effect>)
    ensures effects != [] <==> IsPdfName(name) && ExtractedRows(file, password).Some?
    ensures effects != [] ==>
              |effects| == 2 && effects[0].WriteCsv? && effects[0].path == OutputName(name) &&
              effects[1] == Archive(name)
  {
    if !IsPdfName(name) then []
    else
      match ExtractedRows(file, password)
      case None => []
      case Some(rows) => [WriteCsv(OutputName(name), CsvRecords(rows)), Archive(name)]
  }

  /** What the driver does for the entries `names`, listed in this order,
      whose contents `files` gives. */
  function BatchEffects(names: seq<string>, files: string -> PdfFile, password: string): seq<Effect>
    decreases |names|
  {
    if names == [] then []
    else
      var last := names[|names| - 1];
      BatchEffects(names[..|names| - 1], files, password) + FileEffects(last, files(last), password)
  }

  /** The `for filename in os.listdir(input_folder)` loop of `main`, for a
      listing `names` and the password read at its start. */
  method ProcessInputFolder(names: seq<string>, files: string -> PdfFile, password: string)
    returns (effects: seq<Effect>)
    ensures effects == BatchEffects(names, files, password)
  {
    effects := [];
    for k := 0 to |names|
      invariant effects == BatchEffects(names[..k], files, password)
    {
      var name := names[k];
      assert names[..k + 1][..k] == names[..k];
      if !EndsWith(Lower(name), ".pdf") {
        continue;
      }
      var extracted := ExtractTextFromPdf(files(name), password);
      ExtractionAgrees(files(name), password, extracted);
      if extracted.None? {
        continue;
      }
      var outputName := Splitext(name).0 + "_extracted.csv";
      effects := effects + [WriteCsv(outputName, CsvRecords(extracted.value))];
      effects := effects + [Archive(name)];
    }
    assert names[..|names|] == names;
  }

  /** Processing a listing in two parts does what processing each part does,
      one after the other. */
  lemma {:induction false} BatchConcat(a: seq<string>, b: seq<string>, files: string -> PdfFile, password: string)
    ensures BatchEffects(a + b, files, password) ==
            BatchEffects(a, files, password) + BatchEffects(b, files, password)
    decreases |b|
  {
    if b == [] {
      assert a + b == a;
    } else {
      var last := b[|b| - 1];
      assert (a + b)[..|a + b| - 1] == a + b[..|b| - 1];
      BatchConcat(a, b[..|b| - 1], files, password);
    }
  }

  /** A file is moved to the archive exactly when it is listed, its name
      passes the filter and its text extracts. */
  lemma {:induction false} ArchivedExactly(names: seq<string>, files: string -> PdfFile, password: string, n: string)
    ensures Archive(n) in BatchEffects(names, files, password) <==>
              n in names && IsPdfName(n) && ExtractedRows(files(n), password).Some?
    decreases |names|
  {
    if names != [] {
      var init, last := names[..|names| - 1], names[|names| - 1];
      ArchivedExactly(init, files, password, n);
      assert names == init + [last];
      assert n in names <==> n in init || n == last;
    }
  }

  /** The effects at positions `2 * i` and `2 * i + 1` are the CSV write
      for one file, then the move of that same file to the archive. The
      write goes to the file's output name and holds the header followed by
      the file's rows. */
  predicate PairAt(e: seq<Effect>, i: nat, files: string -> PdfFile, password: string)
    requires 2 * i + 1 < |e|
  {
    e[2 * i + 1].Archive? &&
    var n := e[2 * i + 1].name;
    IsPdfName(n) && ExtractedRows(files(n), password).Some? &&
    e[2 * i] == WriteCsv(OutputName(n), CsvRecords(ExtractedRows(files(n), password).value))
  }

  predicate Paired(e: seq<Effect>, files: string -> PdfFile, password: string)
  {
    |e| % 2 == 0 && forall i: nat :: i < |e| / 2 ==> PairAt(e, i, files, password)
  }

  /** Pairs followed by pairs are pairs. */
  lemma PairedConcat(e0: seq<Effect>, f: seq<Effect>, files: string -> PdfFile, password: string)
    requires Paired(e0, files, password) && Paired(f, files, password)
    ensures Paired(e0 + f, files, password)
  {
    var e := e0 + f;
    forall i: nat | i < |e| / 2
      ensures PairAt(e, i, files, password)
    {
      if 2 * i < |e0| {
        assert e[2 * i] == e0[2 * i] && e[2 * i + 1] == e0[2 * i + 1];
        assert PairAt(e0, i, files, password);
      } else {
        var j: nat := i - |e0| / 2;
        assert e[2 * i] == f[2 * j] && e[2 * i + 1] == f[2 * j + 1];
        assert PairAt(f, j, files, password);
      }
    }
  }

  /** Every effect of the driver belongs to a write-then-archive pair. */
  lemma {:induction false} WriteThenArchive(names: seq<string>, files: string -> PdfFile, password: string)
    ensures Paired(BatchEffects(names, files, password), files, password)
    decreases |names|
  {
    if names != [] {
      var init, last := names[..|names| - 1], names[|names| - 1];
      WriteThenArchive(init, files, password);
      var f := FileEffects(last, files(last), password);
      if f != [] {
        assert PairAt(f, 0, files, password);
      }
      PairedConcat(BatchEffects(init, files, password), f, files, password);
    }
  }
}
