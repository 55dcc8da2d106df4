/** `extract_text_from_pdf` in extract_pdf.py: one CSV row per page, in
    page order, labelled "Page 1", "Page 2", ...; `None` when the file
    cannot be read, when decryption fails, or when any page fails. */
module TextExtraction {

  datatype Option<T> = None | Some(value: T)

  /** What the PDF reader yields for one page's `extract_text()`: some text,
      `None`, or an exception. */
  datatype PageText = Text(text: string) | NoText | PageError

  /** What the PDF reader makes of one file. The reader is not modelled: a
      file that cannot be opened or parsed is `Unreadable`; for an encrypted
      file, whether `decrypt` raises for a password and what the pages then
      yield are oracles of that password. A wrong password may thus show up
      either as a raising `decrypt` or as failing page access after it (the
      value `decrypt` returns is ignored). A page list that cannot be
      enumerated at all is one whose first page raises: both give `None`. */
  datatype PdfFile =
    | Unreadable
    | Plain(pages: seq<PageText>)
    | Encrypted(decryptRaises: string -> bool, pagesAfter: string -> seq<PageText>)

  /** The pages the loop enumerates, once the file is open (and decrypted). */
  function PagesRead(file: PdfFile, password: string): seq<PageText>
    requires !file.Unreadable?
  {
    if file.Plain? then file.pages else file.pagesAfter(password)
  }

  /** A CSV row: a list of cells. */
  type Row = seq<string>

  /** The decimal digits of `n`, as `str(n)` writes them. */
  function Decimal(n: nat): (s: string)
    ensures |s| >= 1 && (|s| > 1 ==> s[0] != '0')
    ensures forall i :: 0 <= i < |s| ==> '0' <= s[i] <= '9'
    decreases n
  {
    if n < 10 then [Digit(n)] else Decimal(n / 10) + [Digit(n % 10)]
  }

  function Digit(d: nat): (c: char)
    requires d < 10
    ensures '0' <= c <= '9' && c as int - '0' as int == d
  {
    (d + '0' as int) as char
  }

  /** The number a string of decimal digits denotes. */
  function DigitsValue(s: string): nat
    requires forall i :: 0 <= i < |s| ==> '0' <= s[i] <= '9'
    decreases |s|
  {
    if s == [] then 0 else DigitsValue(s[..|s| - 1]) * 10 + (s[|s| - 1] as int - '0' as int)
  }

  /** Reading back the digits gives the number: distinct numbers have
      distinct decimal forms. */
  lemma {:induction false} DecimalRoundTrip(n: nat)
    ensures DigitsValue(Decimal(n)) == n
    decreases n
  {
    if n >= 10 {
      DecimalRoundTrip(n / 10);
      var s := Decimal(n);
      assert s[..|s| - 1] == Decimal(n / 10);
    }
  }

  /** `f"Page {page_num + 1}"`: the prefix "Page " and the page number's
      digits, with no leading zero, which read back as the number. */
  function PageLabel(number: nat): (tag: string)
    ensures |tag| > 5 && tag[..5] == "Page "
    ensures forall i :: 5 <= i < |tag| ==> '0' <= tag[i] <= '9'
    ensures DigitsValue(tag[5..]) == number
    ensures tag[5] == '0' ==> tag == "Page 0"
  {
    DecimalRoundTrip(number);
    var tag := "Page " + Decimal(number);
    assert tag[5..] == Decimal(number);
    tag
  }

  /** No two pages share a label. */
  lemma PageLabelsDistinct(i: nat, j: nat)
    requires i != j
    ensures PageLabel(i) != PageLabel(j)
  {
    assert DigitsValue(PageLabel(i)[5..]) != DigitsValue(PageLabel(j)[5..]);
  }

  /** `page.extract_text() or ""`: a missing or empty text becomes "". */
  function PageContent(page: PageText): (content: string)
    requires !page.PageError?
    ensures page.Text? ==> content == page.text
    ensures content != [] ==> page == Text(content)
  {
    if page.Text? then page.text else ""
  }

  /** Extraction succeeds exactly when the file is read, decryption (tried
      only for an encrypted file) does not raise, and no page raises. */
  predicate Extractable(file: PdfFile, password: string)
  {
    !file.Unreadable? &&
    !(file.Encrypted? && file.decryptRaises(password)) &&
    forall i :: 0 <= i < |PagesRead(file, password)| ==> !PagesRead(file, password)[i].PageError?
  }

  /** The rows `extract_text_from_pdf` returns, or `None`. */
  function ExtractedRows(file: PdfFile, password: string): (r: Option<seq<Row>>)
    ensures r.Some? <==> Extractable(file, password)
    ensures r.Some? ==>
              |r.value| == |PagesRead(file, password)| &&
              forall i :: 0 <= i < |r.value| ==> |r.value[i]| == 2
  {
    if Extractable(file, password) then
      var pages := PagesRead(file, password);
      Some(seq(|pages|, i requires 0 <= i < |pages| && !pages[i].PageError? =>
                 [PageLabel(i + 1), PageContent(pages[i])]))
    else None
  }

  /** `extract_text_from_pdf(pdf_path, password)`: builds one row per page,
      in page order, and gives up with `None` on the first failure. */
  method ExtractTextFromPdf(file: PdfFile, password: string) returns (rows: Option<seq<Row>>)
    ensures rows.Some? <==> Extractable(file, password)
    ensures rows.Some? ==>
              var pages := PagesRead(file, password);
              |rows.value| == |pages| &&
              forall i :: 0 <= i < |pages| ==>
                !pages[i].PageError? &&
                rows.value[i] == [PageLabel(i + 1), PageContent(pages[i])]
  {
    if file.Unreadable? {
      return None;
    }
    if file.Encrypted? {
      if file.decryptRaises(password) {
        return None;
      }
    }
    var pages := PagesRead(file, password);
    var acc: seq<Row> := [];
    for k := 0 to |pages|
      invariant |acc| == k
      invariant forall i :: 0 <= i < k ==>
                  !pages[i].PageError? &&
                  acc[i] == [PageLabel(i + 1), PageContent(pages[i])]
    {
      var page := pages[k];
      if page.PageError? {
        return None;
      }
      acc := acc + [[PageLabel(k + 1), PageContent(page)]];
    }
    rows := Some(acc);
  }

  /** The method computes the rows its specification function describes. */
  lemma ExtractionAgrees(file: PdfFile, password: string, rows: Option<seq<Row>>)
    requires rows.Some? <==> Extractable(file, password)
    requires rows.Some? ==>
               var pages := PagesRead(file, password);
               |rows.value| == |pages| &&
               forall i :: 0 <= i < |pages| ==>
                 !pages[i].PageError? &&
                 rows.value[i] == [PageLabel(i + 1), PageContent(pages[i])]
    ensures rows == ExtractedRows(file, password)
  {
    if rows.Some? {
      assert rows.value == ExtractedRows(file, password).value;
    }
  }

  /** No two rows of a document share a label. */
  lemma RowLabelsDistinct(file: PdfFile, password: string)
    requires ExtractedRows(file, password).Some?
    ensures var rows := ExtractedRows(file, password).value;
            forall i, j :: 0 <= i < j < |rows| ==> rows[i][0] != rows[j][0]
  {
    var rows := ExtractedRows(file, password).value;
    forall i, j | 0 <= i < j < |rows|
      ensures rows[i][0] != rows[j][0]
    {
      RowLabel(file, password, i);
      RowLabel(file, password, j);
      PageLabelsDistinct(i + 1, j + 1);
    }
  }

  /** Row `i` is labelled with page number `i + 1`. */
  lemma RowLabel(file: PdfFile, password: string, i: nat)
    requires ExtractedRows(file, password).Some?
    requires i < |ExtractedRows(file, password).value|
    ensures ExtractedRows(file, password).value[i][0] == PageLabel(i + 1)
  {
  }

  /** The password reaches the reader only for an encrypted file: for any
      other file it has no bearing on the result. */
  lemma PasswordIgnoredWhenPlain(pages: seq<PageText>, pw1: string, pw2: string)
    ensures ExtractedRows(Plain(pages), pw1) == ExtractedRows(Plain(pages), pw2)
  {
  }

  /** For an encrypted file the password decides the outcome even when
      `decrypt` never raises: the right one can give rows while a wrong one
      fails at the pages. */
  lemma PasswordDecides(right: string, wrong: string)
    requires right != wrong
    ensures var file := Encrypted(_ => false, pw => if pw == right then [NoText] else [PageError]);
            ExtractedRows(file, right) == Some([["Page 1", ""]]) &&
            ExtractedRows(file, wrong) == None
  {
    var file := Encrypted(_ => false, pw => if pw == right then [NoText] else [PageError]);
    assert PagesRead(file, wrong)[0].PageError?;
    assert Digit(1) == '1';
    assert PageLabel(1) == "Page 1";
    var rows := ExtractedRows(file, right).value;
    assert |rows| == 1 && rows[0] == ["Page 1", ""];
    assert rows == [["Page 1", ""]];
  }

  /** One failing page is enough for `None`, whatever the others hold. */
  lemma PageFailureGivesNone(file: PdfFile, password: string, k: nat)
    requires !file.Unreadable? && k < |PagesRead(file, password)| && PagesRead(file, password)[k].PageError?
    ensures ExtractedRows(file, password) == None
  {
  }

  /** An encrypted file whose decryption raises gives `None`, whatever its
      pages would hold. */
  lemma DecryptFailureGivesNone(decrypt: string -> bool, pagesAfter: string -> seq<PageText>, password: string)
    requires decrypt(password)
    ensures ExtractedRows(Encrypted(decrypt, pagesAfter), password) == None
  {
  }

  /** Two pages, the first without text: two rows, the first empty. */
  lemma TwoPageExample(password: string)
    ensures ExtractedRows(Plain([NoText, Text("total 42")]), password) ==
            Some([["Page 1", ""], ["Page 2", "total 42"]])
  {
    assert Digit(1) == '1' && Digit(2) == '2';
    assert PageLabel(1) == "Page 1" && PageLabel(2) == "Page 2";
    var rows := ExtractedRows(Plain([NoText, Text("total 42")]), password).value;
    assert |rows| == 2 && rows[0] == ["Page 1", ""] && rows[1] == ["Page 2", "total 42"];
    assert rows == [["Page 1", ""], ["Page 2", "total 42"]];
  }
}
