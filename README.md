# extract-pdf, modelled in Dafny

extract-pdf is a small command-line tool. It reads every PDF file in an
`input` folder, writes the text of each page to a CSV file in an `output`
folder and moves each processed PDF to an `archive` folder. A helper module
reads a PDF password from the terminal without showing it, echoing one `*`
per typed character. This project models the tool's core. It covers the
masked password prompt on both of its platform variants, the negotiation
that tries the empty password before prompting, page-by-page text
extraction, and the batch driver: the ".pdf" filter, the output file name
and the write-then-archive routing. It proves what each of these promises.

Modules, one per file:

- `MaskedInput` (masked_input.dfy) covers `secure_password_input`.
  - `Session` is a function from the keystrokes still to come and the buffer so far to how the prompt ends, what it echoes and how many keys it reads.
  - The class `Console` holds the terminal's state: the keystroke stream, the output written so far, raw mode and the buffer. Its methods update that state.
  - `Console.SecureInput` is proved to do exactly what `Session` describes, and to restore the terminal mode.
- `Negotiation` (negotiation.dfy) covers `get_pdf_password`.
  - The PDF library is an oracle `open: string -> OpenResult`.
  - `Negotiate` and `Retry` describe the result, and `GetPdfPassword` and `RetryLoop` run it on a `Console`.
- `TextExtraction` (text_extraction.dfy) covers `extract_text_from_pdf`.
  - A PDF is a value: unreadable, plain with a sequence of page texts, or encrypted. For an encrypted PDF, whether `decrypt` raises and what the pages yield are both oracles of the password.
- `Batch` (batch.dfy) covers the file loop of `main`, together with `save_to_csv` and `move_to_archive`.
  - The driver's effect on the file system is a sequence of `WriteCsv` and `Archive` effects, in order.

## Model

| member | source | states |
|---|---|---|
| MaskedInput.Classify | utils/password_utils.py:17-58 | Enter is '\r' on both variants and also '\n' on POSIX. Backspace is '\b' on both and also DEL on POSIX. ctrl+c interrupts on both. Each is an if-and-only-if, so the two variants' different test orders give the same classes. |
| MaskedInput.Session | utils/password_utils.py:17-31 | At most the given keys are read. If no key ends the prompt, all are read. A return or an interrupt reads at least one key. A returned password is the final buffer. |
| MaskedInput.Edit | utils/password_utils.py:22-30 | For one key that does not end the prompt: an ordinary key extends the buffer by exactly that key and echoes `*`. Backspace shortens a non-empty buffer by its last character and echoes "\b \b"; on an empty buffer it changes nothing and echoes nothing. |
| MaskedInput.ReadsThroughFirstEnd | utils/password_utils.py:46-62 | The prompt reads up to and including the first enter or ctrl+c. No earlier key ends it. It is interrupted exactly when that key is ctrl+c. It runs out of input exactly when no key ends it. |
| MaskedInput.SessionStep | utils/password_utils.py:19-30 | For one key, per class: an ordinary key is appended and echoed as `*`. Backspace drops only the last character and echoes "\b \b"; on an empty buffer it does nothing and echoes nothing. Enter returns the buffer and echoes a newline. ctrl+c aborts. |
| MaskedInput.PlainTyping | utils/password_utils.py:28-31 | Ordinary keys followed by enter return the buffer plus exactly those keys, in order. The echo is one `*` per key and then a newline. Nothing after enter is read. |
| MaskedInput.BackspaceUndoes | utils/password_utils.py:48-52 | A backspace right after an ordinary key leaves the outcome and buffer as if neither key had been typed. |
| MaskedInput.StopsAtEnd | utils/password_utils.py:53-58 | Keys after the one that ends the prompt change nothing the prompt produces. |
| MaskedInput.EchoBalance | utils/password_utils.py:49-62 | The buffer's length grows by the number of `*` echoes minus the number of erases. Every erase echoes two backspaces. |
| MaskedInput.EditBalance | utils/password_utils.py:22-30 | The same balance, for one non-ending key. |
| MaskedInput.ReturnedLength | utils/password_utils.py:65 | A returned password has as many characters as there are `*` echoes minus erases. |
| MaskedInput.TypingExample | utils/password_utils.py:46-62 | The keys a, b, backspace (or DEL on POSIX), c, enter return "ac", with echo `**`, one erase, `*` and a newline. |
| MaskedInput.TypingExampleTail | utils/password_utils.py:46-62 | The last four keys of that example, from the buffer "a". |
| MaskedInput.VariantsDiffer | utils/password_utils.py:19-53 | Windows stores '\n' and DEL as characters. POSIX returns on '\n' and erases on DEL. |
| MaskedInput.Console.constructor | utils/password_utils.py:37-43 | A fresh console is in cooked mode, with nothing written and an empty buffer. |
| MaskedInput.Console.Write | utils/password_utils.py:39-40 | Appends to the output and changes nothing else. |
| MaskedInput.Console.ReadKey | utils/password_utils.py:47 | Consumes exactly the next keystroke. It counts reads made outside raw mode. |
| MaskedInput.Console.EditKey | utils/password_utils.py:48-62 | The buffer and echo after one non-ending key are as `Edit` gives. |
| MaskedInput.Console.EditLoop | utils/password_utils.py:46-62 | The `while True` loop yields exactly `Session`'s outcome, buffer and echo, and consumes exactly the keys it reads. |
| MaskedInput.Console.SecureInput | utils/password_utils.py:37-65 | Writes the prompt and then `Session`'s echo from an empty buffer, and returns its outcome. The terminal mode is restored on every way out. On POSIX no key is read outside raw mode. |
| Negotiation.Retry | utils/password_utils.py:90-97 | The retry loop never answers "no password needed" and never reads more keys than it is given. |
| Negotiation.PromptFor | utils/password_utils.py:91 | The prompt is "Enter password for ", the file name intact, then ": ". |
| Negotiation.Negotiate | utils/password_utils.py:82-102 | The result is "no password needed" exactly when the empty password opens the document. If the empty password is not rejected as incorrect, nothing is written or read. Any other error of the first open is re-raised. A password is returned only after the empty one was rejected. |
| Negotiation.RetryAccepts | utils/password_utils.py:90-97 | A returned password opens the document. Every password entered before it was rejected as incorrect. There is one prompt per rejection plus one. |
| Negotiation.OnlyWorkingPasswordReturned | utils/password_utils.py:82-97 | For any keys: a returned password was preceded by the empty password's rejection and opens the document. The operator is prompted at least once exactly when the empty password was rejected. |
| Negotiation.WrongThenRight | utils/password_utils.py:90-97 | A wrong password and then the right one, each made of keys stored as typed, return the right one. There is exactly one rejection and there are two prompts, and nothing is read past the second enter. The whole output is the first prompt, `*`s and a newline, the retry message once, then the second prompt, `*`s and a newline. |
| Negotiation.AcceptedAtOnce | utils/password_utils.py:90-95 | A password typed as stored keys and accepted ends the loop after one prompt, echoing one `*` per key and a newline. |
| Negotiation.RejectedThenRetry | utils/password_utils.py:90-97 | A rejected password costs exactly one prompt, its echo and one retry message. The loop then starts over on the keys after it, and the password joins the rejected list. |
| Negotiation.TypedThenEnter | utils/password_utils.py:28-31 | Any keys stored as typed, followed by enter, return exactly what was typed, echoing one `*` per key and a newline. |
| Negotiation.GetPdfPassword | utils/password_utils.py:68-102 | Running on a console gives `Negotiate`'s result, output and keystroke use, and leaves the terminal mode as it was. |
| Negotiation.RetryLoop | utils/password_utils.py:90-97 | The `while True` loop run on a console gives `Retry`'s result, output and keystroke use. |
| TextExtraction.Decimal | extract_pdf.py:27 | A page number is written as a non-empty digit string without a leading zero. |
| TextExtraction.Digit | extract_pdf.py:27 | A digit character denotes its value. |
| TextExtraction.DecimalRoundTrip | extract_pdf.py:27 | Reading the digits back gives the number. |
| TextExtraction.PageLabel | extract_pdf.py:27 | The label is "Page " followed by digits, without a leading zero, that read back as the page number. |
| TextExtraction.PageLabelsDistinct | extract_pdf.py:25-27 | Different page numbers get different "Page k" labels. |
| TextExtraction.PageContent | extract_pdf.py:26 | A page's text is kept as it is; a non-empty content is always the page's own text, so only a missing text becomes "". |
| TextExtraction.Extractable | extract_pdf.py:14-30 | The success condition: the file reads, decryption of an encrypted file does not raise, and no page read with that password raises. Its partner lemmas are `PageFailureGivesNone` and `DecryptFailureGivesNone`. |
| TextExtraction.ExtractedRows | extract_pdf.py:11-32 | Gives rows exactly when `Extractable` holds, one two-cell row per page read. `RowLabelsDistinct` shows no two rows share a label. |
| TextExtraction.RowLabelsDistinct | extract_pdf.py:25-27 | No two rows of a document share a label. |
| TextExtraction.ExtractTextFromPdf | extract_pdf.py:11-32 | Gives rows exactly when the file is read, decryption (tried only when encrypted) does not raise, and no page raises. The rows are then one per page read with that password, in order, labelled "Page k" from 1, with missing text as "". |
| TextExtraction.ExtractionAgrees | extract_pdf.py:11-32 | The method's contract determines its result: it equals `ExtractedRows`. |
| TextExtraction.PasswordIgnoredWhenPlain | extract_pdf.py:17-22 | For an unencrypted file the password does not affect the result. |
| TextExtraction.PasswordDecides | extract_pdf.py:17-30 | An encrypted file whose `decrypt` never raises can still give rows for the right password and `None` for a wrong one, through failing page access. |
| TextExtraction.PageFailureGivesNone | extract_pdf.py:25-30 | A single page that raises makes the whole result `None`. |
| TextExtraction.DecryptFailureGivesNone | extract_pdf.py:18-22 | Decryption that raises gives `None`, whatever the pages would hold. |
| TextExtraction.TwoPageExample | extract_pdf.py:25-27 | A page without text followed by "total 42" gives ["Page 1", ""] and ["Page 2", "total 42"]. |
| Batch.LowerChar | extract_pdf.py:71 | Lowering leaves no upper-case ASCII letter and changes only upper-case letters, each to its lower-case counterpart. |
| Batch.Lower | extract_pdf.py:71 | Lowering keeps the name's length. |
| Batch.IsPdfName | extract_pdf.py:71 | The filter `filename.lower().endswith(".pdf")`. Its character-level meaning is proved in `PdfNameChars`. |
| Batch.PdfNameChars | extract_pdf.py:71 | A name is taken exactly when it ends in '.' followed by p, d and f, each in either case. |
| Batch.LastDot | extract_pdf.py:82 | Gives -1 or the index of a dot, with no dot after it. |
| Batch.Splitext | extract_pdf.py:82 | Stem followed by extension gives back the name. The extension is empty, or is one dot followed by non-dots. |
| Batch.SplitextSplits | extract_pdf.py:82 | A name is split exactly when a non-dot character comes before some dot. |
| Batch.OutputName | extract_pdf.py:82-83 | The stem from `Splitext` followed by "_extracted.csv". What it gives for a PDF's name is proved in `OutputNameOfPdf`. |
| Batch.OutputNameOfPdf | extract_pdf.py:82-83 | A PDF's output name is the name without its last four characters, plus "_extracted.csv". If only dots precede ".pdf", the whole name is kept. |
| Batch.SuffixCaseCollides | extract_pdf.py:71-83 | "x.pdf" and "x.PDF" get the same output name. |
| Batch.DotOnlyStem | extract_pdf.py:82-83 | ".pdf" gets the output name ".pdf_extracted.csv". |
| Batch.CsvRecords | extract_pdf.py:39-40 | The header ["Page", "Content"] comes first, then every row in order. |
| Batch.FileEffects | extract_pdf.py:71-89 | One listed name gives effects exactly when it passes the filter and its text extracts. It then gives two: a CSV write to its output name, then its move to the archive. |
| Batch.BatchEffects | extract_pdf.py:70-89 | The effects of a listing, name by name in listing order. Its partner lemmas are `BatchConcat`, `ArchivedExactly` and `WriteThenArchive`. |
| Batch.ProcessInputFolder | extract_pdf.py:70-89 | The loop over the listing performs exactly the effects `BatchEffects` gives. |
| Batch.BatchConcat | extract_pdf.py:70 | Files are handled independently, in listing order: two parts of a listing give their effects one after the other. |
| Batch.ArchivedExactly | extract_pdf.py:70-89 | A file is archived exactly when it is listed, passes the filter and extracts. |
| Batch.PairedConcat | extract_pdf.py:86-89 | Write-then-archive pairs followed by such pairs stay paired. |
| Batch.WriteThenArchive | extract_pdf.py:76-89 | Every effect is part of a pair. Each pair is the CSV write of a file's header and rows under its output name, immediately followed by the move of that same file to the archive. |

## Left out

- The code extracts page text only. It does no table detection, takes no header row from the document and pads no rows, so the model has none of these.
- Terminal I/O is modelled as a finite keystroke sequence and an output string.
  - A stream that runs out before enter or ctrl+c ends the model's prompt with `OutOfInput`.
  - At end of input the POSIX code keeps appending "" and echoing `*` forever.
- Raw mode is a flag. `tcgetattr`/`tcsetattr` and the real terminal settings are not modelled.
- Windows special-key prefixes from `getwch` are ordinary characters, as in the code.
- `KeyboardInterrupt` is an outcome value, not an exception.
- The PDF libraries (pdfplumber, PyPDF2) are oracles. An encrypted file's decryption and its pages are functions of the password, with no further constraint, so the model does not say which passwords open which documents or what text a page holds.
- Batch.ProcessInputFolder: the file system is not modelled.
  - The listing is a sequence of names and each name's contents an oracle.
  - Writing, moving, `makedirs` and path joining are effects, not changes to folders.
  - The errors `save_to_csv` and `move_to_archive` catch and report are not modelled. Neither is CSV quoting.
- Batch.Splitext models `os.path.splitext` only for names without path separators, which is all a directory listing yields.
- Batch.PdfNameChars: `str.lower` is modelled on ASCII letters only. No other character lowers to '.', 'p', 'd' or 'f', so the filter is unaffected.
- The prints in utils/password_utils.py are modelled as console output: the prompt, the echoes, the newline on enter and the retry message. The prints in extract_pdf.py, the `logging` calls and the traceback text are not modelled. `run_terminal_command` (a shell echo) and `getpass` in `main` are not modelled either; the password is a parameter.
- Negotiation.GetPdfPassword takes the file's base name, `os.path.basename(pdf_path)`, rather than the path. The path is used only for that name, and the `open` oracle stands for the document itself.
- `main` never calls `get_pdf_password`. The two parts are modelled separately, as the code has them.
- Integer widths do not arise: page numbers are unbounded.
