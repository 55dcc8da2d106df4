/** Credential negotiation: `get_pdf_password` in utils/password_utils.py.
    The document is first opened with the empty password; only when the
    library reports an incorrect password does the operator get prompted,
    again and again, until a password opens the document. */
module Negotiation {
  import opened MaskedInput

  /** What the PDF library reports when asked to open the document with a
      password. The library itself is not modelled: it is an oracle. */
  datatype OpenResult = Opened | PasswordIncorrect | OpenError(message: string)

  /** How negotiation ends: no password needed (`None`), a password that
      opened the document, an error other than a wrong password re-raised,
      the operator's ctrl+c, or a keystroke stream that ran out. */
  datatype Credential =
    | NoPasswordNeeded
    | Unlocked(secret: string)
    | Failed(message: string)
    | Aborted
    | InputExhausted

  /** Written after every rejected password, before the next prompt. */
  const RetryMessage: string := "\nIncorrect password. Please try again.\n"

  /** The prompt names the file, intact, after a fixed lead-in. */
  function PromptFor(fileName: string): (prompt: string)
    ensures |prompt| == |fileName| + 21
    ensures prompt[..19] == "Enter password for " && prompt[19..19 + |fileName|] == fileName
    ensures prompt[19 + |fileName|..] == ": "
  {
    "Enter password for " + fileName + ": "
  }

  /** The result of negotiating, what it wrote, how many keystrokes it read,
      the passwords the library rejected (in order) and how many prompts
      were shown. */
  datatype Run = Run(result: Credential, output: string, used: nat, rejected: seq<string>, prompts: nat)

  /** The retry loop, started once the empty password was rejected. */
  function Retry(open: string -> OpenResult, p: Platform, keys: seq<char>, prompt: string): (r: Run)
    ensures r.used <= |keys|
    ensures r.result != NoPasswordNeeded
    decreases |keys|
  {
    var t := Session(p, keys, []);
    match t.outcome
    case Interrupted => Run(Aborted, prompt + t.echo, t.used, [], 1)
    case OutOfInput => Run(InputExhausted, prompt + t.echo, t.used, [], 1)
    case Returned(password) =>
      match open(password)
      case Opened => Run(Unlocked(password), prompt + t.echo, t.used, [], 1)
      case OpenError(m) => Run(Failed(m), prompt + t.echo, t.used, [], 1)
      case PasswordIncorrect =>
        var r := Retry(open, p, keys[t.used..], prompt);
        Run(r.result, prompt + t.echo + RetryMessage + r.output, t.used + r.used,
            [password] + r.rejected, r.prompts + 1)
  }

  /** One prompt of the retry loop, taken apart. */
  lemma RetryFirst(open: string -> OpenResult, p: Platform, keys: seq<char>, prompt: string)
    ensures var t := Session(p, keys, []);
            var r := Retry(open, p, keys, prompt);
            (t.outcome.Interrupted? ==> r == Run(Aborted, prompt + t.echo, t.used, [], 1)) &&
            (t.outcome.OutOfInput? ==> r == Run(InputExhausted, prompt + t.echo, t.used, [], 1)) &&
            (t.outcome.Returned? && open(t.outcome.password) == Opened ==>
               r == Run(Unlocked(t.outcome.password), prompt + t.echo, t.used, [], 1)) &&
            (t.outcome.Returned? && open(t.outcome.password).OpenError? ==>
               r == Run(Failed(open(t.outcome.password).message), prompt + t.echo, t.used, [], 1)) &&
            (t.outcome.Returned? && open(t.outcome.password) == PasswordIncorrect ==>
               var s := Retry(open, p, keys[t.used..], prompt);
               r == Run(s.result, prompt + t.echo + RetryMessage + s.output, t.used + s.used,
                        [t.outcome.password] + s.rejected, s.prompts + 1))
  {
  }

  /** `get_pdf_password` as a function of the library's answers and the
      operator's keystrokes. */
  function Negotiate(open: string -> OpenResult, p: Platform, keys: seq<char>, fileName: string): (r: Run)
    ensures open("") == Opened <==> r.result == NoPasswordNeeded
    ensures open("") != PasswordIncorrect ==> r.output == [] && r.used == 0 && r.prompts == 0
    ensures open("").OpenError? ==> r.result == Failed(open("").message)
    ensures r.result.Unlocked? ==> open("") == PasswordIncorrect
  {
    match open("")
    case Opened => Run(NoPasswordNeeded, "", 0, [], 0)
    case OpenError(m) => Run(Failed(m), "", 0, [], 0)
    case PasswordIncorrect => Retry(open, p, keys, PromptFor(fileName))
  }

  /** The retry loop returns only a password the library accepted; every
      password entered before it was rejected as incorrect, and the prompts
      shown are one per rejection plus the last. */
  lemma {:induction false} RetryAccepts(open: string -> OpenResult, p: Platform, keys: seq<char>, prompt: string)
    ensures var r := Retry(open, p, keys, prompt);
            (r.result.Unlocked? ==> open(r.result.secret) == Opened) &&
            (forall i :: 0 <= i < |r.rejected| ==> open(r.rejected[i]) == PasswordIncorrect) &&
            r.prompts == |r.rejected| + 1
    decreases |keys|
  {
    var t := Session(p, keys, []);
    if t.outcome.Returned? && open(t.outcome.password) == PasswordIncorrect {
      RetryAccepts(open, p, keys[t.used..], prompt);
      var r := Retry(open, p, keys, prompt);
      var s := Retry(open, p, keys[t.used..], prompt);
      assert r.rejected == [t.outcome.password] + s.rejected;
      assert forall i :: 1 <= i < |r.rejected| ==> r.rejected[i] == s.rejected[i - 1];
    }
  }

  /** Whatever the operator types, `get_pdf_password` returns a password only
      after the empty one was rejected, and only one the library accepted;
      it prompts at least once exactly when the empty password was
      rejected. */
  lemma OnlyWorkingPasswordReturned(open: string -> OpenResult, p: Platform, keys: seq<char>, fileName: string)
    ensures var r := Negotiate(open, p, keys, fileName);
            (r.result.Unlocked? ==> open("") == PasswordIncorrect && open(r.result.secret) == Opened) &&
            (forall i :: 0 <= i < |r.rejected| ==> open(r.rejected[i]) == PasswordIncorrect) &&
            (r.prompts >= 1 <==> open("") == PasswordIncorrect) &&
            (open("") == PasswordIncorrect ==> r.prompts == |r.rejected| + 1)
  {
    if open("") == PasswordIncorrect {
      RetryAccepts(open, p, keys, PromptFor(fileName));
    }
  }

  /** A wrong password typed and entered, then the right one: negotiation
      rejects the first once, writes the retry message once between the two
      prompts and returns the second; nothing after the second enter is
      read. */
  lemma {:induction false} WrongThenRight(open: string -> OpenResult, p: Platform, wrong: string, right: string,
                                          rest: seq<char>, fileName: string)
    requires open("") == PasswordIncorrect
    requires open(wrong) == PasswordIncorrect && open(right) == Opened
    requires forall i :: 0 <= i < |wrong| ==> Classify(p, wrong[i]) == Ordinary
    requires forall i :: 0 <= i < |right| ==> Classify(p, right[i]) == Ordinary
    ensures var r := Negotiate(open, p, wrong + ['\r'] + right + ['\r'] + rest, fileName);
            r.result == Unlocked(right) && r.rejected == [wrong] && r.prompts == 2 &&
            r.used == |wrong| + |right| + 2 &&
            r.output == PromptFor(fileName) + (Stars(|wrong|) + EnterEcho) + RetryMessage +
                        (PromptFor(fileName) + (Stars(|right|) + EnterEcho))
  {
    var prompt := PromptFor(fileName);
    var second := right + ['\r'] + rest;
    assert wrong + ['\r'] + right + ['\r'] + rest == wrong + ['\r'] + second;
    AcceptedAtOnce(open, p, right, rest, prompt);
    RejectedThenRetry(open, p, wrong, second, prompt);
  }

  /** A password typed, entered and accepted ends the retry loop at once. */
  lemma AcceptedAtOnce(open: string -> OpenResult, p: Platform, typed: string, rest: seq<char>, prompt: string)
    requires open(typed) == Opened
    requires forall i :: 0 <= i < |typed| ==> Classify(p, typed[i]) == Ordinary
    ensures Retry(open, p, typed + ['\r'] + rest, prompt) ==
            Run(Unlocked(typed), prompt + (Stars(|typed|) + EnterEcho), |typed| + 1, [], 1)
  {
    TypedThenEnter(p, typed, rest);
    RetryFirst(open, p, typed + ['\r'] + rest, prompt);
  }

  /** A password typed, entered and rejected costs one prompt, its echo and
      the retry message, and the loop starts over on the keys after it. */
  lemma RejectedThenRetry(open: string -> OpenResult, p: Platform, typed: string, rest: seq<char>, prompt: string)
    requires open(typed) == PasswordIncorrect
    requires forall i :: 0 <= i < |typed| ==> Classify(p, typed[i]) == Ordinary
    ensures var s := Retry(open, p, rest, prompt);
            Retry(open, p, typed + ['\r'] + rest, prompt) ==
            Run(s.result, prompt + (Stars(|typed|) + EnterEcho) + RetryMessage + s.output,
                |typed| + 1 + s.used, [typed] + s.rejected, s.prompts + 1)
  {
    var keys := typed + ['\r'] + rest;
    TypedThenEnter(p, typed, rest);
    assert keys[|typed| + 1..] == rest;
    RetryFirst(open, p, keys, prompt);
  }

  /** Keys stored as typed, followed by enter, return exactly what was typed
      and echo one `*` per key and a newline. */
  lemma TypedThenEnter(p: Platform, typed: string, rest: seq<char>)
    requires forall i :: 0 <= i < |typed| ==> Classify(p, typed[i]) == Ordinary
    ensures var t := Session(p, typed + ['\r'] + rest, []);
            t.outcome == Returned(typed) && t.used == |typed| + 1 && t.echo == Stars(|typed|) + EnterEcho
  {
    PlainTyping(p, typed, '\r', rest, []);
    assert [] + typed == typed;
  }

  /** `get_pdf_password(pdf_path)` run on a console, where `fileName` is
      `os.path.basename(pdf_path)`: the only use of the path is the name
      the prompt shows, and the library oracle `open` already stands for
      the document at that path. The empty password is
      tried first and no prompt is shown when it opens the document; any
      other error of that first open is re-raised; otherwise the operator is
      prompted until a password opens the document. */
  method GetPdfPassword(console: Console, open: string -> OpenResult, fileName: string)
    returns (c: Credential)
    modifies console`input, console`password, console`output, console`cookedReads, console`raw
    ensures var r := Negotiate(open, console.platform, old(console.input), fileName);
            c == r.result && console.output == old(console.output) + r.output &&
            console.input == old(console.input)[r.used..]
    ensures console.raw == old(console.raw)
  {
    var first := open("");
    if first == Opened {
      return NoPasswordNeeded;
    } else if first.OpenError? {
      return Failed(first.message);
    }
    c := RetryLoop(console, open, PromptFor(fileName));
  }

  /** The `while True` loop of `get_pdf_password`: prompt, try the password,
      and on a rejection write the retry message and prompt again. An error
      other than a wrong password, and ctrl+c at a prompt, end it as well. */
  method RetryLoop(console: Console, open: string -> OpenResult, prompt: string)
    returns (c: Credential)
    modifies console`input, console`password, console`output, console`cookedReads, console`raw
    ensures var r := Retry(open, console.platform, old(console.input), prompt);
            c == r.result && console.output == old(console.output) + r.output &&
            console.input == old(console.input)[r.used..]
    ensures console.raw == old(console.raw)
  {
    ghost var keys := console.input;
    ghost var r := Retry(open, console.platform, keys, prompt);
    ghost var used: nat := 0;
    while true
      invariant used <= |keys| && console.input == keys[used..]
      invariant console.raw == old(console.raw)
      invariant var s := Retry(open, console.platform, console.input, prompt);
                r.result == s.result && old(console.output) + r.output == console.output + s.output &&
                r.used == used + s.used
      decreases |console.input|
    {
      ghost var out := console.output;
      ghost var t := Session(console.platform, console.input, []);
      RetryFirst(open, console.platform, console.input, prompt);
      var entered := console.SecureInput(prompt);
      ghost var piece := prompt + t.echo;
      Associative(out, prompt, t.echo);
      assert console.output == out + piece;
      match entered
      case Interrupted =>
        return Aborted;
      case OutOfInput =>
        return InputExhausted;
      case Returned(password) =>
        var attempt := open(password);
        if attempt == Opened {
          return Unlocked(password);
        } else if attempt.OpenError? {
          return Failed(attempt.message);
        }
        console.Write(RetryMessage);
        Associative(out, piece, RetryMessage);
        assert console.output == out + (piece + RetryMessage);
        used := used + t.used;
        assert keys[used - t.used..][t.used..] == keys[used..];
        Associative(out, piece + RetryMessage, Retry(open, console.platform, console.input, prompt).output);
    }
  }
}
