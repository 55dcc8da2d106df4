/** The masked keystroke line editor `secure_password_input`, in its Windows
    and its POSIX variant. Both read one keystroke at a time, keep the typed
    characters in a buffer, echo `*` for every stored key, visually erase a
    character on backspace, finish on enter and abort on ctrl+c. */
module MaskedInput {

  /** The variant is chosen once, when the module is loaded. */
  datatype Platform = Windows | Posix

  const CtrlC: char := '\U{3}'
  const BackspaceKey: char := '\U{8}'
  const DeleteKey: char := '\U{7F}'

  /** What the editor writes for an accepted key, an erased key and enter. */
  const StarEcho: string := "*"
  const EraseEcho: string := "\U{8} \U{8}"
  const EnterEcho: string := "\n"

  datatype KeyKind = Enter | Backspace | Interrupt | Ordinary

  /** How a variant reads one keystroke. The Windows variant tests for enter,
      then backspace, then ctrl+c; the POSIX variant tests for backspace, then
      enter, then ctrl+c. The key sets are disjoint, so the order does not
      matter, which the postconditions state without reference to it. */
  function Classify(p: Platform, c: char): (k: KeyKind)
    ensures k == Enter <==> c == '\r' || (p == Posix && c == '\n')
    ensures k == Backspace <==> c == BackspaceKey || (p == Posix && c == DeleteKey)
    ensures k == Interrupt <==> c == CtrlC
  {
    match p
    case Windows =>
      if c == '\r' then Enter
      else if c == BackspaceKey then Backspace
      else if c == CtrlC then Interrupt
      else Ordinary
    case Posix =>
      if c == DeleteKey || c == BackspaceKey then Backspace
      else if c == '\r' || c == '\n' then Enter
      else if c == CtrlC then Interrupt
      else Ordinary
  }

  /** A key that ends the editing loop. */
  predicate Ends(p: Platform, c: char)
  {
    Classify(p, c) == Enter || Classify(p, c) == Interrupt
  }

  /** How an editing session ends: with the joined buffer on enter, with
      `KeyboardInterrupt` on ctrl+c, or because the modelled keystroke stream
      ran out before either. */
  datatype Outcome = Returned(password: string) | Interrupted | OutOfInput

  /** The effect of feeding keystrokes to the editor: how it ended, the buffer
      at that point, what it echoed and how many keystrokes it read. */
  datatype Trace = Trace(outcome: Outcome, buffer: string, echo: string, used: nat)

  /** What a key that does not end the loop does to the buffer, and what it
      echoes: backspace drops the last character and erases it on screen
      (nothing at all on an empty buffer); any other key is stored and shown
      as `*`. */
  function Edit(p: Platform, buffer: string, c: char): (r: (string, string))
    requires !Ends(p, c)
    ensures Classify(p, c) == Ordinary ==>
              |r.0| == |buffer| + 1 && r.0[..|buffer|] == buffer && r.0[|buffer|] == c && r.1 == StarEcho
    ensures Classify(p, c) == Backspace ==>
              |r.0| == (if buffer == [] then 0 else |buffer| - 1) && r.0 == buffer[..|r.0|] &&
              (r.1 == EraseEcho <==> buffer != []) && (r.1 == [] <==> buffer == [])
  {
    if Classify(p, c) == Backspace then
      if buffer == [] then (buffer, "") else (buffer[..|buffer| - 1], EraseEcho)
    else
      (buffer + [c], StarEcho)
  }

  /** The editing loop as a function of the keystrokes still to come and the
      buffer typed so far. It reads exactly up to and including the first
      enter or ctrl+c, and never beyond. */
  function Session(p: Platform, keys: seq<char>, buffer: string): (t: Trace)
    ensures t.used <= |keys|
    ensures t.outcome.OutOfInput? ==> t.used == |keys|
    ensures !t.outcome.OutOfInput? ==> 1 <= t.used
    ensures t.outcome.Returned? ==> t.outcome.password == t.buffer
    decreases |keys|
  {
    if keys == [] then Trace(OutOfInput, buffer, "", 0)
    else
      var c := keys[0];
      if Classify(p, c) == Enter then Trace(Returned(buffer), buffer, EnterEcho, 1)
      else if Classify(p, c) == Interrupt then Trace(Interrupted, buffer, "", 1)
      else
        var (next, shown) := Edit(p, buffer, c);
        var t := Session(p, keys[1..], next);
        t.(echo := shown + t.echo, used := t.used + 1)
  }

  /** The session reads every keystroke up to and including the first enter
      or ctrl+c, and no further; it ends in an interrupt exactly when that key
      is ctrl+c, and runs out of input exactly when there is no such key. */
  lemma {:induction false} ReadsThroughFirstEnd(p: Platform, keys: seq<char>, buffer: string)
    ensures var t := Session(p, keys, buffer);
            (t.outcome.OutOfInput? ==> forall i :: 0 <= i < |keys| ==> !Ends(p, keys[i])) &&
            (!t.outcome.OutOfInput? ==>
               Ends(p, keys[t.used - 1]) && forall i :: 0 <= i < t.used - 1 ==> !Ends(p, keys[i])) &&
            (t.outcome.Interrupted? <==> !t.outcome.OutOfInput? && keys[t.used - 1] == CtrlC)
    decreases |keys|
  {
    if keys != [] {
      var c := keys[0];
      if !Ends(p, c) {
        var next := Edit(p, buffer, c).0;
        ReadsThroughFirstEnd(p, keys[1..], next);
        var t := Session(p, keys, buffer);
        var u := Session(p, keys[1..], next);
        assert t.outcome == u.outcome && t.used == u.used + 1;
        forall i | 0 <= i < |keys| && (t.outcome.OutOfInput? || i < t.used - 1)
          ensures !Ends(p, keys[i])
        {
          if i > 0 { assert keys[i] == keys[1..][i - 1]; }
        }
        if !t.outcome.OutOfInput? {
          assert keys[t.used - 1] == keys[1..][u.used - 1];
        }
      }
    }
  }

  /** One keystroke, per class of key: an ordinary key is appended
      and echoed as one `*`; backspace drops only the last character and
      echoes an erase, or does nothing at all on an empty buffer; ctrl+c
      aborts whatever the buffer holds; enter returns it. */
  lemma SessionStep(p: Platform, c: char, rest: seq<char>, buffer: string)
    ensures var t := Session(p, [c] + rest, buffer);
      match Classify(p, c)
      case Ordinary =>
        var u := Session(p, rest, buffer + [c]);
        t == u.(echo := StarEcho + u.echo, used := u.used + 1)
      case Backspace =>
        if buffer == [] then
          var u := Session(p, rest, buffer);
          t == u.(used := u.used + 1)
        else
          var u := Session(p, rest, buffer[..|buffer| - 1]);
          t == u.(echo := EraseEcho + u.echo, used := u.used + 1)
      case Interrupt => t == Trace(Interrupted, buffer, "", 1)
      case Enter => t == Trace(Returned(buffer), buffer, EnterEcho, 1)
  {
    assert ([c] + rest)[0] == c && ([c] + rest)[1..] == rest;
  }

  /** Typing plain characters and then enter returns exactly what was typed,
      in order, behind what the buffer already held; the keys after enter are
      left unread. */
  lemma {:induction false} PlainTyping(p: Platform, typed: seq<char>, enter: char, rest: seq<char>, buffer: string)
    requires forall i :: 0 <= i < |typed| ==> Classify(p, typed[i]) == Ordinary
    requires Classify(p, enter) == Enter
    ensures Session(p, typed + [enter] + rest, buffer) ==
            Trace(Returned(buffer + typed), buffer + typed, Stars(|typed|) + EnterEcho, |typed| + 1)
    decreases |typed|
  {
    var keys := typed + [enter] + rest;
    if typed == [] {
      assert keys == [enter] + rest;
      SessionStep(p, enter, rest, buffer);
    } else {
      var tail := typed[1..];
      assert keys == [typed[0]] + (tail + [enter] + rest);
      SessionStep(p, typed[0], tail + [enter] + rest, buffer);
      PlainTyping(p, tail, enter, rest, buffer + [typed[0]]);
      assert buffer + [typed[0]] + tail == buffer + typed;
      assert StarEcho + Stars(|tail|) == Stars(|typed|);
    }
  }

  function Stars(n: nat): (s: string)
    ensures |s| == n && forall i :: 0 <= i < n ==> s[i] == '*'
  {
    seq(n, _ => '*')
  }

  /** A backspace right after an ordinary key undoes it: the session ends as
      if neither key had been typed, with one `*` and one erase more echoed. */
  lemma BackspaceUndoes(p: Platform, c: char, b: char, rest: seq<char>, buffer: string)
    requires Classify(p, c) == Ordinary && Classify(p, b) == Backspace
    ensures var t := Session(p, [c, b] + rest, buffer);
            var u := Session(p, rest, buffer);
            t.outcome == u.outcome && t.buffer == u.buffer &&
            t.echo == StarEcho + EraseEcho + u.echo && t.used == u.used + 2
  {
    assert [c, b] + rest == [c] + ([b] + rest);
    SessionStep(p, c, [b] + rest, buffer);
    SessionStep(p, b, rest, buffer + [c]);
    assert (buffer + [c])[..|buffer + [c]| - 1] == buffer;
  }

  /** Keystrokes after the one that ends the session are never read: they do
      not change anything the session produces. */
  lemma {:induction false} StopsAtEnd(p: Platform, keys: seq<char>, more: seq<char>, buffer: string)
    requires !Session(p, keys, buffer).outcome.OutOfInput?
    ensures Session(p, keys + more, buffer) == Session(p, keys, buffer)
    decreases |keys|
  {
    assert keys != [];
    assert (keys + more)[0] == keys[0] && (keys + more)[1..] == keys[1..] + more;
    if !Ends(p, keys[0]) {
      StopsAtEnd(p, keys[1..], more, Edit(p, buffer, keys[0]).0);
    }
  }

  /** Occurrences of `c` in `s`. */
  function Count(s: string, c: char): nat
  {
    if s == [] then 0 else (if s[0] == c then 1 else 0) + Count(s[1..], c)
  }

  lemma {:induction false} CountAppend(a: string, b: string, c: char)
    ensures Count(a + b, c) == Count(a, c) + Count(b, c)
    decreases |a|
  {
    if a == [] {
      assert a + b == b;
    } else {
      assert (a + b)[0] == a[0] && (a + b)[1..] == a[1..] + b;
      CountAppend(a[1..], b, c);
    }
  }

  /** The echo accounts for the buffer: every stored key shows one `*`, every
      erased one a blank between two backspaces, so the buffer's length is
      the number of `*` minus the number of erases. */
  lemma {:induction false} EchoBalance(p: Platform, keys: seq<char>, buffer: string)
    ensures var t := Session(p, keys, buffer);
            |t.buffer| + Count(t.echo, ' ') == |buffer| + Count(t.echo, '*') &&
            Count(t.echo, BackspaceKey) == 2 * Count(t.echo, ' ')
    decreases |keys|
  {
    if keys != [] && !Ends(p, keys[0]) {
      var (next, shown) := Edit(p, buffer, keys[0]);
      var u := Session(p, keys[1..], next);
      EchoBalance(p, keys[1..], next);
      assert Session(p, keys, buffer).echo == shown + u.echo;
      CountAppend(shown, u.echo, ' ');
      CountAppend(shown, u.echo, '*');
      CountAppend(shown, u.echo, BackspaceKey);
      EditBalance(p, buffer, keys[0]);
    } else if keys != [] && Classify(p, keys[0]) == Enter {
      assert Count(EnterEcho, ' ') == 0 && Count(EnterEcho, '*') == 0 && Count(EnterEcho, BackspaceKey) == 0;
    }
  }

  lemma EditBalance(p: Platform, buffer: string, c: char)
    requires !Ends(p, c)
    ensures var (next, shown) := Edit(p, buffer, c);
            |next| + Count(shown, ' ') == |buffer| + Count(shown, '*') &&
            Count(shown, BackspaceKey) == 2 * Count(shown, ' ')
  {
    assert Count(EraseEcho, ' ') == 1 && Count(EraseEcho, '*') == 0 && Count(EraseEcho, BackspaceKey) == 2;
    assert Count(StarEcho, ' ') == 0 && Count(StarEcho, '*') == 1 && Count(StarEcho, BackspaceKey) == 0;
  }

  /** A returned password has as many characters as `*` echoes minus erases. */
  lemma ReturnedLength(p: Platform, keys: seq<char>)
    requires Session(p, keys, []).outcome.Returned?
    ensures var t := Session(p, keys, []);
            |t.outcome.password| == Count(t.echo, '*') - Count(t.echo, ' ')
  {
    EchoBalance(p, keys, []);
  }

  /** `a`, `b`, backspace, `c`, enter returns "ac" with exactly one erase, on
      both variants; on POSIX the delete key does the same. */
  lemma TypingExample(p: Platform, bs: char)
    requires bs == BackspaceKey || (p == Posix && bs == DeleteKey)
    ensures Session(p, ['a', 'b', bs, 'c', '\r'], []) ==
            Trace(Returned("ac"), "ac", "**" + EraseEcho + "*" + EnterEcho, 5)
  {
    var mid := ['b', bs, 'c', '\r'];
    TypingExampleTail(p, bs);
    SessionStep(p, 'a', mid, "");
    assert "" + ['a'] == "a";
    assert ['a'] + mid == ['a', 'b', bs, 'c', '\r'];
  }

  lemma TypingExampleTail(p: Platform, bs: char)
    requires bs == BackspaceKey || (p == Posix && bs == DeleteKey)
    ensures Session(p, ['b', bs, 'c', '\r'], "a") ==
            Trace(Returned("ac"), "ac", "*" + EraseEcho + "*" + EnterEcho, 4)
  {
    var last := ['c', '\r'];
    PlainTyping(p, ['c'], '\r', [], "a");
    assert ['c'] + ['\r'] + [] == last && "a" + ['c'] == "ac" && Stars(1) == "*";
    BackspaceUndoes(p, 'b', bs, last, "a");
    assert ['b', bs] + last == ['b', bs, 'c', '\r'];
  }

  /** The Windows variant stores line feed and delete as ordinary characters;
      the POSIX variant treats them as enter and backspace. */
  lemma VariantsDiffer(rest: seq<char>, buffer: string)
    ensures Session(Windows, ['\n'] + rest, buffer).buffer == Session(Windows, rest, buffer + ['\n']).buffer
    ensures Session(Windows, [DeleteKey] + rest, buffer).buffer == Session(Windows, rest, buffer + [DeleteKey]).buffer
    ensures Session(Posix, ['\n'] + rest, buffer).outcome == Returned(buffer)
    ensures Session(Posix, [DeleteKey] + rest, buffer).buffer ==
            Session(Posix, rest, if buffer == [] then [] else buffer[..|buffer| - 1]).buffer
  {
    SessionStep(Windows, '\n', rest, buffer);
    SessionStep(Windows, DeleteKey, rest, buffer);
    SessionStep(Posix, '\n', rest, buffer);
    SessionStep(Posix, DeleteKey, rest, buffer);
  }

  /** Proof helper for the loops below: regrouping appended output. Used as
      a call so that the solver sees one fact, not the sequence axioms. */
  lemma Associative(a: string, b: string, c: string)
    ensures a + (b + c) == (a + b) + c
  {
  }

  /** The console a prompt runs on: the keystrokes the operator is about to
      type, everything written to standard output, whether the terminal is in
      raw mode, and the masked buffer of the prompt in progress. */
  class Console {
    const platform: Platform
    var input: seq<char>
    var output: string
    var raw: bool
    var password: string
    /** How many keystrokes were read while the terminal was not in raw mode. */
    ghost var cookedReads: nat

    constructor (platform: Platform, keys: seq<char>)
      ensures this.platform == platform && input == keys && output == []
      ensures !raw && password == [] && cookedReads == 0
    {
      this.platform := platform;
      input := keys;
      output := [];
      raw := false;
      password := [];
      cookedReads := 0;
    }

    method Write(s: string)
      modifies this`output
      ensures output == old(output) + s
    {
      output := output + s;
    }

    /** Blocks for the next keystroke; in the model it takes the next one
        from the operator's stream. */
    method ReadKey() returns (c: char)
      requires input != []
      modifies this`input, this`cookedReads
      ensures c == old(input)[0] && input == old(input)[1..]
      ensures cookedReads == old(cookedReads) + (if raw then 0 else 1)
    {
      c := input[0];
      input := input[1..];
      if !raw {
        cookedReads := cookedReads + 1;
      }
    }

    /** The effect of one keystroke that does not end the loop. */
    method EditKey(c: char)
      requires !Ends(platform, c)
      modifies this`password, this`output
      ensures password == Edit(platform, old(password), c).0
      ensures output == old(output) + Edit(platform, old(password), c).1
    {
      if Classify(platform, c) == Backspace {
        if password != [] {
          password := password[..|password| - 1];
          Write(EraseEcho);
        }
      } else {
        password := password + [c];
        Write(StarEcho);
      }
    }

    /** The `while True` loop of both variants: reads keystrokes until enter
        or ctrl+c, editing the buffer in between. */
    method EditLoop() returns (o: Outcome)
      modifies this`input, this`password, this`output, this`cookedReads
      ensures var t := Session(platform, old(input), old(password));
              o == t.outcome && password == t.buffer &&
              output == old(output) + t.echo && input == old(input)[t.used..] &&
              cookedReads == old(cookedReads) + (if raw then 0 else t.used)
    {
      ghost var keys := input;
      ghost var t := Session(platform, keys, password);
      ghost var used: nat := 0;
      o := OutOfInput;
      while input != []
        invariant used <= |keys| && input == keys[used..]
        invariant cookedReads == old(cookedReads) + (if raw then 0 else used)
        invariant o == OutOfInput
        invariant var u := Session(platform, input, password);
                  t.outcome == u.outcome && t.buffer == u.buffer &&
                  old(output) + t.echo == output + u.echo && t.used == used + u.used
        decreases |input|
      {
        ghost var before := input;
        ghost var out := output;
        assert before == [before[0]] + before[1..];
        SessionStep(platform, before[0], before[1..], password);
        var c := ReadKey();
        used := used + 1;
        if Classify(platform, c) == Enter {
          Write(EnterEcho);
          o := Returned(password);
          break;
        } else if Classify(platform, c) == Interrupt {
          o := Interrupted;
          assert output + "" == output;
          break;
        } else {
          ghost var shown := Edit(platform, password, c).1;
          EditKey(c);
          Associative(out, shown, Session(platform, input, password).echo);
        }
      }
      assert output + "" == output;
    }

    /** `secure_password_input(prompt)`: writes the prompt, edits the buffer
        keystroke by keystroke and returns the joined buffer on enter, or
        reports the interrupt on ctrl+c. The POSIX variant saves the terminal
        mode, switches to raw mode before the first read and restores the
        saved mode on every way out; the Windows variant leaves the mode
        alone. */
    method SecureInput(prompt: string) returns (o: Outcome)
      modifies this`input, this`password, this`output, this`cookedReads, this`raw
      ensures var t := Session(platform, old(input), []);
              o == t.outcome && password == t.buffer &&
              output == old(output) + prompt + t.echo &&
              input == old(input)[t.used..]
      ensures raw == old(raw)
      ensures platform == Posix ==> cookedReads == old(cookedReads)
    {
      password := [];
      Write(prompt);
      var saved := raw;
      if platform == Posix {
        raw := true;
      }
      o := EditLoop();
      raw := saved;
    }
  }
}
