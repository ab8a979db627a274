/** The text of the application's log: how Rust's `str::lines` splits it,
    how `join("\n")` rebuilds it, and the 1000-line cap applied after every
    append (`limit_log_buffer`). */
module LogText {

  /** `max_lines` in `limit_log_buffer`. */
  const MaxLines: nat := 1000

  /** Position of the first '\n' in `s`, or `|s|` when there is none. */
  function FirstNewline(s: string): (i: nat)
    ensures i <= |s|
    ensures i < |s| ==> s[i] == '\n'
    ensures forall k :: 0 <= k < i ==> s[k] != '\n'
  {
    if s == [] || s[0] == '\n' then 0 else 1 + FirstNewline(s[1..])
  }

  /** A line ended by "\r\n" loses its '\r' as well as the '\n'. */
  function StripCR(line: string): string
  {
    if |line| > 0 && line[|line| - 1] == '\r' then line[..|line| - 1] else line
  }

  /** `s.lines()`: the pieces between line feeds, each terminated piece
      without a trailing '\r', and no empty piece after a final '\n'. The
      unterminated last piece keeps a trailing '\r', as in current Rust
      toolchains. */
  function Lines(s: string): seq<string>
    decreases |s|
  {
    if s == [] then []
    else
      var i := FirstNewline(s);
      if i == |s| then [s] else [StripCR(s[..i])] + Lines(s[i + 1..])
  }

  /** No line holds a line feed, nor a carriage return when `s` has none. */
  lemma {:induction false} LinesClean(s: string)
    ensures forall j :: 0 <= j < |Lines(s)| ==> '\n' !in Lines(s)[j]
    ensures '\r' !in s ==> forall j :: 0 <= j < |Lines(s)| ==> '\r' !in Lines(s)[j]
    decreases |s|
  {
    if s != [] {
      var i := FirstNewline(s);
      if i < |s| {
        var rest := s[i + 1..];
        LinesClean(rest);
        assert '\n' !in s[..i] by {
          forall k | 0 <= k < i ensures s[..i][k] != '\n' { }
        }
        assert '\r' !in s ==> '\r' !in s[..i] && '\r' !in rest by {
          forall k | 0 <= k < i ensures s[..i][k] in s { assert s[..i][k] == s[k]; }
          forall k | 0 <= k < |rest| ensures rest[k] in s { assert rest[k] == s[i + 1 + k]; }
        }
        var head := StripCR(s[..i]);
        assert Lines(s) == [head] + Lines(rest);
        forall j | 0 <= j < |Lines(s)|
          ensures '\n' !in Lines(s)[j]
          ensures '\r' !in s ==> '\r' !in Lines(s)[j]
        {
          if j > 0 {
            assert Lines(s)[j] == Lines(rest)[j - 1];
          }
        }
      }
    }
  }

  /** `lines.join("\n")`. */
  function Join(ls: seq<string>): string
  {
    if ls == [] then "" else if |ls| == 1 then ls[0] else ls[0] + "\n" + Join(ls[1..])
  }

  /** What `limit_log_buffer` leaves in the buffer: the buffer itself when it
      has at most `MaxLines` lines, otherwise its last `MaxLines` lines
      joined with "\n" (so without a final line feed). */
  function Capped(log: string): string
  {
    var lines := Lines(log);
    if |lines| > MaxLines then Join(lines[|lines| - MaxLines..]) else log
  }

  /** The text appended by pushing every message followed by "\n". */
  function Terminated(messages: seq<string>): string
  {
    if messages == [] then ""
    else Terminated(messages[..|messages| - 1]) + messages[|messages| - 1] + "\n"
  }

  /** A log line that `lines()` gives back unchanged. */
  ghost predicate Clean(line: string)
  {
    '\n' !in line && '\r' !in line
  }

  /** `Clean`, checked character by character. */
  lemma CleanChars(line: string)
    requires forall k :: 0 <= k < |line| ==> line[k] != '\n' && line[k] != '\r'
    ensures Clean(line)
  {
  }

  /** The buffer ends where a new line can begin: it is empty or ends with a line feed. */
  ghost predicate AtLineStart(log: string)
  {
    log == [] || log[|log| - 1] == '\n'
  }

  function NewlineCount(s: string): nat
  {
    if s == [] then 0 else (if s[0] == '\n' then 1 else 0) + NewlineCount(s[1..])
  }

  // ---------------------------------------------------------------------
  // Facts about line splitting

  lemma {:induction false} FirstNewlineIs(s: string, i: nat)
    requires i <= |s|
    requires i < |s| ==> s[i] == '\n'
    requires forall k :: 0 <= k < i ==> s[k] != '\n'
    ensures FirstNewline(s) == i
    decreases |s|
  {
    if s != [] && s[0] != '\n' {
      FirstNewlineIs(s[1..], i - 1);
    }
  }

  lemma {:induction false} NewlineCountAppend(a: string, b: string)
    ensures NewlineCount(a + b) == NewlineCount(a) + NewlineCount(b)
    decreases |a|
  {
    if a != [] {
      assert (a + b)[0] == a[0];
      assert (a + b)[1..] == a[1..] + b;
      NewlineCountAppend(a[1..], b);
    } else {
      assert a + b == b;
    }
  }

  lemma {:induction false} NoNewlineCount(s: string)
    requires '\n' !in s
    ensures NewlineCount(s) == 0
    decreases |s|
  {
    if s != [] {
      assert s[0] in s;
      assert forall c :: c in s[1..] ==> c in s;
      NoNewlineCount(s[1..]);
    }
  }

  /** Every line but possibly the last is ended by its own line feed. */
  lemma {:induction false} LinesBound(s: string)
    ensures |Lines(s)| <= NewlineCount(s) + 1
    decreases |s|
  {
    if s != [] {
      var i := FirstNewline(s);
      if i < |s| {
        assert s == s[..i] + ([s[i]] + s[i + 1..]);
        NewlineCountAppend(s[..i], [s[i]] + s[i + 1..]);
        NewlineCountAppend([s[i]], s[i + 1..]);
        LinesBound(s[i + 1..]);
      }
    }
  }

  lemma {:induction false} JoinNewlineCount(ls: seq<string>)
    requires ls != []
    requires forall j :: 0 <= j < |ls| ==> '\n' !in ls[j]
    ensures NewlineCount(Join(ls)) == |ls| - 1
    decreases |ls|
  {
    NoNewlineCount(ls[0]);
    if |ls| > 1 {
      NewlineCountAppend(ls[0] + "\n", Join(ls[1..]));
      NewlineCountAppend(ls[0], "\n");
      JoinNewlineCount(ls[1..]);
    }
  }

  /** Splitting a text that ends at a line start splits its two halves independently. */
  lemma {:induction false} LinesAppend(a: string, b: string)
    requires AtLineStart(a)
    ensures Lines(a + b) == Lines(a) + Lines(b)
    decreases |a|
  {
    if a == [] {
      assert a + b == b;
    } else {
      var i := FirstNewline(a);
      assert i < |a|;
      FirstNewlineIs(a + b, i);
      assert (a + b)[..i] == a[..i];
      assert (a + b)[i + 1..] == a[i + 1..] + b;
      LinesAppend(a[i + 1..], b);
    }
  }

  /** A clean line followed by a line feed is read back as that one line. */
  lemma LinesOfLine(line: string)
    requires Clean(line)
    ensures Lines(line + "\n") == [line]
  {
    var s := line + "\n";
    FirstNewlineIs(s, |line|);
    assert s[..|line|] == line;
    assert s[|line| + 1..] == [];
    if |line| > 0 {
      assert line[|line| - 1] in line;
    }
  }

  /** Pushing each clean message with its line feed yields exactly those lines. */
  lemma {:induction false} LinesOfTerminated(messages: seq<string>)
    requires forall j :: 0 <= j < |messages| ==> Clean(messages[j])
    ensures Lines(Terminated(messages)) == messages
    ensures AtLineStart(Terminated(messages))
    decreases |messages|
  {
    if messages != [] {
      var init := messages[..|messages| - 1];
      var last := messages[|messages| - 1];
      LinesOfTerminated(init);
      assert Terminated(messages) == Terminated(init) + (last + "\n");
      LinesAppend(Terminated(init), last + "\n");
      LinesOfLine(last);
      SplitLast(messages);
    }
  }

  lemma SplitFirst<T>(s: seq<T>)
    requires s != []
    ensures [s[0]] + s[1..] == s
  {
  }

  lemma SplitLast<T>(s: seq<T>)
    requires s != []
    ensures s[..|s| - 1] + [s[|s| - 1]] == s
  {
  }

  /** Appending clean messages to a buffer that ends at a line start adds exactly those lines. */
  lemma AppendMessages(log: string, messages: seq<string>)
    requires AtLineStart(log)
    requires forall j :: 0 <= j < |messages| ==> Clean(messages[j])
    ensures Lines(log + Terminated(messages)) == Lines(log) + messages
  {
    LinesAppend(log, Terminated(messages));
    LinesOfTerminated(messages);
  }

  /** Clean lines joined, with a final line feed, are read back unchanged. */
  lemma {:induction false} LinesOfJoinTerminated(ks: seq<string>)
    requires ks != []
    requires forall j :: 0 <= j < |ks| ==> Clean(ks[j])
    ensures Lines(Join(ks) + "\n") == ks
    decreases |ks|
  {
    if |ks| == 1 {
      LinesOfLine(ks[0]);
    } else {
      var head := ks[0] + "\n";
      var rest := Join(ks[1..]) + "\n";
      JoinTerminatedSplit(ks);
      LinesAppend(head, rest);
      LinesOfLine(ks[0]);
      var tail := ks[1..];
      assert forall j :: 0 <= j < |tail| ==> tail[j] == ks[j + 1];
      LinesOfJoinTerminated(tail);
      SplitFirst(ks);
    }
  }

  lemma JoinTerminatedSplit(ks: seq<string>)
    requires |ks| > 1
    ensures Join(ks) + "\n" == (ks[0] + "\n") + (Join(ks[1..]) + "\n")
  {
  }

  /** Clean lines joined are read back unchanged provided the last one is not
      empty (an empty last line leaves only a trailing line feed, which
      `lines()` does not count). */
  lemma {:induction false} LinesOfJoin(ks: seq<string>)
    requires forall j :: 0 <= j < |ks| ==> Clean(ks[j])
    requires ks != [] ==> ks[|ks| - 1] != ""
    ensures Lines(Join(ks)) == ks
    decreases |ks|
  {
    if |ks| == 1 {
      FirstNewlineIs(ks[0], |ks[0]|);
    } else if |ks| > 1 {
      var rest := Join(ks[1..]);
      assert Join(ks) == (ks[0] + "\n") + rest;
      LinesAppend(ks[0] + "\n", rest);
      LinesOfLine(ks[0]);
      LinesOfJoin(ks[1..]);
    }
  }

  /** A join whose last line is non-empty and holds no line feed does not end with one. */
  lemma {:induction false} JoinEnds(ks: seq<string>)
    requires ks != [] && ks[|ks| - 1] != "" && '\n' !in ks[|ks| - 1]
    ensures |Join(ks)| > 0 && Join(ks)[|Join(ks)| - 1] != '\n'
    decreases |ks|
  {
    if |ks| == 1 {
      var last := ks[0];
      assert last[|last| - 1] in last;
    } else {
      var tail := ks[1..];
      assert tail[|tail| - 1] == ks[|ks| - 1];
      JoinEnds(tail);
      var rest := Join(tail);
      assert Join(ks) == (ks[0] + "\n") + rest;
    }
  }

  // ---------------------------------------------------------------------
  // The cap

  /** `limit_log_buffer`: a buffer of at most `MaxLines` lines is left as it
      is; whatever the buffer, at most `MaxLines` lines remain; and for a
      buffer without carriage returns whose last line is not empty, exactly
      its last `MaxLines` lines remain, in order. */
  lemma CappedLines(log: string)
    ensures |Lines(log)| <= MaxLines ==> Capped(log) == log
    ensures |Lines(Capped(log))| <= MaxLines
    ensures var ls := Lines(log);
      '\r' !in log && |ls| > MaxLines && ls[|ls| - 1] != "" ==>
        Lines(Capped(log)) == ls[|ls| - MaxLines..]
  {
    var ls := Lines(log);
    if |ls| > MaxLines {
      var kept := ls[|ls| - MaxLines..];
      assert Capped(log) == Join(kept);
      KeptLinesClean(log, kept);
      JoinNewlineCount(kept);
      LinesBound(Join(kept));
      if '\r' !in log && ls[|ls| - 1] != "" {
        assert kept[|kept| - 1] == ls[|ls| - 1];
        LinesOfJoin(kept);
      }
    }
  }

  /** The lines kept by the cap carry no line feed, and no carriage return
      when the buffer has none. */
  lemma KeptLinesClean(log: string, kept: seq<string>)
    requires |Lines(log)| > MaxLines
    requires kept == Lines(log)[|Lines(log)| - MaxLines..]
    ensures forall j :: 0 <= j < |kept| ==> '\n' !in kept[j]
    ensures '\r' !in log ==> forall j :: 0 <= j < |kept| ==> Clean(kept[j])
  {
    var ls := Lines(log);
    LinesClean(log);
    var off := |ls| - MaxLines;
    forall j | 0 <= j < |kept| ensures kept[j] == ls[off + j] {
    }
  }

  /** When the cap cuts and the last line is not empty, the rebuilt buffer
      no longer ends with a line feed. */
  lemma CappedLosesFinalNewline(log: string)
    requires |Lines(log)| > MaxLines
    requires Lines(log)[|Lines(log)| - 1] != ""
    ensures !AtLineStart(Capped(log))
  {
    var ls := Lines(log);
    var kept := ls[|ls| - MaxLines..];
    LinesClean(log);
    assert kept[|kept| - 1] == ls[|ls| - 1];
    JoinEnds(kept);
    assert Capped(log) == Join(kept);
  }

  /** The consequence of `CappedLosesFinalNewline`: once a full buffer of
      `MaxLines` lines has taken one more message `a` and been cut, the next
      message `b` is glued onto `a` in one line instead of starting its own. */
  lemma GlueAfterCap(log: string, a: string, b: string)
    requires AtLineStart(log) && '\r' !in log
    requires |Lines(log)| == MaxLines
    requires Clean(a) && a != "" && Clean(b)
    ensures var once := Capped(log + a + "\n");
      Capped(once + b + "\n") == once + b + "\n" &&
      Lines(once + b + "\n") == Lines(log)[1..] + [a + b]
  {
    var ls := Lines(log);
    AppendMessages(log, [a]);
    assert Terminated([a]) == a + "\n";
    assert log + a + "\n" == log + Terminated([a]);
    var full := ls + [a];
    assert Lines(log + a + "\n") == full;
    var kept := full[|full| - MaxLines..];
    assert kept == ls[1..] + [a];
    var once := Capped(log + a + "\n");
    assert once == Join(kept);
    var glued := ls[1..] + [a + b];
    LinesClean(log);
    assert forall j :: 0 <= j < |glued| ==> Clean(glued[j]) by {
      forall j | 0 <= j < |glued| ensures Clean(glued[j]) {
        if j < |ls| - 1 { assert glued[j] == ls[j + 1]; }
      }
    }
    JoinAppendLast(ls[1..], a, b);
    assert once + b == Join(glued);
    LinesOfJoinTerminated(glued);
    assert once + b + "\n" == Join(glued) + "\n";
    CappedLines(once + b + "\n");
  }

  /** Adding text to the last of several lines adds it to their join. */
  lemma {:induction false} JoinAppendLast(init: seq<string>, a: string, b: string)
    ensures Join(init + [a]) + b == Join(init + [a + b])
    decreases |init|
  {
    if init != [] {
      assert (init + [a])[1..] == init[1..] + [a];
      assert (init + [a + b])[1..] == init[1..] + [a + b];
      JoinAppendLast(init[1..], a, b);
    }
  }
}
