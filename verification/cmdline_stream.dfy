/** The two nested read loops as one pass over the lines: what they dispatch for any input, and
    exactly when that is the ';'-separated commands of the text. */
module CmdlineStream {
  import opened Tokens
  import opened Cmdline
  import opened CmdlineTheorems

  ghost predicate NoNul(lines: seq<string>) { forall i :: 0 <= i < |lines| ==> NUL !in lines[i] }

  // ---------- one character ----------

  /** A character that does not fit: the buffer is emptied and the character lost. NUL stands for
      the end of a line, which never fails. */
  predicate Overflows(size: nat, content: string, c: char) {
    c != NUL && !(IsSpace(c) && !IsOpen(content)) && |content| >= size
  }

  /** The buffer after one more character other than ';'. */
  function Taken(size: nat, content: string, c: char): string {
    if c == NUL then (if IsOpen(content) then WriteNul(size, content) else content)
    else if IsSpace(c) && !IsOpen(content) then content
    else if |content| >= size then []
    else content + [if IsSpace(c) then NUL else c]
  }

  /** What is in the buffer after the text x of a command, line ends included. */
  function Kept(size: nat, x: string): string {
    if x == [] then [] else Taken(size, Kept(size, x[..|x| - 1]), x[|x| - 1])
  }

  /** No character of x overflowed the buffer. */
  predicate Survives(size: nat, x: string) {
    x == [] || (Survives(size, x[..|x| - 1]) && !Overflows(size, Kept(size, x[..|x| - 1]), x[|x| - 1]))
  }

  lemma KeptSnoc(size: nat, x: string, c: char)
    ensures Kept(size, x + [c]) == Taken(size, Kept(size, x), c)
    ensures Survives(size, x + [c]) <==> Survives(size, x) && !Overflows(size, Kept(size, x), c)
  {
    assert (x + [c])[..|x|] == x;
  }

  /** The words dispatched when the ';' comes. */
  function Dispatched(size: nat, x: string): seq<string> { ReadBack(WriteNul(size, Kept(size, x))) }

  function AllDispatched(size: nat, commands: seq<string>): seq<seq<string>> {
    if commands == [] then [] else [Dispatched(size, commands[0])] + AllDispatched(size, commands[1..])
  }

  // ---------- the loops as one pass ----------

  /** The commands dispatched from the k-th on: up to an `exit`, which is not, or up to the one
      after which the debugee is gone. */
  function Cut(commands: seq<seq<string>>, k: nat, gone: Outcomes): seq<seq<string>> {
    if commands == [] || IsExit(commands[0]) then []
    else if gone(k, commands[0]) then [commands[0]]
    else [commands[0]] + Cut(commands[1..], k + 1, gone)
  }

  /** One line and then the others. */
  function RunFrom(size: nat, content: string, text: string, lines: seq<string>, k: nat, gone: Outcomes)
    : seq<seq<string>>
  {
    var r := RunLine(size, content, text, k, gone);
    if r.over then r.dispatched else r.dispatched + RunLines(size, r.content, lines, k + |r.dispatched|, gone)
  }

  /** Read on from buffer contents `content` through s, the lines still to come. */
  function Pass(size: nat, content: string, s: string, k: nat, gone: Outcomes): seq<seq<string>>
    decreases |s|
  {
    if s == [] then []
    else if s[0] != ';' then Pass(size, Taken(size, content, s[0]), s[1..], k, gone)
    else
      var words := ReadBack(WriteNul(size, content));
      if IsExit(words) then []
      else if gone(k, words) then [words]
      else [words] + Pass(size, [], s[1..], k + 1, gone)
  }

  /** One dispatch, then the rest of the line. */
  lemma RunAfterCommand(size: nat, content: string, rest: string, lines: seq<string>, k: nat, gone: Outcomes)
    ensures var words := ReadBack(WriteNul(size, content));
            RunFrom(size, content, [';'] + rest, lines, k, gone) ==
            if IsExit(words) then []
            else if gone(k, words) then [words]
            else [words] + RunFrom(size, [], rest, lines, k + 1, gone)
  {
    var words, text := ReadBack(WriteNul(size, content)), [';'] + rest;
    assert text[1..] == rest;
    if !IsExit(words) && !gone(k, words) {
      var r := RunLine(size, [], rest, k + 1, gone);
      assert RunLine(size, content, text, k, gone) == After([words], r);
      if !r.over {
        var more := RunLines(size, r.content, lines, k + 1 + |r.dispatched|, gone);
        assert [words] + r.dispatched + more == [words] + (r.dispatched + more);
      }
    }
  }

  /** Any other character goes into the buffer, or empties it. */
  lemma RunTakes(size: nat, content: string, c: char, rest: string, k: nat, gone: Outcomes)
    requires c != ';' && c != NUL
    ensures RunLine(size, content, [c] + rest, k, gone) == RunLine(size, Taken(size, content, c), rest, k, gone)
  {
    assert ([c] + rest)[1..] == rest;
  }

  lemma {:induction false} LineIsPass(size: nat, content: string, text: string, lines: seq<string>, k: nat,
                                      gone: Outcomes)
    requires NUL !in text && NoNul(lines)
    ensures RunFrom(size, content, text, lines, k, gone) ==
            Pass(size, content, text + [NUL] + Joined(lines), k, gone)
    decreases |lines|, |text|
  {
    var s := text + [NUL] + Joined(lines);
    if text == [] {
      var closed := Taken(size, content, NUL);
      assert s[0] == NUL && s[1..] == Joined(lines);
      assert RunLine(size, content, [], k, gone) == LineRun([], closed, false);
      if lines != [] { LineIsPass(size, closed, lines[0], lines[1..], k, gone); }
    } else {
      var c, rest := text[0], text[1..];
      assert text == [c] + rest && s[1..] == rest + [NUL] + Joined(lines) && s[0] == c;
      if c == ';' {
        RunAfterCommand(size, content, rest, lines, k, gone);
        LineIsPass(size, [], rest, lines, k + 1, gone);
      } else {
        RunTakes(size, content, c, rest, k, gone);
        LineIsPass(size, Taken(size, content, c), rest, lines, k, gone);
      }
    }
  }

  lemma {:induction false} PassIsCut(size: nat, x: string, s: string, k: nat, gone: Outcomes)
    requires ';' !in x
    ensures Pass(size, Kept(size, x), s, k, gone) ==
            Cut(AllDispatched(size, SplitCommands(x + s).commands), k, gone)
    decreases |s|
  {
    if s == [] {
      SplitPrefix(x, []);
      assert x + s == x + [];
    } else {
      var c, rest := s[0], s[1..];
      assert s == [c] + rest;
      if c == ';' {
        SplitAtSemicolon(x, rest);
        var more := SplitCommands(rest).commands;
        assert ([x] + more)[1..] == more;
        assert [] + rest == rest;
        PassIsCut(size, [], rest, k + 1, gone);
      } else {
        assert x + s == (x + [c]) + rest;
        KeptSnoc(size, x, c);
        PassIsCut(size, x + [c], rest, k, gone);
      }
    }
  }

  /** What the loops dispatch, for any lines and any buffer: the ';'-separated commands in order,
      each with what the buffer kept of it, carrying an unfinished one from line to line. */
  lemma LoopsDispatch(size: nat, lines: seq<string>, gone: Outcomes)
    requires NoNul(lines)
    ensures RunLines(size, [], lines, 0, gone) ==
            Cut(AllDispatched(size, SplitCommands(Joined(lines)).commands), 0, gone)
  {
    if lines != [] { LineIsPass(size, [], lines[0], lines[1..], 0, gone); }
    assert [] + Joined(lines) == Joined(lines);
    PassIsCut(size, [], Joined(lines), 0, gone);
  }

  // ---------- a command that survives ----------

  lemma BrokenSnoc(x: string, c: char)
    ensures Broken(x + [c]) == Broken(x) + [if c == NUL then '\n' else c]
  {
  }

  /** Without an overflow the buffer holds the command's picture, but for the NUL after its last
      word if that did not fit at the end of a line. */
  lemma {:induction false} KeptIsImage(size: nat, x: string) returns (z: string)
    requires Survives(size, x)
    ensures NUL !in z && Kept(size, x) == Image(z) && WordsOf(z) == WordsOf(Broken(x))
    ensures z == Broken(x) || (IsOpen(Image(z)) && |Image(z)| >= size)
  {
    z := [];
    if x != [] {
      var y, c := x[..|x| - 1], x[|x| - 1];
      assert x == y + [c];
      z := KeptIsImage(size, y);
      BrokenSnoc(y, c);
      var d := if c == NUL then '\n' else c;
      WordsSnoc(Broken(y), d);
      if z == Broken(y) {
        ImageStep(z, d);
        if c != NUL || !IsOpen(Image(z)) || |Image(z)| < size { z := z + [d]; }
      }
    }
  }

  /** A command that fits survives, and a command of one line survives only if it fits. */
  lemma {:induction false} SurvivesIffFits(size: nat, x: string)
    ensures Fits(size, Broken(x)) ==> Survives(size, x) && Kept(size, x) == Image(Broken(x))
    ensures NUL !in x && Survives(size, x) ==> Fits(size, Broken(x))
  {
    if x != [] {
      var y, c := x[..|x| - 1], x[|x| - 1];
      assert x == y + [c];
      SurvivesIffFits(size, y);
      BrokenSnoc(y, c);
      var d := if c == NUL then '\n' else c;
      ImageStep(Broken(y), d);
      ImageGrows(Broken(y), [d]);
    }
  }

  // ---------- a command that does not ----------

  function Letters(ws: seq<string>): nat { if ws == [] then 0 else |ws[0]| + Letters(ws[1..]) }

  lemma {:induction false} LettersSnoc(ws: seq<string>, w: string)
    ensures Letters(ws + [w]) == Letters(ws) + |w|
  {
    if ws != [] {
      assert (ws + [w])[1..] == ws[1..] + [w];
      LettersSnoc(ws[1..], w);
    }
  }

  /** How many characters of words there are in a text. */
  function Ink(x: string): nat {
    if x == [] then 0 else Ink(x[..|x| - 1]) + if x[|x| - 1] == NUL || IsSpace(x[|x| - 1]) then 0 else 1
  }

  lemma {:induction false} WordsHaveTheInk(x: string)
    ensures Letters(WordsOf(Broken(x))) == Ink(x)
  {
    if x != [] {
      var y, c := x[..|x| - 1], x[|x| - 1];
      assert x == y + [c];
      WordsHaveTheInk(y);
      BrokenSnoc(y, c);
      var b, d := Broken(y), if c == NUL then '\n' else c;
      WordsSnoc(b, d);
      var ws := WordsOf(b);
      if !IsSpace(d) {
        if Open(b) {
          OpenHasWord(b);
          assert ws == ws[..|ws| - 1] + [ws[|ws| - 1]];
          LettersSnoc(ws[..|ws| - 1], ws[|ws| - 1]);
          LettersSnoc(ws[..|ws| - 1], ws[|ws| - 1] + [d]);
        } else {
          LettersSnoc(ws, [d]);
        }
      }
    }
  }

  function Marks(s: string): nat { if s == [] then 0 else Marks(s[1..]) + if s[0] == NUL then 0 else 1 }

  lemma {:induction false} MarksAppend(a: string, b: string)
    ensures Marks(a + b) == Marks(a) + Marks(b)
  {
    if a == [] {
      assert a + b == b;
    } else {
      assert (a + b)[1..] == a[1..] + b;
      MarksAppend(a[1..], b);
    }
  }

  lemma {:induction false} FirstToNul(s: string)
    ensures Marks(s[..NulIndex(s)]) == NulIndex(s)
  {
    if s != [] && s[0] != NUL {
      FirstToNul(s[1..]);
      assert s[..NulIndex(s)][1..] == s[1..][..NulIndex(s[1..])];
    }
  }

  lemma {:induction false} ReadBackMarks(s: string)
    ensures Letters(ReadBack(s)) <= Marks(s)
    decreases |s|
  {
    var n := NulIndex(s);
    if n > 0 {
      var rest := if n < |s| then s[n + 1..] else [];
      FirstToNul(s);
      ReadBackMarks(rest);
      MarksAppend(s[..n], s[n..]);
      assert s == s[..n] + s[n..];
      if n < |s| { assert s[n..][1..] == rest; }
      assert ReadBack(s) == [s[..n]] + ReadBack(rest);
    }
  }

  /** The buffer never holds more than the text did, and less once a character has overflowed it. */
  lemma {:induction false} KeptMarks(size: nat, x: string)
    requires size > 0
    ensures Kept(size, x) == [] || Kept(size, x)[0] != NUL
    ensures Marks(Kept(size, x)) <= Ink(x)
    ensures !Survives(size, x) ==> Marks(Kept(size, x)) < Ink(x)
  {
    if x != [] {
      var y, c := x[..|x| - 1], x[|x| - 1];
      KeptMarks(size, y);
      MarksAppend(Kept(size, y), [NUL]);
      MarksAppend(Kept(size, y), [c]);
    }
  }

  /** A command is dispatched as the words of its text exactly when no character of it overflowed
      the buffer. */
  lemma DispatchedIff(size: nat, x: string)
    requires size > 0
    ensures Dispatched(size, x) == WordsOf(Broken(x)) <==> Survives(size, x)
  {
    if Survives(size, x) {
      var z := KeptIsImage(size, x);
      CommandReadsBack(size, z);
    } else {
      KeptMarks(size, x);
      WordsHaveTheInk(x);
      MarksAppend(Kept(size, x), [NUL]);
      ReadBackMarks(WriteNul(size, Kept(size, x)));
    }
  }

  // ---------- the stream ----------

  /** Every command up to the one that ends the session survives; of an `exit` too long for the
      buffer it is enough that what was kept of it is an `exit` too. */
  ghost predicate SurviveToTheCut(size: nat, commands: seq<string>, k: nat, gone: Outcomes) {
    commands == [] ||
    var words := WordsOf(Broken(commands[0]));
    if IsExit(words) then IsExit(Dispatched(size, commands[0]))
    else Survives(size, commands[0]) && (gone(k, words) || SurviveToTheCut(size, commands[1..], k + 1, gone))
  }

  function AllWords(commands: seq<string>): seq<seq<string>> {
    if commands == [] then [] else [WordsOf(Broken(commands[0]))] + AllWords(commands[1..])
  }

  lemma {:induction false} CutIff(size: nat, commands: seq<string>, k: nat, gone: Outcomes)
    requires size > 0
    ensures Cut(AllDispatched(size, commands), k, gone) == Cut(AllWords(commands), k, gone) <==>
            SurviveToTheCut(size, commands, k, gone)
  {
    if commands != [] {
      DispatchedIff(size, commands[0]);
      CutIff(size, commands[1..], k + 1, gone);
      var v, w := AllDispatched(size, commands), AllWords(commands);
      assert v[1..] == AllDispatched(size, commands[1..]) && w[1..] == AllWords(commands[1..]);
      var a, b := Cut(v, k, gone), Cut(w, k, gone);
      if !IsExit(v[0]) && !IsExit(w[0]) {
        assert a[0] == v[0] && b[0] == w[0];
        if v[0] == w[0] && !gone(k, w[0]) {
          assert a[1..] == Cut(v[1..], k + 1, gone) && b[1..] == Cut(w[1..], k + 1, gone);
        }
      }
    }
  }

  /** The commands of the lines joined by line breaks are those of the lines joined by NULs. */
  lemma {:induction false} SplitBroken(s: string)
    ensures AllWords(SplitCommands(s).commands) == CommandWords(SplitCommands(Broken(s)).commands)
  {
    CommandsBroken(s);
    WordsBroken(SplitCommands(s).commands);
  }

  function AllBroken(commands: seq<string>): seq<string> {
    if commands == [] then [] else [Broken(commands[0])] + AllBroken(commands[1..])
  }

  lemma {:induction false} CommandsBroken(s: string)
    ensures SplitCommands(Broken(s)).commands == AllBroken(SplitCommands(s).commands)
  {
    if s != [] {
      CommandsBroken(s[1..]);
      assert Broken(s)[1..] == Broken(s[1..]);
      var r := SplitCommands(s[1..]).commands;
      if s[0] == ';' {
        assert ([[]] + r)[1..] == r && Broken([]) == [];
      } else if r != [] {
        var first := [s[0]] + r[0];
        assert Broken(first) == [Broken(s)[0]] + Broken(r[0]) && ([first] + r[1..])[1..] == r[1..];
        assert AllBroken(r)[0] == Broken(r[0]) && AllBroken(r)[1..] == AllBroken(r[1..]);
      }
    }
  }

  lemma {:induction false} WordsBroken(commands: seq<string>)
    ensures AllWords(commands) == CommandWords(AllBroken(commands))
  {
    if commands != [] {
      WordsBroken(commands[1..]);
      assert AllBroken(commands)[1..] == AllBroken(commands[1..]);
    }
  }

  lemma {:induction false} StreamIsBroken(lines: seq<string>)
    requires NoNul(lines)
    ensures Broken(Joined(lines)) == Stream(lines)
  {
    if lines != [] {
      StreamIsBroken(lines[1..]);
      BrokenAppend(lines[0] + [NUL], Joined(lines[1..]));
      BrokenAppend(lines[0], [NUL]);
      BrokenPlain(lines[0]);
    }
  }

  lemma {:induction false} BrokenAppend(a: string, b: string)
    ensures Broken(a + b) == Broken(a) + Broken(b)
  {
  }

  lemma BrokenPlain(a: string)
    requires NUL !in a
    ensures Broken(a) == a
  {
  }

  /** Command stream refinement: the read loops dispatch exactly the ';'-separated commands of the
      joined lines, in order, each as its words, if and only if no command up to the end of the
      session overflows the buffer. */
  lemma DispatchesTheStreamIff(size: nat, lines: seq<string>, gone: Outcomes)
    requires size > 0 && NoNul(lines)
    ensures RunLines(size, [], lines, 0, gone) == Cut(CommandWords(SplitCommands(Stream(lines)).commands), 0, gone)
       <==> SurviveToTheCut(size, SplitCommands(Joined(lines)).commands, 0, gone)
  {
    LoopsDispatch(size, lines, gone);
    CutIff(size, SplitCommands(Joined(lines)).commands, 0, gone);
    StreamIsBroken(lines);
    SplitBroken(Joined(lines));
  }
}
