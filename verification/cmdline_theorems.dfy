/** The command reader does what the text says: it dispatches the ';'-separated commands of
    the joined lines, each as its words in order. */
module CmdlineTheorems {
  import opened Tokens
  import opened Cmdline

  /** Text of one command: no ';' and no NUL. */
  predicate IsCommandText(x: string) { ';' !in x && NUL !in x }

  predicate Fits(size: nat, x: string) { |Image(x)| <= size }

  lemma ImageStep(x: string, c: char)
    requires NUL !in x && c != NUL
    ensures var content := Image(x);
            Image(x + [c]) ==
            if IsSpace(c) && !IsOpen(content) then content else content + [if IsSpace(c) then NUL else c]
  {
    ImageSnoc(x, c);
    ImageOpen(x);
  }

  /** Reading on after the text x, through y, to the ';': the command comes out whole exactly
      when it fits, and otherwise the buffer reports that it is full. */
  lemma {:induction false} FeedCommand(size: nat, x: string, y: string, rest: string)
    requires IsCommandText(x + y) && Fits(size, x)
    ensures var fed := Feed(size, Image(x), y + ([';'] + rest));
            if Fits(size, x + y) then fed == Ready(WriteNul(size, Image(x + y)), rest) else fed.Full?
    decreases |y|
  {
    var text := y + ([';'] + rest);
    if y == [] {
      assert x + y == x && text[0] == ';' && text[1..] == rest;
    } else {
      var c := y[0];
      assert text[0] == c && text[1..] == y[1..] + ([';'] + rest);
      assert (x + [c]) + y[1..] == x + y;
      assert (x + y)[|x|] == c && forall d :: d in x ==> d in x + y;
      ImageStep(x, c);
      ImageGrows(x + [c], y[1..]);
      if Fits(size, x + [c]) { FeedCommand(size, x + [c], y[1..], rest); }
    }
  }

  /** A complete command reads back as its words. */
  lemma CommandReadsBack(size: nat, x: string)
    requires NUL !in x
    ensures ReadBack(WriteNul(size, Image(x))) == WordsOf(x)
  {
    ImageReadsBack(x);
  }

  /** Token round trip: from an empty buffer and whatever stale bytes, words joined by any
      white space and ended by ';' come back exactly as they were, if and only if they fit. */
  lemma TokenRoundTrip(size: nat, blank: string, ws: seq<string>, gaps: seq<string>, rest: string)
    requires |gaps| == |ws| && IsBlank(blank)
    requires forall i :: 0 <= i < |ws| ==> IsWord(ws[i]) && IsBlank(gaps[i]) && (i + 1 < |ws| ==> gaps[i] != [])
    requires IsCommandText(blank + Join(ws, gaps))
    ensures var x := blank + Join(ws, gaps);
            var fed := Feed(size, [], x + ([';'] + rest));
            if Fits(size, x) then fed.Ready? && fed.rest == rest && ReadBack(fed.content) == ws else fed.Full?
  {
    var x := blank + Join(ws, gaps);
    assert [] + x == x && Image([]) == [];
    FeedCommand(size, [], x, rest);
    CommandReadsBack(size, x);
    WordsRoundTrip(blank, ws, gaps);
  }

  /** The first character that does not fit: the parse gives up right behind it. */
  lemma {:induction false} FeedOverflows(size: nat, x: string, y: string, c: char, rest: string)
    requires IsCommandText(x + y) && IsCommandText([c]) && Fits(size, x + y) && !Fits(size, x + y + [c])
    ensures Feed(size, Image(x), y + ([c] + rest)) == Full(rest)
    decreases |y|
  {
    var text := y + ([c] + rest);
    ImageGrows(x, y);
    assert c in [c];
    if y == [] {
      assert x + y == x && text[0] == c && text[1..] == rest;
      ImageStep(x, c);
    } else {
      var d := y[0];
      assert text[0] == d && text[1..] == y[1..] + ([c] + rest);
      assert (x + [d]) + y[1..] == x + y;
      assert (x + y)[|x|] == d && forall e :: e in x ==> e in x + y;
      ImageStep(x, d);
      ImageGrows(x + [d], y[1..]);
      FeedOverflows(size, x + [d], y[1..], c, rest);
    }
  }

  /** A command too long for the buffer is not dropped: what follows the first character that
      did not fit is read, and dispatched, as if it were a command of its own. */
  lemma OverlongTailIsACommand(size: nat, y: string, c: char, rest: string, k: nat, gone: Outcomes)
    requires IsCommandText(y) && IsCommandText([c]) && Fits(size, y) && !Fits(size, y + [c])
    ensures RunLine(size, [], y + ([c] + rest), k, gone) == RunLine(size, [], rest, k, gone)
  {
    assert [] + y == y && Image([]) == [];
    FeedOverflows(size, [], y, c, rest);
  }

  /** A command that fits is dispatched first of all, as its words, unless its first word is
      `exit`: then the session is over and nothing at all is dispatched. */
  lemma FirstCommand(size: nat, blank: string, ws: seq<string>, gaps: seq<string>, rest: string,
                     lines: seq<string>, k: nat, gone: Outcomes)
    requires |gaps| == |ws| && IsBlank(blank) && ws != []
    requires forall i :: 0 <= i < |ws| ==> IsWord(ws[i]) && IsBlank(gaps[i]) && (i + 1 < |ws| ==> gaps[i] != [])
    requires IsCommandText(blank + Join(ws, gaps)) && Fits(size, blank + Join(ws, gaps))
    ensures var all := RunLines(size, [], [blank + Join(ws, gaps) + ([';'] + rest)] + lines, k, gone);
            if ws[0] == "exit" then all == []
            else if gone(k, ws) then all == [ws]
            else all != [] && all[0] == ws
  {
    var text := blank + Join(ws, gaps) + ([';'] + rest);
    TokenRoundTrip(size, blank, ws, gaps, rest);
    var all := [text] + lines;
    assert all[0] == text && all[1..] == lines;
    var fed := Feed(size, [], text);
    assert fed.Ready? && ReadBack(fed.content) == ws;
    if ws[0] != "exit" {
      assert RunLine(size, [], text, k, gone).dispatched[0] == ws;
    }
  }
}
