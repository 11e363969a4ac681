/** What a stream of command lines means: commands end at ';', words are separated by white
    space, and a line break is white space. */
module Tokens {
  const NUL: char := '\0'

  predicate IsSpace(c: char) { c == ' ' || c == '\t' || c == '\r' || c == '\n' }

  /** The length of the word s starts with. */
  function WordLength(s: string): (n: nat)
    ensures n <= |s|
  {
    if s == [] || IsSpace(s[0]) then 0 else 1 + WordLength(s[1..])
  }

  function WordsOf(s: string): seq<string>
    decreases |s|
  {
    if s == [] then []
    else if IsSpace(s[0]) then WordsOf(s[1..])
    else [s[..WordLength(s)]] + WordsOf(s[WordLength(s)..])
  }

  /** s ends in the middle of a word. */
  predicate Open(s: string) { s != [] && !IsSpace(s[|s| - 1]) }

  lemma {:induction false} WordLengthSnoc(s: string, c: char)
    requires s != []
    ensures WordLength(s + [c]) == if WordLength(s) == |s| && !IsSpace(c) then |s| + 1 else WordLength(s)
  {
    assert (s + [c])[1..] == s[1..] + [c];
    if !IsSpace(s[0]) {
      if |s| == 1 {
        assert s[1..] + [c] == [c] && [c][1..] == [];
      } else {
        WordLengthSnoc(s[1..], c);
      }
    }
  }

  /** How one more character changes the words. */
  lemma {:induction false} WordsSnoc(s: string, c: char)
    ensures IsSpace(c) ==> WordsOf(s + [c]) == WordsOf(s)
    ensures !IsSpace(c) && !Open(s) ==> WordsOf(s + [c]) == WordsOf(s) + [[c]]
    ensures !IsSpace(c) && Open(s) ==>
      var ws := WordsOf(s); ws != [] && WordsOf(s + [c]) == ws[..|ws| - 1] + [ws[|ws| - 1] + [c]]
    decreases |s|
  {
    if s == [] {
      OneCharacter(c);
    } else if IsSpace(s[0]) {
      assert (s + [c])[1..] == s[1..] + [c];
      WordsSnoc(s[1..], c);
    } else {
      var n := WordLength(s);
      WordLengthSnoc(s, c);
      if n == |s| {
        AllWord(s);
        LastWordSnoc(s, c);
      } else {
        WordsSnoc(s[n..], c);
        WordThenSnoc(s, n, c);
      }
    }
  }

  /** ... after a first word that is over. */
  lemma WordThenSnoc(s: string, n: nat, c: char)
    requires 0 < n < |s| && WordLength(s) == n && WordLength(s + [c]) == n && !IsSpace(s[0])
    ensures WordsOf(s + [c]) == [s[..n]] + WordsOf(s[n..] + [c]) && WordsOf(s) == [s[..n]] + WordsOf(s[n..])
    ensures var w, ws := s[..n], WordsOf(s[n..]);
            ws != [] ==> ([w] + ws)[..|ws|] == [w] + ws[..|ws| - 1] && ([w] + ws)[|ws|] == ws[|ws| - 1]
    ensures Open(s) <==> Open(s[n..])
  {
    assert (s + [c])[..n] == s[..n] && (s + [c])[n..] == s[n..] + [c];
  }

  lemma {:induction false} AllWord(s: string)
    requires s != [] && WordLength(s) == |s|
    ensures Open(s)
  {
    if |s| > 1 { AllWord(s[1..]); }
  }

  lemma OneCharacter(c: char)
    ensures WordsOf([c]) == if IsSpace(c) then [] else [[c]]
    ensures [] + [c] == [c]
  {
    assert [c][1..] == [];
    if !IsSpace(c) { assert WordLength([c]) == 1 && [c][..1] == [c]; }
  }

  lemma LastWordSnoc(s: string, c: char)
    requires s != [] && WordLength(s) == |s|
    ensures WordsOf(s) == [s]
    ensures WordsOf(s + [c]) == if IsSpace(c) then [s] else [s + [c]]
  {
    var t, n := s + [c], |s|;
    WordLengthSnoc(s, c);
    assert s[..n] == s && s[n..] == [];
    if IsSpace(c) {
      assert t[..n] == s && t[n..] == [c];
      OneCharacter(c);
    } else {
      assert t[..n + 1] == t && t[n + 1..] == [];
    }
  }

  // ---------- round trip of words ----------

  predicate IsBlank(s: string) { forall c | c in s :: IsSpace(c) }
  predicate IsWord(s: string) { s != [] && forall c | c in s :: !IsSpace(c) }

  /** Words, each followed by its own run of white space. */
  function Join(ws: seq<string>, gaps: seq<string>): string
    requires |gaps| == |ws|
  {
    if ws == [] then [] else ws[0] + gaps[0] + Join(ws[1..], gaps[1..])
  }

  lemma {:induction false} BlankPrefix(b: string, s: string)
    requires IsBlank(b)
    ensures WordsOf(b + s) == WordsOf(s)
    decreases |b|
  {
    if b == [] {
      assert b + s == s;
    } else {
      assert (b + s)[0] == b[0] && (b + s)[1..] == b[1..] + s;
      BlankPrefix(b[1..], s);
    }
  }

  lemma {:induction false} WordPrefix(w: string, s: string)
    requires forall c | c in w :: !IsSpace(c)
    requires s == [] || IsSpace(s[0])
    ensures WordLength(w + s) == |w|
  {
    if w == [] {
      assert w + s == s;
    } else {
      assert (w + s)[1..] == w[1..] + s;
      WordPrefix(w[1..], s);
    }
  }

  /** Joined by any runs of white space, with any before the first word and none needed after
      the last, words come back unchanged. */
  lemma {:induction false} WordsRoundTrip(blank: string, ws: seq<string>, gaps: seq<string>)
    requires |gaps| == |ws| && IsBlank(blank)
    requires forall i :: 0 <= i < |ws| ==> IsWord(ws[i]) && IsBlank(gaps[i]) && (i + 1 < |ws| ==> gaps[i] != [])
    ensures WordsOf(blank + Join(ws, gaps)) == ws
    decreases |ws|
  {
    BlankPrefix(blank, Join(ws, gaps));
    if ws != [] {
      var w, gap, more := ws[0], gaps[0], Join(ws[1..], gaps[1..]);
      WordsRoundTrip(gap, ws[1..], gaps[1..]);
      assert Join(ws, gaps) == w + (gap + more);
      assert ws[1..] == [] ==> gap + more == gap;
      WordPrefix(w, gap + more);
      assert (w + (gap + more))[..|w|] == w && (w + (gap + more))[|w|..] == gap + more;
    }
  }

  // ---------- the stream ----------

  datatype Split = Split(commands: seq<string>, tail: string)

  /** Cut at every ';'. The tail is a command still being typed. */
  function SplitCommands(s: string): (r: Split)
    decreases |s|
  {
    if s == [] then Split([], [])
    else
      var r := SplitCommands(s[1..]);
      if s[0] == ';' then Split([[]] + r.commands, r.tail)
      else if r.commands == [] then Split([], [s[0]] + r.tail)
      else Split([[s[0]] + r.commands[0]] + r.commands[1..], r.tail)
  }

  function Rejoin(commands: seq<string>, tail: string): string {
    if commands == [] then tail else commands[0] + [';'] + Rejoin(commands[1..], tail)
  }

  /** Nothing is lost in cutting, and nothing left to cut. */
  lemma {:induction false} SplitRejoins(s: string)
    ensures var r := SplitCommands(s);
            Rejoin(r.commands, r.tail) == s && ';' !in r.tail && forall c | c in r.commands :: ';' !in c
  {
    if s != [] {
      var rest, r := SplitCommands(s[1..]), SplitCommands(s);
      SplitRejoins(s[1..]);
      assert s == [s[0]] + s[1..];
      if s[0] == ';' {
        assert r.commands[1..] == rest.commands;
      } else if rest.commands != [] {
        assert r.commands[1..] == rest.commands[1..] && rest.commands[0] in rest.commands;
        assert [s[0]] + rest.commands[0] + [';'] + Rejoin(rest.commands[1..], rest.tail) ==
               [s[0]] + (rest.commands[0] + [';'] + Rejoin(rest.commands[1..], rest.tail));
      }
    }
  }

  /** Lines as one text, each closed by a line break. */
  function Stream(lines: seq<string>): string {
    if lines == [] then [] else lines[0] + ['\n'] + Stream(lines[1..])
  }

  /** Lines as the strings they are in memory, one after the other. */
  function Joined(lines: seq<string>): string {
    if lines == [] then [] else lines[0] + [NUL] + Joined(lines[1..])
  }

  /** The same text with a line break for every NUL. */
  function Broken(s: string): (r: string)
    ensures |r| == |s| && forall i :: 0 <= i < |s| ==> r[i] == if s[i] == NUL then '\n' else s[i]
  {
    seq(|s|, i requires 0 <= i < |s| => if s[i] == NUL then '\n' else s[i])
  }

  function CommandWords(commands: seq<string>): seq<seq<string>> {
    if commands == [] then [] else [WordsOf(commands[0])] + CommandWords(commands[1..])
  }

  /** A prefix without ';' belongs to the first command, or to the tail if there is none. */
  lemma {:induction false} SplitPrefix(x: string, s: string)
    requires ';' !in x
    ensures var r := SplitCommands(s);
            SplitCommands(x + s) ==
            if r.commands == [] then Split([], x + r.tail) else Split([x + r.commands[0]] + r.commands[1..], r.tail)
    decreases |x|
  {
    var r := SplitCommands(s);
    if x == [] {
      assert x + s == s && x + r.tail == r.tail;
      if r.commands != [] { assert x + r.commands[0] == r.commands[0]; }
    } else {
      assert (x + s)[0] == x[0] && (x + s)[1..] == x[1..] + s;
      SplitPrefix(x[1..], s);
      if r.commands == [] {
        assert [x[0]] + (x[1..] + r.tail) == x + r.tail;
      } else {
        assert [x[0]] + (x[1..] + r.commands[0]) == x + r.commands[0];
      }
    }
  }

  lemma SplitAtSemicolon(x: string, s: string)
    requires ';' !in x
    ensures var r := SplitCommands(s);
            SplitCommands(x + ([';'] + s)) == Split([x] + r.commands, r.tail)
  {
    var t := [';'] + s;
    assert t[0] == ';' && t[1..] == s;
    var r := SplitCommands(s);
    SplitPrefix(x, t);
    assert ([[]] + r.commands)[1..] == r.commands && x + [] == x;
  }

  // ---------- the buffer's picture of a command ----------

  /** Words as they stand in the command buffer, each closed by a NUL. */
  function Render(ws: seq<string>): string {
    if ws == [] then [] else ws[0] + [NUL] + Render(ws[1..])
  }

  /** The buffer after the text x of one command: the last word is closed only once white
      space has been seen. */
  function Image(x: string): string { Picture(WordsOf(x), Open(x)) }

  function Picture(ws: seq<string>, open: bool): string {
    var r := Render(ws);
    if open && r != [] then r[..|r| - 1] else r
  }

  lemma {:induction false} RenderAppend(a: seq<string>, b: seq<string>)
    ensures Render(a + b) == Render(a) + Render(b)
  {
    if a == [] {
      assert a + b == b;
    } else {
      assert (a + b)[1..] == a[1..] + b;
      RenderAppend(a[1..], b);
    }
  }

  lemma RenderOne(w: string)
    ensures Render([w]) == w + [NUL]
  {
  }

  /** One character into the buffer: a word character is appended, white space closes an open
      word and is otherwise dropped. */
  lemma ImageSnoc(x: string, c: char)
    ensures Image(x + [c]) ==
            if !IsSpace(c) then Image(x) + [c] else if Open(x) then Image(x) + [NUL] else Image(x)
  {
    WordsSnoc(x, c);
    var ws := WordsOf(x);
    if Open(x) {
      OpenHasWord(x);
      LastRendered(ws[..|ws| - 1], ws[|ws| - 1]);
      LastRendered(ws[..|ws| - 1], ws[|ws| - 1] + [c]);
      assert ws == ws[..|ws| - 1] + [ws[|ws| - 1]];
    } else {
      LastRendered(ws, [c]);
    }
  }

  lemma OpenHasWord(x: string)
    requires Open(x)
    ensures WordsOf(x) != []
  {
  }

  lemma LastRendered(init: seq<string>, last: string)
    ensures var r := Render(init + [last]);
            r == Render(init) + last + [NUL] && r != [] && r[..|r| - 1] == Render(init) + last
  {
    RenderAppend(init, [last]);
    RenderOne(last);
  }

  /** Whether the buffer ends in a NUL, or is empty, shows whether a word is open. */
  lemma ImageOpen(x: string)
    requires NUL !in x
    ensures Open(x) <==> Image(x) != [] && Image(x)[|Image(x)| - 1] != NUL
  {
    if x != [] {
      var y, c := x[..|x| - 1], x[|x| - 1];
      assert x == y + [c];
      ImageSnoc(y, c);
      if IsSpace(c) {
        if !Open(y) { ImageClosed(y); }
      }
    }
  }

  lemma {:induction false} ImageClosed(y: string)
    requires !Open(y)
    ensures Image(y) == [] || Image(y)[|Image(y)| - 1] == NUL
  {
    var ws := WordsOf(y);
    if ws != [] {
      assert ws == ws[..|ws| - 1] + [ws[|ws| - 1]];
      RenderAppend(ws[..|ws| - 1], [ws[|ws| - 1]]);
      RenderOne(ws[|ws| - 1]);
    }
  }

  lemma {:induction false} ImageGrows(x: string, y: string)
    ensures |Image(x)| <= |Image(x + y)|
    decreases |y|
  {
    if y == [] {
      assert x + y == x;
    } else {
      var z, c := y[..|y| - 1], y[|y| - 1];
      ImageGrows(x, z);
      assert x + y == (x + z) + [c];
      ImageSnoc(x + z, c);
    }
  }

  // ---------- reading words back ----------

  function NulIndex(s: string): (n: nat)
    ensures n <= |s|
  {
    if s == [] || s[0] == NUL then 0 else 1 + NulIndex(s[1..])
  }

  /** What repeated next_token calls return from buffer contents s before NULL. */
  function ReadBack(s: string): seq<string>
    decreases |s|
  {
    var n := NulIndex(s);
    if n == 0 then [] else [s[..n]] + ReadBack(if n < |s| then s[n + 1..] else [])
  }

  lemma {:induction false} NulAfter(w: string, s: string)
    requires NUL !in w
    ensures NulIndex(w + [NUL] + s) == |w|
  {
    var t := w + [NUL] + s;
    if w != [] {
      assert t[1..] == w[1..] + [NUL] + s;
      NulAfter(w[1..], s);
    }
  }

  lemma {:induction false} NulNone(w: string)
    requires NUL !in w
    ensures NulIndex(w) == |w|
  {
    if w != [] { NulNone(w[1..]); }
  }

  lemma ReadStep(w: string, s: string)
    requires w != [] && NUL !in w
    ensures ReadBack(w + [NUL] + s) == [w] + ReadBack(s)
  {
    NulAfter(w, s);
    var t := w + [NUL] + s;
    assert t[..|w|] == w && t[|w| + 1..] == s;
  }

  lemma ReadLast(w: string)
    requires w != [] && NUL !in w
    ensures ReadBack(w) == [w]
  {
    NulNone(w);
    assert w[..|w|] == w;
  }

  predicate Clean(ws: seq<string>) {
    ws == [] || (ws[0] != [] && NUL !in ws[0] && Clean(ws[1..]))
  }

  /** Reading rendered words gives the words and goes on with what follows. */
  lemma {:induction false} ReadRendered(ws: seq<string>, s: string)
    requires Clean(ws)
    ensures ReadBack(Render(ws) + s) == ws + ReadBack(s)
    decreases |ws|
  {
    if ws == [] {
      assert Render(ws) + s == s;
    } else {
      var w, more := ws[0], ws[1..];
      ReadRendered(more, s);
      ReadStep(w, Render(more) + s);
      Regroup(w + [NUL], Render(more), s);
      Regroup([w], more, ReadBack(s));
      assert [w] + more == ws;
    }
  }

  lemma Regroup<T>(a: seq<T>, b: seq<T>, c: seq<T>)
    ensures (a + b) + c == a + (b + c)
  {
  }

  /** The buffer's picture of a command reads back as the command's words, however it was closed. */
  lemma ImageReadsBack(x: string)
    requires NUL !in x
    ensures ReadBack(Image(x) + [NUL]) == WordsOf(x)
    ensures ReadBack(Image(x)) == WordsOf(x)
  {
    CleanWords(x);
    PictureReadsBack(WordsOf(x), Open(x));
  }

  lemma PictureReadsBack(ws: seq<string>, open: bool)
    requires Clean(ws)
    ensures ReadBack(Picture(ws, open)) == ws && ReadBack(Picture(ws, open) + [NUL]) == ws
  {
    var p := Picture(ws, open);
    assert p + [] == p && ws + [] == ws;
    if open && ws != [] {
      ReadUnclosed(ws, []);
      ReadUnclosed(ws, [NUL]);
    } else {
      ReadRendered(ws, []);
      ReadRendered(ws, [NUL]);
    }
  }

  lemma DropLast(a: string, b: string)
    requires b != []
    ensures (a + b)[..|a + b| - 1] == a + b[..|b| - 1]
  {
  }

  lemma ReadLastUnclosed(w: string, s: string)
    requires w != [] && NUL !in w && (s == [] || s == [NUL])
    ensures var r := Render([w]); r != [] && ReadBack(r[..|r| - 1] + s) == [w]
  {
    RenderOne(w);
    assert (w + [NUL])[..|w|] == w;
    if s == [] {
      assert w + s == w;
      ReadLast(w);
    } else {
      ReadStep(w, []);
      assert w + [NUL] + [] == w + [NUL];
    }
  }

  /** The last NUL may be missing: then the word ends where the contents end. */
  lemma {:induction false} ReadUnclosed(ws: seq<string>, s: string)
    requires Clean(ws) && ws != [] && (s == [] || s == [NUL])
    ensures var r := Render(ws); r != [] && ReadBack(r[..|r| - 1] + s) == ws
    decreases |ws|
  {
    var w, more := ws[0], ws[1..];
    if more == [] {
      assert ws == [w];
      ReadLastUnclosed(w, s);
    } else {
      ReadUnclosed(more, s);
      ReadOneMore(w, Render(more), s);
      assert [w] + more == ws;
    }
  }

  lemma ReadOneMore(w: string, r: string, s: string)
    requires w != [] && NUL !in w && r != []
    ensures var t := w + [NUL] + r; ReadBack(t[..|t| - 1] + s) == [w] + ReadBack(r[..|r| - 1] + s)
  {
    DropLast(w + [NUL], r);
    Regroup(w + [NUL], r[..|r| - 1], s);
    ReadStep(w, r[..|r| - 1] + s);
  }

  lemma {:induction false} CleanWords(x: string)
    requires NUL !in x
    ensures Clean(WordsOf(x))
    decreases |x|
  {
    if x != [] {
      if IsSpace(x[0]) {
        CleanWords(x[1..]);
      } else {
        CleanWords(x[WordLength(x)..]);
        var ws := WordsOf(x);
        assert ws[0] == x[..WordLength(x)] && ws[1..] == WordsOf(x[WordLength(x)..]);
      }
    }
  }
}
