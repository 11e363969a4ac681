/** debugger/cmdline.c and the read loop of run_debugger: a command buffer with read and
    write cursors, filled from lines and read back token by token. */
module Cmdline {
  import opened Wrappers
  import opened Tokens

  // ---------- the functions the methods implement ----------

  /** What parse_input leaves, from buffer contents and the unread part of the line. */
  datatype Fed = NeedMore(content: string) | Ready(content: string, rest: string) | Full(rest: string)

  predicate IsOpen(content: string) { content != [] && content[|content| - 1] != NUL }

  /** A write whose failure the code ignores. */
  function WriteNul(size: nat, content: string): string {
    if |content| < size then content + [NUL] else content
  }

  function Feed(size: nat, content: string, text: string): (f: Fed)
    ensures !f.NeedMore? ==> |f.rest| < |text|
    decreases |text|
  {
    if text == [] then NeedMore(if IsOpen(content) then WriteNul(size, content) else content)
    else
      var c, rest := text[0], text[1..];
      if c == ';' then Ready(WriteNul(size, content), rest)
      else if IsSpace(c) && !IsOpen(content) then Feed(size, content, rest)
      else if |content| >= size then Full(rest)
      else Feed(size, content + [if IsSpace(c) then NUL else c], rest)
  }

  /** Whether the debugee is gone after the k-th dispatched command. */
  type Outcomes = (nat, seq<string>) -> bool

  predicate IsExit(words: seq<string>) { words != [] && words[0] == "exit" }

  datatype LineRun = LineRun(dispatched: seq<seq<string>>, content: string, over: bool)

  /** A run that comes after some dispatches. */
  function After(dispatched: seq<seq<string>>, r: LineRun): LineRun {
    LineRun(dispatched + r.dispatched, r.content, r.over)
  }

  function FedSize(fed: Fed): nat { if fed.NeedMore? then 0 else |fed.rest| + 1 }

  /** The inner loop of run_debugger after one parse: the words of each command it dispatches. */
  function RunFed(size: nat, fed: Fed, k: nat, gone: Outcomes): LineRun
    decreases FedSize(fed)
  {
    match fed
    case NeedMore(c) => LineRun([], c, false)
    case Full(rest) => RunFed(size, Feed(size, [], rest), k, gone)
    case Ready(c, rest) =>
      var words := ReadBack(c);
      if IsExit(words) then LineRun([], c, true)
      else if gone(k, words) then LineRun([words], c, true)
      else After([words], RunFed(size, Feed(size, [], rest), k + 1, gone))
  }

  function RunLine(size: nat, content: string, text: string, k: nat, gone: Outcomes): LineRun {
    RunFed(size, Feed(size, content, text), k, gone)
  }

  function RunLines(size: nat, content: string, lines: seq<string>, k: nat, gone: Outcomes): seq<seq<string>>
    decreases |lines|
  {
    if lines == [] then []
    else
      var r := RunLine(size, content, lines[0], k, gone);
      if r.over then r.dispatched
      else r.dispatched + RunLines(size, r.content, lines[1..], k + |r.dispatched|, gone)
  }

  // ---------- the buffer ----------

  class Buffer {
    var data: array<char>
    const size: nat
    var rseek: nat
    var wseek: nat

    ghost var contents: string  // what has been written since the last reset
    ghost var unread: string    // a line's characters from the read cursor up to its NUL

    /** A sized buffer keeps a NUL behind its last character; a line (size 0) ends in one. */
    ghost predicate Valid()
      reads this, data
    {
      && wseek <= size < data.Length && data[data.Length - 1] == NUL && rseek < data.Length
      && contents == data[..wseek]
      && if size > 0 then data.Length == size + 1 else IsUnread()
    }

    ghost predicate IsUnread()
      reads this, data
    {
      var end := rseek + |unread|;
      end < data.Length && unread == data[rseek..end] && data[end] == NUL && NUL !in unread
    }

    constructor (size: nat)
      ensures Valid() && fresh(data) && this.size == size && rseek == 0 && contents == [] && unread == []
    {
      this.size := size;
      data := new char[size + 1];  // malloc: any bytes
      rseek, wseek := 0, 0;
      contents, unread := [], [];
      new;
      data[size] := NUL;
    }

    /** poll_input: linenoise hands over a fresh line. */
    method Poll(text: string)
      requires Valid() && size == 0 && NUL !in text
      modifies this`data, this`rseek, this`unread
      ensures Valid() && fresh(data) && unread == text && rseek == 0
    {
      data := new char[|text| + 1](i requires 0 <= i <= |text| => if i < |text| then text[i] else NUL);
      rseek := 0;
      unread := text;
      assert data[0..|text|] == text;
    }

    method PeekBack() returns (c: char)
      requires Valid()
      ensures c == if contents == [] then NUL else contents[|contents| - 1]
    {
      if size == 0 || wseek == 0 { return NUL; }
      return data[wseek - 1];
    }

    method Read() returns (c: char)
      requires Valid()
      modifies this`rseek, this`unread
      ensures Valid()
      ensures size == 0 ==> TookOne(old(unread), c, unread) && (c == NUL ==> unread == [])
      ensures size > 0 ==> c == data[old(rseek)] && rseek == if old(rseek) < size then old(rseek) + 1 else old(rseek)
    {
      if size == 0 {
        if data[rseek] != NUL {
          assert unread != [] && data[rseek..rseek + |unread|][1..] == data[rseek + 1..rseek + |unread|];
          c := data[rseek];
          rseek := rseek + 1;
          unread := unread[1..];
          return;
        }
        return NUL;
      }
      if rseek < size {
        c := data[rseek];
        rseek := rseek + 1;
        return;
      }
      return NUL;
    }

    method Write(c: char) returns (failed: bool)
      requires Valid() && size > 0
      modifies this`wseek, this`contents, data
      ensures Valid() && failed == (|old(contents)| >= size)
      ensures contents == if failed then old(contents) else old(contents) + [c]
    {
      if wseek >= size { return true; }
      data[wseek] := c;
      wseek := wseek + 1;
      contents := contents + [c];
      return false;
    }

    method ResetSeek()
      requires Valid() && size > 0
      modifies this`rseek, this`wseek, this`contents
      ensures Valid() && rseek == 0 && contents == []
    {
      rseek, wseek := 0, 0;
      contents := [];
    }

    // ---------- reading tokens ----------

    /** A command is complete: its contents end in a NUL or fill the buffer. */
    ghost predicate Complete()
      reads this
    {
      size > 0 && rseek <= |contents| <= size
      && (|contents| == size || contents == [] || contents[|contents| - 1] == NUL)
    }

    /** next_token: the next word of what was written, whatever stale bytes lie beyond it. */
    method NextToken() returns (token: Option<string>, ghost rest: seq<string>)
      requires Valid() && Complete()
      modifies this`rseek, this`unread
      ensures Valid() && Complete() && contents == old(contents) && rest == ReadBack(contents[rseek..])
      ensures token.None? ==> ReadBack(contents[old(rseek)..]) == [] == rest && rseek == old(rseek)
      ensures token.Some? ==> ReadBack(contents[old(rseek)..]) == [token.value] + rest
    {
      if data[rseek] == NUL {
        assert contents[rseek..] == [] || contents[rseek..][0] == NUL;
        return None, [];
      }
      if rseek >= wseek { return None, []; }
      var start := rseek;
      var c := Read();
      while c != NUL
        invariant Valid() && start < rseek <= size && contents == old(contents)
        invariant c != NUL ==> forall i :: start <= i < rseek ==> data[i] != NUL
        invariant c == NUL ==> Stopped(start)
        decreases size - rseek, c != NUL
      {
        c := Read();
      }
      var end := if data[rseek - 1] == NUL then rseek - 1 else rseek;
      token := Some(data[start..end]);
      assert |contents| == wseek > 0 && contents[wseek - 1] == data[wseek - 1];
      assert wseek < size ==> data[wseek - 1] == NUL;
      assert end <= wseek;
      assert forall i :: start <= i < end ==> data[i] == contents[i];
      assert data[start..end] == contents[start..end];
      FirstToken(contents, start, end, rseek);
      rest := ReadBack(contents[rseek..]);
    }

    /** The cursor stands behind the first NUL from `start`, or at the end with none before it. */
    ghost predicate Stopped(start: nat)
      requires Valid()
      reads this, data
    {
      && start < rseek <= size
      && (forall i :: start <= i < rseek - 1 ==> data[i] != NUL)
      && (data[rseek - 1] != NUL ==> rseek == size)
    }
  }

  lemma FirstToken(s: string, start: nat, end: nat, next: nat)
    requires start < end <= |s| && forall i :: start <= i < end ==> s[i] != NUL
    requires if end < |s| then s[end] == NUL && next == end + 1 else next == end
    ensures ReadBack(s[start..]) == [s[start..end]] + ReadBack(s[next..])
  {
    var t, n := s[start..], end - start;
    FirstNul(t, n);
    assert t[..n] == s[start..end];
    if end < |s| { assert t[n + 1..] == s[end + 1..]; } else { assert s[next..] == []; }
  }

  lemma {:induction false} FirstNul(s: string, n: nat)
    requires n <= |s| && (n < |s| ==> s[n] == NUL) && forall i :: 0 <= i < n ==> s[i] != NUL
    ensures NulIndex(s) == n
  {
    if n > 0 { FirstNul(s[1..], n - 1); }
  }

  // ---------- parse_input ----------

  /** One character of a command, other than ';'. */
  method Accept(buffer: Buffer, c: char) returns (failed: bool)
    requires buffer.Valid() && buffer.size > 0
    modifies buffer`wseek, buffer`contents, buffer.data
    ensures buffer.Valid()
    ensures var content, skipped := old(buffer.contents), IsSpace(c) && !IsOpen(old(buffer.contents));
            && failed == (!skipped && |content| >= buffer.size)
            && (!failed ==> buffer.contents == if skipped then content else content + [if IsSpace(c) then NUL else c])
  {
    if !IsSpace(c) {
      failed := buffer.Write(c);
    } else {
      var back := buffer.PeekBack();
      failed := false;
      if back != NUL { failed := buffer.Write(NUL); }
    }
  }

  /** The end of a line closes an open word; that this can fail is ignored. */
  method CloseWord(buffer: Buffer)
    requires buffer.Valid() && buffer.size > 0
    modifies buffer`wseek, buffer`contents, buffer.data
    ensures buffer.Valid()
    ensures buffer.contents ==
              if IsOpen(old(buffer.contents)) then WriteNul(buffer.size, old(buffer.contents))
              else old(buffer.contents)
  {
    var back := buffer.PeekBack();
    if back != NUL { var failed := buffer.Write(NUL); }
  }

  /** The result code, the buffer and what is left of the line are those of `fed`. */
  ghost predicate Parsed(buffer: Buffer, line: Buffer, fed: Fed, res: int)
    reads buffer, line
  {
    match fed
    case NeedMore(c) => res == 0 && buffer.contents == c
    case Ready(c, rest) => res == 1 && buffer.contents == c && line.unread == rest
    case Full(rest) => res == -1 && line.unread == rest
  }

  /** `fed` is what parsing `text` on top of `content` comes to. */
  ghost predicate Feeds(fed: Fed, size: nat, content: string, text: string) {
    fed == Feed(size, content, text)
  }

  /** A read from a line: its next character and what is left, or NUL at the end. */
  ghost predicate TookOne(before: string, c: char, after: string) {
    if c == NUL then before == [] else before == [c] + after
  }

  /** One character more of a command: how the parse goes on. */
  lemma FeedOn(fed: Fed, size: nat, content: string, c: char, rest: string)
    requires Feeds(fed, size, content, [c] + rest)
    ensures var skipped := IsSpace(c) && !IsOpen(content);
            && (c == ';' ==> fed == Ready(WriteNul(size, content), rest))
            && (c != ';' && skipped ==> Feeds(fed, size, content, rest))
            && (c != ';' && !skipped && |content| >= size ==> fed == Full(rest))
            && (c != ';' && !skipped && |content| < size ==>
                  Feeds(fed, size, content + [if IsSpace(c) then NUL else c], rest))
  {
  }

  lemma FeedEnd(fed: Fed, size: nat, content: string)
    requires Feeds(fed, size, content, [])
    ensures fed == NeedMore(if IsOpen(content) then WriteNul(size, content) else content)
  {
  }

  /** One character of a line: the command ends, goes on, or does not fit. */
  method Take(buffer: Buffer, c: char, ghost fed: Fed, ghost rest: string) returns (res: int)
    requires buffer.Valid() && buffer.size > 0 && Feeds(fed, buffer.size, buffer.contents, [c] + rest)
    modifies buffer`wseek, buffer`contents, buffer.data
    ensures buffer.Valid() && (res == 1 || res == 0 || res == -1)
    ensures res == 1 ==> fed == Ready(buffer.contents, rest)
    ensures res == 0 ==> Feeds(fed, buffer.size, buffer.contents, rest)
    ensures res == -1 ==> fed == Full(rest)
  {
    FeedOn(fed, buffer.size, buffer.contents, c, rest);
    var failed;
    if c == ';' {
      failed := buffer.Write(NUL);
      return 1;
    }
    failed := Accept(buffer, c);
    return if failed then -1 else 0;
  }

  /** 1 when a command is complete, 0 when more input is needed, -1 when the buffer is full. */
  method ParseInput(buffer: Buffer, line: Buffer) returns (res: int)
    requires buffer.Valid() && line.Valid() && buffer.size > 0 && line.size == 0
    requires buffer != line && buffer.data != line.data
    modifies buffer`wseek, buffer`contents, buffer.data, line`rseek, line`unread
    ensures buffer.Valid() && line.Valid()
    ensures Parsed(buffer, line, Feed(buffer.size, old(buffer.contents), old(line.unread)), res)
    ensures res == 1 && buffer.rseek == 0 ==> buffer.Complete()
  {
    FeedComplete(buffer.size, buffer.contents, line.unread);
    ghost var fed := Feed(buffer.size, buffer.contents, line.unread);
    ghost var unread := line.unread;
    var next := line.Read();
    while next != NUL
      invariant buffer.Valid() && line.Valid()
      invariant Feeds(fed, buffer.size, buffer.contents, unread)
      invariant TookOne(unread, next, line.unread)
      decreases |unread|
    {
      res := Take(buffer, next, fed, line.unread);
      if res != 0 { return; }
      unread := line.unread;
      next := line.Read();
    }
    FeedEnd(fed, buffer.size, buffer.contents);
    CloseWord(buffer);
    return 0;
  }

  // ---------- run_debugger ----------

  /** match_command and handle_command take their words from the buffer one by one. */
  method ReadCommand(buffer: Buffer) returns (words: seq<string>)
    requires buffer.Valid() && buffer.Complete() && buffer.rseek == 0
    modifies buffer`rseek, buffer`unread
    ensures buffer.Valid() && buffer.contents == old(buffer.contents) && words == ReadBack(buffer.contents)
  {
    words := [];
    ghost var all, rest := ReadBack(buffer.contents), [];
    var token;
    assert buffer.contents[0..] == buffer.contents;
    token, rest := buffer.NextToken();
    while token.Some?
      invariant buffer.Valid() && buffer.Complete() && buffer.contents == old(buffer.contents)
      invariant all == words + (if token.Some? then [token.value] + rest else [])
      invariant rest == ReadBack(buffer.contents[buffer.rseek..])
      decreases |all| - |words|, token.Some?
    {
      words := words + [token.value];
      token, rest := buffer.NextToken();
    }
  }

  /** The inner loop over one line. */
  method ProcessLine(buffer: Buffer, line: Buffer, k: nat, gone: Outcomes)
    returns (dispatched: seq<seq<string>>, over: bool)
    requires buffer.Valid() && line.Valid() && buffer.size > 0 && line.size == 0 && buffer.rseek == 0
    requires buffer != line && buffer.data != line.data
    modifies buffer`rseek, buffer`wseek, buffer`contents, buffer`unread, buffer.data, line`rseek, line`unread
    ensures buffer.Valid() && line.Valid() && (!over ==> buffer.rseek == 0)
    ensures LineRun(dispatched, buffer.contents, over)
         == RunLine(buffer.size, old(buffer.contents), old(line.unread), k, gone)
  {
    dispatched, over := [], false;
    ghost var size, fed := buffer.size, Feed(buffer.size, buffer.contents, line.unread);
    ghost var all := RunFed(size, fed, k, gone);
    var res := ParseInput(buffer, line);
    while res != 0
      invariant buffer.Valid() && line.Valid() && buffer.rseek == 0 && !over
      invariant res == 1 ==> buffer.Complete()
      invariant Tracks(all, dispatched, size, fed, k, gone)
      invariant Parsed(buffer, line, fed, res)
      decreases FedSize(fed)
    {
      TracksOn(all, dispatched, size, fed, k, gone);
      if res < 0 {
        buffer.ResetSeek();
      } else {
        var words := ReadCommand(buffer);
        if IsExit(words) { over := true; return; }
        over := gone(k + |dispatched|, words);
        dispatched := dispatched + [words];
        if over { return; }
        buffer.ResetSeek();
      }
      fed := Feed(size, [], fed.rest);
      res := ParseInput(buffer, line);
    }
    TracksOn(all, dispatched, size, fed, k, gone);
  }

  /** `all` is what has been dispatched followed by the run still to come. */
  ghost predicate Tracks(all: LineRun, dispatched: seq<seq<string>>, size: nat, fed: Fed, k: nat, gone: Outcomes) {
    all == After(dispatched, RunFed(size, fed, k + |dispatched|, gone))
  }

  lemma TracksOn(all: LineRun, dispatched: seq<seq<string>>, size: nat, fed: Fed, k: nat, gone: Outcomes)
    requires Tracks(all, dispatched, size, fed, k, gone)
    ensures fed.NeedMore? ==> all == LineRun(dispatched, fed.content, false)
    ensures fed.Full? ==> Tracks(all, dispatched, size, Feed(size, [], fed.rest), k, gone)
    ensures fed.Ready? && IsExit(ReadBack(fed.content)) ==> all == LineRun(dispatched, fed.content, true)
    ensures fed.Ready? && !IsExit(ReadBack(fed.content)) && gone(k + |dispatched|, ReadBack(fed.content)) ==>
      all == LineRun(dispatched + [ReadBack(fed.content)], fed.content, true)
    ensures fed.Ready? && !IsExit(ReadBack(fed.content)) && !gone(k + |dispatched|, ReadBack(fed.content)) ==>
      Tracks(all, dispatched + [ReadBack(fed.content)], size, Feed(size, [], fed.rest), k, gone)
  {
  }

  /** Contents that are dispatched end in a NUL or fill the buffer. */
  predicate EndsComplete(size: nat, fed: Fed) {
    fed.Ready? ==>
      |fed.content| <= size && (|fed.content| == size || (fed.content != [] && fed.content[|fed.content| - 1] == NUL))
  }

  lemma {:induction false} FeedComplete(size: nat, content: string, text: string)
    requires |content| <= size
    ensures EndsComplete(size, Feed(size, content, text))
    decreases |text|
  {
    if text != [] && text[0] != ';' {
      var c, rest := text[0], text[1..];
      if IsSpace(c) && !IsOpen(content) {
        FeedComplete(size, content, rest);
      } else if |content| < size {
        FeedComplete(size, content + [if IsSpace(c) then NUL else c], rest);
      }
    }
  }

  /** `all` is what has been dispatched followed by what the remaining lines will add. */
  ghost predicate TracksLines(all: seq<seq<string>>, dispatched: seq<seq<string>>, size: nat, content: string,
                              lines: seq<string>, i: nat, gone: Outcomes)
    requires i <= |lines|
  {
    all == dispatched + RunLines(size, content, lines[i..], |dispatched|, gone)
  }

  lemma TracksLine(all: seq<seq<string>>, dispatched: seq<seq<string>>, size: nat, content: string,
                   lines: seq<string>, i: nat, gone: Outcomes)
    requires i < |lines| && TracksLines(all, dispatched, size, content, lines, i, gone)
    ensures var r := RunLine(size, content, lines[i], |dispatched|, gone);
            if r.over then all == dispatched + r.dispatched
            else TracksLines(all, dispatched + r.dispatched, size, r.content, lines, i + 1, gone)
  {
  }

  /** run_debugger's loops over the lines linenoise returns until end of file. */
  method RunDebugger(size: nat, lines: seq<string>, gone: Outcomes) returns (dispatched: seq<seq<string>>)
    requires size > 0 && forall i :: 0 <= i < |lines| ==> NUL !in lines[i]
    ensures dispatched == RunLines(size, [], lines, 0, gone)
  {
    var buffer := new Buffer(size);
    var line := new Buffer(0);
    ghost var all := RunLines(size, [], lines, 0, gone);
    dispatched := [];
    assert lines[0..] == lines;
    for i := 0 to |lines|
      invariant buffer.Valid() && line.Valid() && buffer.size == size && line.size == 0 && buffer.rseek == 0
      invariant fresh(buffer) && fresh(buffer.data) && fresh(line) && fresh(line.data)
      invariant buffer != line && buffer.data != line.data
      invariant TracksLines(all, dispatched, size, buffer.contents, lines, i, gone)
    {
      TracksLine(all, dispatched, size, buffer.contents, lines, i, gone);
      line.Poll(lines[i]);
      var more, over := ProcessLine(buffer, line, |dispatched|, gone);
      dispatched := dispatched + more;
      if over { return; }
    }
    assert dispatched + [] == dispatched;
  }
}
