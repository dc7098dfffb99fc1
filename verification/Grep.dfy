/** The line searcher of syscalls/ece391grep.c, and the string helpers it uses. */
module Grep {
  import opened Bytes
  import opened FileSystem

  const BUFSIZE: nat := 1024

  // ----- Whole-file search: the reference -----

  /** What follows the first line of `text`. */
  function AfterLine(text: seq<Byte>): (rest: seq<Byte>)
    ensures text != [] ==> |rest| < |text|
  {
    text[Min(LineLength(text) + 1, |text|)..]
  }

  /** `line` is one of the lines of `text`; the last one need not end in a newline. */
  predicate IsLineOf(line: seq<Byte>, text: seq<Byte>)
    decreases |text|
  {
    text != [] && (line == text[..LineLength(text)] || IsLineOf(line, AfterLine(text)))
  }

  /** A match needs a first character, so the empty pattern is found nowhere. */
  ghost predicate Occurs(pattern: seq<Byte>, line: seq<Byte>) {
    pattern != [] && exists k :: 0 <= k <= |line| && OccursAt(pattern, line, k)
  }

  predicate OccursAt(pattern: seq<Byte>, line: seq<Byte>, k: nat)
    requires k <= |line|
  {
    pattern <= line[k..]
  }

  /** What one candidate line prints: "name:line\n" when it contains the pattern. */
  ghost function Report(line: seq<Byte>, pattern: seq<Byte>, name: seq<Byte>): seq<Byte> {
    if Occurs(pattern, line) then name + [COLON] + line + [NEWLINE] else []
  }

  /** Whole-file search: the lines of `text` in order, each reported once if it contains the pattern. */
  ghost function GrepLines(text: seq<Byte>, pattern: seq<Byte>, name: seq<Byte>): seq<Byte>
    decreases |text|
  {
    if text == [] then [] else
      Report(text[..LineLength(text)], pattern, name) + GrepLines(AfterLine(text), pattern, name)
  }

  // ----- What the chunked search computes -----

  /** The same with every line cut again after each 1024 bytes, and the pieces searched one by one. */
  ghost function GrepPieces(text: seq<Byte>, pattern: seq<Byte>, name: seq<Byte>): seq<Byte>
    decreases |text|
  {
    if text == [] then [] else
      var n := LineLength(text);
      if n < BUFSIZE then Report(text[..n], pattern, name) + GrepPieces(AfterLine(text), pattern, name)
      else Report(text[..BUFSIZE], pattern, name) + GrepPieces(text[BUFSIZE..], pattern, name)
  }

  ghost predicate NulFree(s: seq<Byte>) {
    forall i | 0 <= i < |s| :: s[i] != NUL
  }

  /** `ece391_strncmp(data + check, s, |s|) == 0`, on a line that ends with a NUL at `end`. */
  method StrNCmp(data: array<Byte>, check: nat, end: nat, s: seq<Byte>) returns (r: int)
    requires check <= end < data.Length && data[end] == NUL
    requires NulFree(s) && NulFree(data[check..end])
    ensures r == 0 <==> s <= data[check..end]
  {
    if |s| == 0 {
      return 0;
    }
    var i, n := 0, |s|;
    while data[check + i] == At(s, i)
      invariant 0 <= i < |s| && i <= end - check && n == |s| - i
      invariant s[..i] == data[check..check + i]
      decreases |s| - i
    {
      assert data[check + i] == s[i] != NUL;
      n := n - 1;
      if data[check + i] == NUL || n == 0 {
        assert s == s[..i] + [s[i]] && data[check..end][..i + 1] == data[check..check + i] + [data[check + i]];
        return 0;
      }
      assert data[check..end][i] == data[check + i];
      i := i + 1;
    }
    assert i < end - check ==> data[check..end][i] == data[check + i];
    return data[check + i] - At(s, i);
  }

  /** The bytes `ece391_fdputs(1, data + from)` writes: those before the next NUL. */
  method FdPuts(data: array<Byte>, from: nat, ghost end: nat) returns (s: seq<Byte>)
    requires from <= end < data.Length && data[end] == NUL && NulFree(data[from..end])
    ensures s == data[from..end]
  {
    var len := 0;
    while data[from + len] != NUL
      invariant 0 <= len <= end - from
      decreases end - from - len
    {
      len := len + 1;
    }
    return data[from..from + len];
  }

  /** The search of one line: compare at every place where the first character fits, report once. */
  method SearchLine(data: array<Byte>, start: nat, end: nat, s: seq<Byte>, name: seq<Byte>) returns (out: seq<Byte>)
    requires start <= end < data.Length && data[end] == NUL
    requires NulFree(s) && NulFree(data[start..end])
    ensures out == Report(data[start..end], s, name)
  {
    ghost var line := data[start..end];
    var check := start;
    while check < end
      invariant start <= check <= end
      invariant forall k | 0 <= k < check - start :: !(s != [] && OccursAt(s, line, k))
    {
      ghost var k := check - start;
      assert line[k..] == data[check..end] && data[check] == line[k];
      if At(s, 0) == data[check] {
        assert NulFree(data[check..end]);
        var r := StrNCmp(data, check, end, s);
        if r == 0 {
          assert s != [] && OccursAt(s, line, k);
          var text := FdPuts(data, start, end);
          return name + [COLON] + text + [NEWLINE];
        }
      }
      check := check + 1;
    }
    assert line[|line|..] == [];
    return [];
  }

  /** `ece391_strcpy(data, data + start)`: a forward byte copy that stops after the NUL at `end`. */
  method StrCpyDown(data: array<Byte>, start: nat, ghost end: nat)
    requires 0 < start <= end < data.Length && data[end] == NUL && NulFree(data[start..end])
    modifies data
    ensures data[..end - start] == old(data[start..end])
    ensures forall j | end - start < j < data.Length :: data[j] == old(data[j])
  {
    var i := 0;
    while data[start + i] != NUL
      invariant 0 <= i <= end - start
      invariant forall j | 0 <= j < i :: data[j] == old(data[start + j])
      invariant forall j | i <= j < data.Length :: data[j] == old(data[j])
      decreases end - start - i
    {
      assert i < end - start;
      data[i] := data[start + i];
      i := i + 1;
      assert i < end - start ==> old(data[start..end])[i] == old(data[start + i]);
    }
    data[i] := NUL;
  }

  // ----- Cutting off the first piece -----

  /** A line that ends inside the buffer is the first piece of the text. */
  lemma LineIsPiece(text: seq<Byte>, n: nat, s: seq<Byte>, name: seq<Byte>)
    requires n < |text| && n < BUFSIZE && text[n] == NEWLINE
    requires forall i | 0 <= i < n :: text[i] != NEWLINE
    ensures GrepPieces(text, s, name) == Report(text[..n], s, name) + GrepPieces(text[n + 1..], s, name)
  {
    assert LineLength(text) == n;
  }

  /** Text without a newline at the front of the buffer is a piece when it fills the buffer or ends the file. */
  lemma TailIsPiece(text: seq<Byte>, n: nat, s: seq<Byte>, name: seq<Byte>)
    requires n <= |text| && (n == |text| <= BUFSIZE || n == BUFSIZE)
    requires forall i | 0 <= i < n :: text[i] != NEWLINE
    ensures GrepPieces(text, s, name) == Report(text[..n], s, name) + GrepPieces(text[n..], s, name)
  {
    assert LineLength(text) >= n;
    assert n == |text| ==> text[n..] == [];
    assert n == 0 ==> text[..n] == [];
  }

  /** The part of the buffer from `start` to `last`, followed by what is still to be read. */
  ghost function Pending(data: seq<Byte>, start: nat, last: nat, unread: seq<Byte>): seq<Byte>
    requires last <= |data|
  {
    if start < last then data[start..last] + unread else unread
  }

  /** `answer` gives what a text still has to print: the piecewise search, kept under a name of its own. */
  ghost predicate Answers(answer: seq<Byte> -> seq<Byte>, s: seq<Byte>, name: seq<Byte>) {
    forall text {:trigger GrepPieces(text, s, name)} :: answer(text) == GrepPieces(text, s, name)
  }

  /** A newline inside the buffer ends the first piece of what is pending. */
  lemma NextLine(data: seq<Byte>, lineStart: nat, lineEnd: nat, last: nat, unread: seq<Byte>,
                 answer: seq<Byte> -> seq<Byte>, s: seq<Byte>, name: seq<Byte>)
    requires Answers(answer, s, name)
    requires lineStart <= lineEnd < last <= BUFSIZE && last <= |data| && data[lineEnd] == NEWLINE
    requires forall i | lineStart <= i < lineEnd :: data[i] != NEWLINE
    ensures answer(Pending(data, lineStart, last, unread))
         == Report(data[lineStart..lineEnd], s, name) + answer(Pending(data, lineEnd + 1, last, unread))
  {
    SplitAtLine(data, lineStart, lineEnd, last, unread);
    LineAnswer(Pending(data, lineStart, last, unread), lineEnd - lineStart, data[lineStart..lineEnd],
               Pending(data, lineEnd + 1, last, unread), answer, s, name);
  }

  lemma LineAnswer(text: seq<Byte>, n: nat, line: seq<Byte>, rest: seq<Byte>,
                   answer: seq<Byte> -> seq<Byte>, s: seq<Byte>, name: seq<Byte>)
    requires Answers(answer, s, name)
    requires n < |text| && n < BUFSIZE && text[n] == NEWLINE && text[..n] == line && text[n + 1..] == rest
    requires forall i | 0 <= i < n :: text[i] != NEWLINE
    ensures answer(text) == Report(line, s, name) + answer(rest)
  {
    LineIsPiece(text, n, s, name);
  }

  lemma SplitAtLine(data: seq<Byte>, lineStart: nat, lineEnd: nat, last: nat, unread: seq<Byte>)
    requires lineStart <= lineEnd < last <= |data|
    ensures var text, n := Pending(data, lineStart, last, unread), lineEnd - lineStart;
            && n < |text| && text[n] == data[lineEnd]
            && text[..n] == data[lineStart..lineEnd]
            && text[n + 1..] == Pending(data, lineEnd + 1, last, unread)
            && forall i | 0 <= i < n :: text[i] == data[lineStart + i]
  {
  }

  /** Without one, the rest of the buffer is a piece if nothing is unread or the buffer is full from its start. */
  lemma LastLine(data: seq<Byte>, lineStart: nat, last: nat, unread: seq<Byte>,
                 answer: seq<Byte> -> seq<Byte>, s: seq<Byte>, name: seq<Byte>)
    requires Answers(answer, s, name)
    requires lineStart <= last <= BUFSIZE && last <= |data|
    requires unread == [] || (lineStart == 0 && last == BUFSIZE)
    requires forall i | lineStart <= i < last :: data[i] != NEWLINE
    ensures answer(Pending(data, lineStart, last, unread))
         == Report(data[lineStart..last], s, name) + answer(unread)
  {
    var text := data[lineStart..last] + unread;
    assert text == Pending(data, lineStart, last, unread);
    TailIsPiece(text, last - lineStart, s, name);
    assert text[..last - lineStart] == data[lineStart..last] && text[last - lineStart..] == unread;
  }

  /** The scan for the end of the line that starts at `start`. */
  method FindLineEnd(data: array<Byte>, start: nat, last: nat) returns (end: nat)
    requires start <= last < data.Length
    ensures start <= end <= last && (end < last ==> data[end] == NEWLINE)
    ensures forall i | start <= i < end :: data[i] != NEWLINE
  {
    end := start;
    while end < last && data[end] != NEWLINE
      invariant start <= end <= last
      invariant forall i | start <= i < end :: data[i] != NEWLINE
    {
      end := end + 1;
    }
  }

  /** One pass over a filled buffer: report its complete lines and carry a partial one to the front.
      `data[filled]` may be left over from an earlier, longer fill. */
  method ProcessBuffer(data: array<Byte>, filled: nat, cnt: nat, s: seq<Byte>, name: seq<Byte>,
                       ghost unread: seq<Byte>, ghost answer: seq<Byte> -> seq<Byte>)
    returns (out: seq<Byte>, last: nat)
    requires Answers(answer, s, name)
    requires data.Length == BUFSIZE + 1 && filled <= BUFSIZE && data[BUFSIZE] != NEWLINE
    requires NulFree(s) && NulFree(data[..filled])
    requires cnt == 0 || filled < BUFSIZE ==> unread == []
    modifies data
    ensures last < BUFSIZE && data[BUFSIZE] != NEWLINE && NulFree(data[..last])
    ensures cnt == 0 ==> last == 0
    ensures answer(old(data[..filled]) + unread) == out + answer(data[..last] + unread)
  {
    out, last := [], filled;
    var lineStart := 0;
    ghost var text := data[..filled] + unread;
    ghost var pending := text;
    while true
      invariant last == filled && (lineStart == 0 || lineStart < last)
      invariant data[BUFSIZE] != NEWLINE && (forall i | lineStart <= i < last :: data[i] != NUL)
      invariant pending == Pending(data[..], lineStart, last, unread)
      invariant answer(text) == out + answer(pending)
      decreases last - lineStart
    {
      var lineEnd := FindLineEnd(data, lineStart, last);
      if data[lineEnd] != NEWLINE && cnt != 0 && lineStart != 0 {
        last := Carry(data, lineStart, lineEnd, unread);
        assert data[..last] + unread == pending;
        return;
      }
      var found := SearchNext(data, lineStart, lineEnd, last, s, name, unread, answer);
      assert answer(text) == (out + found) + answer(Pending(data[..], lineEnd + 1, last, unread));
      pending := Pending(data[..], lineEnd + 1, last, unread);
      out := out + found;
      lineStart := lineEnd + 1;
      if lineStart >= last {
        last := 0;
        assert data[..last] + unread == pending;
        return;
      }
    }
  }

  /** The partial line `data[start..end]` moves to the front of the buffer. */
  method Carry(data: array<Byte>, start: nat, end: nat, ghost unread: seq<Byte>) returns (last: nat)
    requires data.Length == BUFSIZE + 1 && 0 < start < end <= BUFSIZE && data[BUFSIZE] != NEWLINE
    requires forall i | start <= i < end :: data[i] != NUL
    modifies data
    ensures last == end - start && data[BUFSIZE] != NEWLINE && NulFree(data[..last])
    ensures data[..last] + unread == old(Pending(data[..], start, end, unread))
  {
    ghost var line := data[start..end];
    data[end] := NUL;
    assert data[start..end] == line;
    StrCpyDown(data, start, end);
    last := end - start;
  }

  /** A complete line is terminated in place, then searched. */
  method SearchNext(data: array<Byte>, start: nat, end: nat, last: nat, s: seq<Byte>, name: seq<Byte>,
                    ghost unread: seq<Byte>, ghost answer: seq<Byte> -> seq<Byte>)
    returns (found: seq<Byte>)
    requires Answers(answer, s, name) && NulFree(s)
    requires start <= end <= last <= BUFSIZE && last < data.Length
    requires forall i | start <= i < end :: data[i] != NEWLINE
    requires forall i | start <= i < end :: data[i] != NUL
    requires if end < last then data[end] == NEWLINE else unread == [] || (start == 0 && last == BUFSIZE)
    modifies data
    ensures answer(old(Pending(data[..], start, last, unread)))
         == found + answer(Pending(data[..], end + 1, last, unread))
    ensures forall i | 0 <= i < data.Length && i != end :: data[i] == old(data[i])
    ensures data[end] == NUL
  {
    if end < last {
      NextLine(data[..], start, end, last, unread, answer, s, name);
    } else {
      LastLine(data[..], start, last, unread, answer, s, name);
    }
    ghost var line, after := data[start..end], Pending(data[..], end + 1, last, unread);
    data[end] := NUL;
    assert data[start..end] == line && Pending(data[..], end + 1, last, unread) == after;
    found := SearchLine(data, start, end, s, name);
  }

  /** `do_one_file` on an opened regular file: fill the buffer behind what was carried, process it, repeat.
      `data` is the stack buffer; only the byte after its end matters before the first read. */
  method DoOneFile(img: Image, inode: Word, data: array<Byte>, s: seq<Byte>, name: seq<Byte>)
    returns (out: seq<Byte>)
    requires WellFormed(img) && inode < |img.inodes|
    requires data.Length == BUFSIZE + 1 && data[BUFSIZE] != NEWLINE
    requires NulFree(s) && NulFree(Contents(img, inode))
    modifies data
    ensures out == GrepPieces(Contents(img, inode), s, name)
    ensures !LongMatch(Contents(img, inode), s) ==> out == GrepLines(Contents(img, inode), s, name)
    ensures LongMatch(Contents(img, inode), s) && NEWLINE !in name ==> out != GrepLines(Contents(img, inode), s, name)
  {
    if LongMatch(Contents(img, inode), s) {
      if NEWLINE !in name {
        GrepIsExactExactlyWhen(Contents(img, inode), s, name);
      }
    } else {
      PiecesMatchLines(Contents(img, inode), s, name);
    }
    var fd := new OpenFile(img, inode);
    ghost var answer := text => GrepPieces(text, s, name);
    out := SearchFile(fd, data, s, name, answer);
  }

  method SearchFile(fd: OpenFile, data: array<Byte>, s: seq<Byte>, name: seq<Byte>,
                    ghost answer: seq<Byte> -> seq<Byte>)
    returns (out: seq<Byte>)
    requires Answers(answer, s, name)
    requires fd.Valid() && data.Length == BUFSIZE + 1 && data[BUFSIZE] != NEWLINE
    requires NulFree(s) && NulFree(fd.Rest())
    modifies fd`position, data
    ensures out == answer(old(fd.Rest()))
  {
    out := [];
    var last: nat, cnt: nat := 0, 1;
    ghost var file := fd.Rest();
    assert data[..last] + file == file;
    while cnt != 0
      invariant fd.Valid()
      invariant last < BUFSIZE && data[BUFSIZE] != NEWLINE
      invariant NulFree(data[..last]) && NulFree(fd.Rest())
      invariant answer(file) == out + answer(data[..last] + fd.Rest())
      invariant cnt == 0 ==> last == 0 && fd.Rest() == []
      decreases |fd.Rest()|, cnt
    {
      var found;
      found, last, cnt := SearchRound(fd, data, last, s, name, answer);
      out := out + found;
    }
    assert data[..last] + fd.Rest() == [];
    AnswerNothing(answer, s, name);
  }

  /** One read and one pass over the buffer. */
  method SearchRound(fd: OpenFile, data: array<Byte>, last: nat, s: seq<Byte>, name: seq<Byte>,
                     ghost answer: seq<Byte> -> seq<Byte>)
    returns (found: seq<Byte>, carried: nat, cnt: nat)
    requires Answers(answer, s, name) && NulFree(s)
    requires fd.Valid() && data.Length == BUFSIZE + 1 && last < BUFSIZE && data[BUFSIZE] != NEWLINE
    requires NulFree(data[..last]) && NulFree(fd.Rest())
    modifies fd`position, data
    ensures fd.Valid() && carried < BUFSIZE && data[BUFSIZE] != NEWLINE
    ensures NulFree(data[..carried]) && NulFree(fd.Rest())
    ensures answer(old(data[..last] + fd.Rest())) == found + answer(data[..carried] + fd.Rest())
    ensures cnt == 0 ==> carried == 0 && fd.Rest() == []
    ensures |fd.Rest()| == old(|fd.Rest()|) - cnt
  {
    cnt := FillBuffer(fd, data, last);
    found, carried := ProcessBuffer(data, last + cnt, cnt, s, name, fd.Rest(), answer);
  }

  lemma AnswerNothing(answer: seq<Byte> -> seq<Byte>, s: seq<Byte>, name: seq<Byte>)
    requires Answers(answer, s, name)
    ensures answer([]) == []
  {
    assert GrepPieces([], s, name) == [];
  }

  /** The read behind the carried bytes; a short count means that the file is finished. */
  method FillBuffer(fd: OpenFile, data: array<Byte>, last: nat) returns (cnt: nat)
    requires fd.Valid() && data.Length == BUFSIZE + 1 && last < BUFSIZE && data[BUFSIZE] != NEWLINE
    requires NulFree(data[..last]) && NulFree(fd.Rest())
    modifies fd`position, data
    ensures fd.Valid() && last + cnt <= BUFSIZE && data[BUFSIZE] != NEWLINE
    ensures data[..last + cnt] + fd.Rest() == old(data[..last] + fd.Rest())
    ensures NulFree(data[..last + cnt]) && NulFree(fd.Rest())
    ensures cnt == 0 || last + cnt < BUFSIZE ==> fd.Rest() == []
    ensures |fd.Rest()| == old(|fd.Rest()|) - cnt
  {
    ghost var rest, carried := fd.Rest(), data[..last];
    cnt := fd.Read(data, last, BUFSIZE - last);
    ghost var got := data[last..last + cnt];
    NulFreeParts(carried, got, fd.Rest());
    assert data[..last] == carried;
    assert data[..last + cnt] == carried + got;
    assert (carried + got) + fd.Rest() == carried + rest;
  }

  lemma NulFreeParts(carried: seq<Byte>, got: seq<Byte>, rest: seq<Byte>)
    requires NulFree(carried) && NulFree(got + rest)
    ensures NulFree(carried + got) && NulFree(rest)
  {
    assert forall i | 0 <= i < |got| :: got[i] == (got + rest)[i];
    assert forall i | 0 <= i < |rest| :: rest[i] == (got + rest)[|got| + i];
  }

  // ----- The chunked search against the whole-file search -----

  /** Some line longer than the buffer contains the pattern. */
  ghost predicate LongMatch(text: seq<Byte>, s: seq<Byte>) {
    exists line :: IsLineOf(line, text) && |line| > BUFSIZE && Occurs(s, line)
  }

  /** A line of exactly 1024 bytes leaves its newline behind as an empty piece, which reports nothing. */
  lemma EmptyPieceReportsNothing(tail: seq<Byte>, s: seq<Byte>, name: seq<Byte>)
    requires tail != [] && tail[0] == NEWLINE
    ensures GrepPieces(tail, s, name) == GrepPieces(tail[1..], s, name)
  {
    LineIsPiece(tail, 0, s, name);
    assert tail[..0] == [];
  }

  lemma FirstPiece(text: seq<Byte>, s: seq<Byte>, name: seq<Byte>)
    requires text != [] && LineLength(text) <= BUFSIZE
    ensures GrepPieces(text, s, name)
         == Report(text[..LineLength(text)], s, name) + GrepPieces(AfterLine(text), s, name)
  {
    var n := LineLength(text);
    if n == BUFSIZE && n < |text| {
      var tail := text[n..];
      assert tail[1..] == text[n + 1..];
      EmptyPieceReportsNothing(tail, s, name);
    }
  }

  lemma PartOfLine(s: seq<Byte>, line: seq<Byte>, from: nat, to: nat)
    requires from <= to <= |line| && Occurs(s, line[from..to])
    ensures Occurs(s, line)
  {
    var k :| 0 <= k <= to - from && OccursAt(s, line[from..to], k);
    assert line[from..to][k..] == line[from + k..to] <= line[from + k..];
    assert OccursAt(s, line, from + k);
  }

  /** The rest of a line that was cut. */
  lemma CutLine(text: seq<Byte>, n: nat)
    requires n == LineLength(text) > BUFSIZE
    ensures text[..BUFSIZE] == text[..n][0..BUFSIZE]
    ensures var rest := text[BUFSIZE..];
            && LineLength(rest) == n - BUFSIZE && rest[..n - BUFSIZE] == text[..n][BUFSIZE..n]
            && AfterLine(rest) == AfterLine(text)
  {
    assert forall i | 0 <= i < |text[BUFSIZE..]| :: text[BUFSIZE..][i] == text[BUFSIZE + i];
  }

  lemma CutLineIsSilent(s: seq<Byte>, line: seq<Byte>, at: nat)
    requires at <= |line| && !Occurs(s, line)
    ensures !Occurs(s, line[0..at]) && !Occurs(s, line[at..|line|])
  {
    if Occurs(s, line[0..at]) {
      PartOfLine(s, line, 0, at);
    }
    if Occurs(s, line[at..|line|]) {
      PartOfLine(s, line, at, |line|);
    }
  }

  /** The pieces of a line without the pattern report nothing. */
  lemma {:induction false} SilentLine(text: seq<Byte>, s: seq<Byte>, name: seq<Byte>)
    requires text != [] && !Occurs(s, text[..LineLength(text)])
    ensures GrepPieces(text, s, name) == GrepPieces(AfterLine(text), s, name)
    decreases |text|
  {
    var n := LineLength(text);
    if n <= BUFSIZE {
      FirstPiece(text, s, name);
    } else {
      TailIsPiece(text, BUFSIZE, s, name);
      CutLine(text, n);
      CutLineIsSilent(s, text[..n], BUFSIZE);
      SilentLine(text[BUFSIZE..], s, name);
    }
  }

  lemma NoLongMatch(text: seq<Byte>, s: seq<Byte>)
    requires text != [] && !LongMatch(text, s)
    ensures !LongMatch(AfterLine(text), s)
    ensures LineLength(text) <= BUFSIZE || !Occurs(s, text[..LineLength(text)])
  {
    assert IsLineOf(text[..LineLength(text)], text);
  }

  lemma FirstPieces(text: seq<Byte>, s: seq<Byte>, name: seq<Byte>)
    requires text != [] && (LineLength(text) <= BUFSIZE || !Occurs(s, text[..LineLength(text)]))
    ensures GrepPieces(text, s, name)
         == Report(text[..LineLength(text)], s, name) + GrepPieces(AfterLine(text), s, name)
  {
    if LineLength(text) <= BUFSIZE {
      FirstPiece(text, s, name);
    } else {
      SilentLine(text, s, name);
    }
  }

  /** Long lines do not matter when the pattern is in none of them. */
  lemma {:induction false} PiecesMatchLines(text: seq<Byte>, s: seq<Byte>, name: seq<Byte>)
    requires !LongMatch(text, s)
    ensures GrepPieces(text, s, name) == GrepLines(text, s, name)
    decreases |text|
  {
    if text != [] {
      NoLongMatch(text, s);
      FirstPieces(text, s, name);
      PiecesMatchLines(AfterLine(text), s, name);
    }
  }

  /** The line that is printed for a match. */
  function Printed(line: seq<Byte>, name: seq<Byte>): seq<Byte> {
    name + [COLON] + line
  }

  /** A printed line is a line of the output. */
  lemma LinesOfReport(line: seq<Byte>, s: seq<Byte>, name: seq<Byte>, out: seq<Byte>, l: seq<Byte>)
    requires NEWLINE !in name && NEWLINE !in line
    ensures IsLineOf(l, Report(line, s, name) + out) <==>
            (Occurs(s, line) && l == Printed(line, name)) || IsLineOf(l, out)
  {
    if Occurs(s, line) {
      LineInFront(Printed(line, name), out);
    } else {
      assert Report(line, s, name) + out == out;
    }
  }

  /** The pieces never print a line longer than the name, a colon and a full buffer. */
  lemma {:induction false} PiecesPrintShortLines(text: seq<Byte>, s: seq<Byte>, name: seq<Byte>, l: seq<Byte>)
    requires NEWLINE !in name && IsLineOf(l, GrepPieces(text, s, name))
    ensures |l| <= |name| + 1 + BUFSIZE
    decreases |text|
  {
    var n := LineLength(text);
    var rest := if n < BUFSIZE then AfterLine(text) else text[BUFSIZE..];
    var piece := text[..Min(n, BUFSIZE)];
    LinesOfReport(piece, s, name, GrepPieces(rest, s, name), l);
    if IsLineOf(l, GrepPieces(rest, s, name)) {
      PiecesPrintShortLines(rest, s, name, l);
    }
  }

  /** The whole-file search prints every matching line in full. */
  lemma {:induction false} LinesPrintMatches(text: seq<Byte>, s: seq<Byte>, name: seq<Byte>, line: seq<Byte>)
    requires NEWLINE !in name && IsLineOf(line, text) && Occurs(s, line)
    ensures IsLineOf(Printed(line, name), GrepLines(text, s, name))
    decreases |text|
  {
    LinesOfReport(text[..LineLength(text)], s, name, GrepLines(AfterLine(text), s, name), Printed(line, name));
    if line != text[..LineLength(text)] {
      LinesPrintMatches(AfterLine(text), s, name, line);
    }
  }

  /** For any pattern, the chunked search prints what whole-file search prints exactly when no line of more
      than 1024 bytes contains the pattern: such a line is printed cut, or not at all. */
  lemma GrepIsExactExactlyWhen(text: seq<Byte>, s: seq<Byte>, name: seq<Byte>)
    requires NEWLINE !in name
    ensures GrepPieces(text, s, name) == GrepLines(text, s, name) <==> !LongMatch(text, s)
  {
    if LongMatch(text, s) {
      var line :| IsLineOf(line, text) && |line| > BUFSIZE && Occurs(s, line);
      LinesPrintMatches(text, s, name, line);
      if IsLineOf(Printed(line, name), GrepPieces(text, s, name)) {
        PiecesPrintShortLines(text, s, name, Printed(line, name));
      }
    } else {
      PiecesMatchLines(text, s, name);
    }
  }
}
