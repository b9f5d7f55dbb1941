/**
 An RSCP message as the program keeps it (`RSCPContent` in `src/ServerComm.cpp`
 and `src/ServerComm.h`): the request, the map of lines and a cached rendering.
 */
module Rscp {
  import opened CStrings
  import opened RscpText
  import opened RscpSocket
  import CurlBuffer

  const INITIAL_BYTES := 256

  // ----- the size estimated for a rendering -----

  /** What the lines add to the estimate. */
  function Room(lines: seq<Line>): nat {
    if lines == [] then 0 else |LineText(lines[0])| + 2 + Room(lines[1..])
  }

  function Estimate(lines: seq<Line>): nat {
    32 + Room(lines)
  }

  lemma {:induction false} LinesLength(lines: seq<Line>)
    ensures |LinesText(lines)| + |lines| == Room(lines)
  {
    if lines != [] {
      LinesLength(lines[1..]);
    }
  }

  /** The rendering and its terminator fit the estimate exactly when the request has
      at most 29 bytes and one for each line. */
  lemma FitsExactlyWhen(request: string, lines: seq<Line>)
    ensures |Render(request, lines)| < Estimate(lines) <==> |request| <= 29 + |lines|
  {
    LinesLength(lines);
  }

  predicate CStringLines(lines: seq<Line>) {
    forall k :: 0 <= k < |lines| ==> CString(lines[k].id) && CString(lines[k].data)
  }

  lemma {:induction false} AssignCString(lines: seq<Line>, id: string, data: string)
    requires CStringLines(lines) && CString(id) && CString(data)
    ensures CStringLines(Assign(lines, id, data))
  {
    if lines != [] && !Less(id, lines[0].id) && lines[0].id != id {
      AssignCString(lines[1..], id, data);
    }
  }

  /** Entry `k` is the text of line `k`. */
  ghost predicate LineEntries(entries: seq<array<char>>, lines: seq<Line>)
    reads entries
  {
    |entries| <= |lines| && forall k :: 0 <= k < |entries| ==> Holds(entries[k], LineText(lines[k]))
  }

  // ----- the code -----

  datatype Status = Success | UnhandledRecvError | SoftwareDisconnect

  class RSCPContent {
    var assembledContentOutOfDate: bool
    var assembledContent: array?<char>
    var request: CharPtr
    var contentLines: seq<Line>

    ghost function Value(): Content
      reads this`request, this`contentLines
    {
      Content(request, contentLines)
    }

    /** A rendering that is not out of date is the one a fresh rendering would be. */
    ghost predicate Valid()
      reads this, assembledContent
    {
      && Sorted(contentLines) && CStringLines(contentLines) && (request.Some? ==> CString(request.text))
      && (assembledContent != null && !assembledContentOutOfDate ==>
            request.Some? && Holds(assembledContent, Render(request.text, contentLines)))
    }

    constructor ()
      ensures Valid() && Value() == Content(Nothing, [])
    {
      assembledContent, request, contentLines := null, Nothing, [];
      assembledContentOutOfDate := true;
    }

    method Clear()
      modifies this
      ensures Valid() && Value() == Content(Nothing, []) && assembledContent == null
    {
      assembledContent, request := null, Nothing;
      contentLines := [];
    }

    /** A null request is ignored. */
    method SetRequest(text: CharPtr)
      requires Valid() && (text.Some? ==> CString(text.text))
      modifies this`request, this`assembledContentOutOfDate
      ensures Valid() && request == if text.Some? then text else old(request)
    {
      if text.Nothing? {
        return;
      }
      request := text;
      assembledContentOutOfDate := true;
    }

    method AddLine(lineId: string, lineData: string)
      requires Valid() && CString(lineId) && CString(lineData)
      modifies this`contentLines, this`assembledContentOutOfDate
      ensures Valid() && contentLines == Assign(old(contentLines), lineId, lineData)
      ensures AsMap(contentLines) == AsMap(old(contentLines))[lineId := lineData]
    {
      AssignIsUpdate(contentLines, lineId, lineData);
      AssignCString(contentLines, lineId, lineData);
      contentLines := Assign(contentLines, lineId, lineData);
      assembledContentOutOfDate := true;
    }

    /** A line with a colon in it: the id before it, the data after it and after any
        white space. */
    method AddLineString(lineString: string)
      requires Valid() && CString(lineString) && ':' in lineString
      modifies this`contentLines, this`assembledContentOutOfDate
      ensures Valid()
      ensures var l := ParseLine(lineString);
              contentLines == Assign(old(contentLines), l.id, l.data)
    {
      var id, data := SplitLine(lineString);
      AddLine(id, data);
    }

    /** Cuts a copy of the line into its parts. */
    method SplitLine(s: string) returns (id: string, data: string)
      requires CString(s) && ':' in s
      ensures Line(id, data) == ParseLine(s) && CString(id) && CString(data)
    {
      var str := Strdup(s);
      var colon := FindColon(str, s);
      str[colon] := '\0';
      id := str[..colon];
      assert id == s[..colon];
      var dataStart, end := FindData(str, colon + 1, s);
      str[end] := '\0';
      data := str[dataStart..end];
      assert data == s[dataStart..end];
      PartsAre(s, colon, dataStart, end);
    }

    /** Where the data starts and ends. */
    method FindData(str: array<char>, from: nat, s: string) returns (dataStart: nat, end: nat)
      requires Tail(str, from, s) && CString(s)
      ensures from <= dataStart <= end <= |s| && s[dataStart..] == Trim(s[from..])
      ensures end == dataStart + Find(s[dataStart..], '\n')
    {
      dataStart := SkipBlanks(str, from, s);
      end := FindBreak(str, dataStart, s);
    }

    method FindColon(str: array<char>, ghost s: string) returns (i: nat)
      requires Holds(str, s) && ':' in s
      ensures i == Find(s, ':') < |s|
    {
      i := 0;
      while str[i] != ':'
        invariant 0 <= i <= Find(s, ':')
        decreases |s| - i
      {
        i := i + 1;
      }
    }

    /** The characters from `from` on are still those of the line. */
    ghost predicate Tail(str: array<char>, from: nat, s: string)
      reads str
    {
      from <= |s| < str.Length && str[|s|] == '\0' && forall k :: from <= k < |s| ==> str[k] == s[k]
    }

    method SkipBlanks(str: array<char>, from: nat, s: string) returns (i: nat)
      requires Tail(str, from, s)
      ensures from <= i <= |s| && s[i..] == Trim(s[from..])
    {
      i := from;
      while i < |s| && IsSpace(str[i])
        invariant from <= i <= |s| && Trim(s[i..]) == Trim(s[from..])
      {
        assert s[i..][1..] == s[i + 1..];
        i := i + 1;
      }
    }

    method FindBreak(str: array<char>, from: nat, s: string) returns (i: nat)
      requires Tail(str, from, s) && CString(s)
      ensures i == from + Find(s[from..], '\n') <= |s|
    {
      i := from;
      while i < |s| && str[i] != '\n' && str[i] != '\0'
        invariant from <= i <= |s| && forall k :: 0 <= k < i - from ==> s[from..][k] != '\n'
      {
        i := i + 1;
      }
      FindIs(s[from..], '\n', i - from);
    }

    // ----- loading -----

    /** `strtok_r` for newlines: the token from `from` on and where to go on. */
    method NextToken(s: string, from: nat) returns (token: CharPtr, next: nat)
      requires from <= |s| && CString(s)
      ensures from <= next <= |s|
      ensures token.Nothing? ==> Tokens(s[from..]) == []
      ensures token.Some? ==>
                from < next && Tokens(s[from..]) == [token.text] + Tokens(s[next..]) && CString(token.text)
    {
      var i := SkipNewlines(s, from);
      if i == |s| {
        return Nothing, i;
      }
      var end := TokenEnd(s, i);
      TokenStep(s, from, i, end);
      token := Some(s[i..end]);
      next := if end < |s| then end + 1 else end;
    }

    method SkipNewlines(s: string, from: nat) returns (i: nat)
      requires from <= |s|
      ensures from <= i <= |s| && SkipBreaks(s[from..]) == s[i..] && (i < |s| ==> s[i] != '\n')
    {
      i := from;
      while i < |s| && s[i] == '\n'
        invariant from <= i <= |s| && SkipBreaks(s[i..]) == SkipBreaks(s[from..])
      {
        assert s[i..][1..] == s[i + 1..];
        i := i + 1;
      }
    }

    method TokenEnd(s: string, i: nat) returns (end: nat)
      requires i < |s| && s[i] != '\n'
      ensures i < end <= |s| && end == i + Find(s[i..], '\n')
    {
      end := i;
      while end < |s| && s[end] != '\n'
        invariant i <= end <= |s| && forall k :: 0 <= k < end - i ==> s[i..][k] != '\n'
      {
        end := end + 1;
      }
      FindIs(s[i..], '\n', end - i);
    }

    /** `loadFromString`: the first token is the request, the others are lines. */
    method LoadFromString(str: string)
      requires CString(str) && Loadable(str)
      modifies this
      ensures Valid() && Value() == Load(str) && assembledContent == null
    {
      Clear();
      assert str[0..] == str;
      var requestLine, savedptr := NextToken(str, 0);
      SetRequest(requestLine);
      ghost var lines := if Tokens(str) == [] then [] else Tokens(str)[1..];
      assert requestLine.Some? ==> Tokens(str[savedptr..]) == lines;
      if requestLine.Nothing? {
        return;
      }
      while true
        invariant savedptr <= |str| && Valid() && request == requestLine && assembledContent == null
        invariant HaveColons(Tokens(str[savedptr..]))
        invariant AssignAll(contentLines, Tokens(str[savedptr..])) == AssignAll([], lines)
        decreases |str| - savedptr
      {
        ghost var before := Tokens(str[savedptr..]);
        var line;
        line, savedptr := NextToken(str, savedptr);
        if line.Nothing? {
          return;
        }
        assert before[0] == line.text && before[1..] == Tokens(str[savedptr..]);
        if |line.text| > 0 {
          AddLineString(line.text);
        }
      }
    }

    /** `loadFromSocket`: receives until the bytes so far end with an empty line, and
        loads them.  Whatever the pieces, one message is received as a whole, and what
        arrives behind it is left to be read. */
    method LoadFromSocket(socket: Socket, ghost a: seq<Arrival>, ghost b: seq<Arrival>)
      returns (status: Status, ghost got: string)
      requires Valid() && socket.arrivals == a + b && SafeToLoad(Data(a)) && Complete(a, b)
      modifies this, socket
      ensures Valid() && got <= Data(a) && (status == Success <==> |got| >= 2 && got[|got| - 2..] == "\n\n")
      ensures status == Success ==> Loadable(got) && Value() == Load(got)
      ensures status != Success ==> Value() == old(Value())
      ensures OneMessage(Data(a)) && Uninterrupted(a) ==>
                status == Success && got == Data(a) && Remains(socket.arrivals, b)
    {
      var buffer;
      status, buffer, got := Receive(socket, a, b);
      if status == Success {
        assert got == Data(a)[..|got|] && Safe(Data(a)[..|got|]);
        LoadFromString(buffer.buffer[..buffer.length]);
      }
    }

    /** The receiving loop. */
    method Receive(socket: Socket, ghost a: seq<Arrival>, ghost b: seq<Arrival>)
      returns (status: Status, buffer: CurlBuffer.Buffer, ghost got: string)
      requires socket.arrivals == a + b && Complete(a, b)
      modifies socket
      ensures buffer.Valid() && buffer.buffer != null && buffer.Contents() == got
      ensures got <= Data(a) && (status == Success <==> EndsTwice(got))
      ensures OneMessage(Data(a)) && Uninterrupted(a) ==>
                status == Success && got == Data(a) && Remains(socket.arrivals, b)
    {
      ghost var whole, left := Data(a), a;
      buffer := new CurlBuffer.Buffer();
      buffer.Init(INITIAL_BYTES + 1);
      got := "";
      assert Split(whole, got, whole);
      while true
        invariant buffer.Valid() && buffer.buffer != null && fresh(buffer) && fresh(buffer.buffer)
        invariant buffer.Contents() == got && !EndsTwice(got) && Split(whole, got, Data(left))
        invariant socket.arrivals == left + b && (Uninterrupted(a) ==> Uninterrupted(left))
        decreases |Data(left)| + |left|
      {
        MoreToCome(a, b, got, left);
        var received;
        received, got, left := ReceiveMore(socket, buffer, whole, got, left, b);
        SoFar(a, b, got, left, socket.arrivals);
        if received.Broken? {
          return UnhandledRecvError, buffer, got;
        } else if received.Closed? {
          return SoftwareDisconnect, buffer, got;
        } else if received.Got? {
          var finished := EndOfContent(buffer);
          if finished {
            return Success, buffer, got;
          }
        }
      }
    }

    /** Makes room and receives what there is room for. */
    method ReceiveMore(socket: Socket, buffer: CurlBuffer.Buffer, ghost whole: string, ghost got: string,
                       ghost left: seq<Arrival>, ghost b: seq<Arrival>)
      returns (received: Received, ghost got': string, ghost left': seq<Arrival>)
      requires buffer.Valid() && buffer.buffer != null
      requires buffer.Contents() == got && Split(whole, got, Data(left))
      requires socket.arrivals == left + b && (left != [] || b == [])
      modifies socket, buffer, buffer.buffer
      ensures buffer.Valid() && buffer.buffer != null && (buffer.buffer == old(buffer.buffer) || fresh(buffer.buffer))
      ensures buffer.Contents() == got' && Split(whole, got', Data(left')) && (!received.Got? ==> got' == got)
      ensures socket.arrivals == left' + b && (received.Closed? ==> Data(left') == "")
      ensures received.Got? || received.WouldBlock? ==> |Data(left')| + |left'| < |Data(left)| + |left|
      ensures Uninterrupted(left) ==> Uninterrupted(left') && !received.Broken?
    {
      if buffer.capacity - buffer.length < INITIAL_BYTES / 8 {
        buffer.Extend(INITIAL_BYTES);
      }
      received, left' := RecvBefore(socket, buffer.capacity - buffer.length, left, b);
      got' := got;
      if received.Got? {
        Append(buffer, received.data);
        SplitFurther(whole, got, received.data, Data(left'));
        got' := got + received.data;
      }
    }

    /** The test for two newlines in a row. */
    method EndOfContent(buffer: CurlBuffer.Buffer) returns (finished: bool)
      requires buffer.Valid() && buffer.buffer != null
      ensures finished <==> EndsTwice(buffer.Contents())
    {
      var n := buffer.length;
      finished := n >= 2 && buffer.buffer[n - 2] == '\n' && buffer.buffer[n - 1] == '\n';
    }

    /** What `recv` does to the buffer, and the length after it. */
    method Append(buffer: CurlBuffer.Buffer, data: string)
      requires buffer.Valid() && buffer.buffer != null && buffer.length + |data| <= buffer.capacity
      modifies buffer`length, buffer.buffer
      ensures buffer.Valid() && buffer.Contents() == old(buffer.Contents()) + data
    {
      ghost var before := buffer.buffer[..buffer.length];
      buffer.Copy(data, buffer.length);
      assert buffer.buffer[..buffer.length] == before;
      buffer.length := buffer.length + |data|;
      assert buffer.buffer[..buffer.length] == before + data;
    }

    // ----- rendering -----

    /** One line, in a buffer of its own. */
    method BuildLine(l: Line) returns (line: array<char>)
      ensures fresh(line) && Holds(line, LineText(l))
    {
      ghost var text := LineText(l);
      line := new char[|l.id| + 2 + |l.data| + 2];
      var ptr;
      ghost var done;
      assert text == "" + (l.id + (": " + l.data)) && l.data == l.data + "";
      ptr, done := PutPiece(line, 0, l.id, "", ": " + l.data, text);
      ptr, done := PutPiece(line, ptr, ": ", done, l.data, text);
      ptr, done := PutPiece(line, ptr, l.data, done, "", text);
      assert done + "" == done;
    }

    /** All the lines, and the size estimated for the rendering. */
    method BuildLines() returns (strarray: seq<array<char>>, estimate: nat)
      requires Valid()
      ensures |strarray| == |contentLines| && LineEntries(strarray, contentLines)
      ensures estimate == Estimate(contentLines)
    {
      strarray, estimate := [], 32;
      var i := 0;
      while i < |contentLines|
        invariant 0 <= i <= |contentLines| && Valid() && |strarray| == i && LineEntries(strarray, contentLines)
        invariant estimate + Room(contentLines[i..]) == Estimate(contentLines)
      {
        assert contentLines[i..][0] == contentLines[i] && contentLines[i..][1..] == contentLines[i + 1..];
        LineIsCString(contentLines[i]);
        var line := BuildLine(contentLines[i]);
        var n := Strlen(line, LineText(contentLines[i]));
        strarray := strarray + [line];
        estimate := estimate + n + 2;
        i := i + 1;
      }
    }

    /** Puts the request, the lines and the last line break together. */
    method Assemble(strarray: seq<array<char>>, estimate: nat, requestText: string)
      returns (content: array<char>, length: nat)
      requires Valid() && |strarray| == |contentLines| && LineEntries(strarray, contentLines)
      requires |Render(requestText, contentLines)| < estimate
      ensures fresh(content) && Holds(content, Render(requestText, contentLines))
      ensures length == |Render(requestText, contentLines)|
    {
      ghost var text := Render(requestText, contentLines);
      ghost var tail := LinesText(contentLines) + "\n";
      assert text == "" + (requestText + ("\n" + tail));
      content := new char[estimate];
      ghost var done;
      length, done := PutPiece(content, 0, requestText, "", "\n" + tail, text);
      length, done := PutPiece(content, length, "\n", done, tail, text);
      var i := 0;
      while i < |strarray|
        invariant 0 <= i <= |strarray| == |contentLines| && LineEntries(strarray, contentLines)
        invariant CStringLines(contentLines) && fresh(content)
        invariant Pending(content, length, done, LinesText(contentLines[i..]) + "\n", text)
      {
        LinesStep(contentLines, i);
        ghost var rest := LinesText(contentLines[i + 1..]) + "\n";
        LineIsCString(contentLines[i]);
        length, done := PutEntry(content, length, strarray[i], LineText(contentLines[i]), done, "\n" + rest, text);
        length, done := PutPiece(content, length, "\n", done, rest, text);
        i := i + 1;
      }
      assert LinesText(contentLines[i..]) + "\n" == "\n" + "";
      length, done := PutPiece(content, length, "\n", done, "", text);
      assert done + "" == done;
    }

    /** `getContentAsString`, once there is a request: always what a fresh rendering
        would be.  The cached one is good as it is; a new one must fit its estimate. */
    method GetContentAsString() returns (ret: array<char>)
      requires Valid() && request.Some?
      requires assembledContentOutOfDate || assembledContent == null ==> |request.text| <= 29 + |contentLines|
      modifies this`assembledContent, this`assembledContentOutOfDate
      ensures Valid() && fresh(ret) && Holds(ret, Render(request.text, contentLines))
      ensures assembledContent != null && !assembledContentOutOfDate && ret != assembledContent
    {
      ghost var text := Render(request.text, contentLines);
      RenderIsCString(request.text, contentLines);
      if !assembledContentOutOfDate && assembledContent != null {
        var n := Strlen(assembledContent, text);
        ret := CopyString(assembledContent, n, text);
        return;
      }
      FitsExactlyWhen(request.text, contentLines);
      var strarray, estimate := BuildLines();
      var content, length := Assemble(strarray, estimate, request.text);
      assembledContent := content;
      assembledContentOutOfDate := false;
      ret := CopyString(content, length, text);
    }

    method CopyString(src: array<char>, n: nat, ghost s: string) returns (ret: array<char>)
      requires Holds(src, s) && CString(s) && n == |s|
      ensures fresh(ret) && Holds(ret, s) && ret.Length == n + 1 && Holds(src, s)
    {
      ret := new char[n + 1];
      assert s == "" + s + "";
      Strcpy(ret, 0, src, s, "");
      assert "" + s == s;
    }
  }

  lemma PartsAre(s: string, colon: nat, dataStart: nat, end: nat)
    requires ':' in s && colon == Find(s, ':') && colon < dataStart <= end <= |s| && CString(s)
    requires s[dataStart..] == Trim(s[colon + 1..]) && end == dataStart + Find(s[dataStart..], '\n')
    ensures ParseLine(s) == Line(s[..colon], s[dataStart..end]) && CString(s[..colon]) && CString(s[dataStart..end])
  {
    var rest := Trim(s[colon + 1..]);
    SliceOfRest(s, dataStart, end);
    assert rest[..Find(rest, '\n')] == s[dataStart..end];
    SliceIsCString(s, 0, colon);
    SliceIsCString(s, dataStart, end);
  }

  lemma SliceIsCString(s: string, i: nat, j: nat)
    requires i <= j <= |s| && CString(s)
    ensures CString(s[i..j])
  {
  }

  lemma SliceOfRest(s: string, i: nat, j: nat)
    requires i <= j <= |s|
    ensures s[i..][..j - i] == s[i..j]
  {
  }

  lemma TokenStep(s: string, from: nat, i: nat, end: nat)
    requires from <= i < end <= |s| && SkipBreaks(s[from..]) == s[i..] && end == i + Find(s[i..], '\n')
    ensures Tokens(s[from..]) == [s[i..end]] + Tokens(s[if end < |s| then end + 1 else end..])
  {
    assert s[i..][..end - i] == s[i..end] && s[i..][end - i..] == s[end..];
    if end < |s| {
      assert s[end..] == "\n" + s[end + 1..];
      BreakIsSkipped(s[end + 1..]);
    }
  }

  lemma LineIsCString(l: Line)
    requires CString(l.id) && CString(l.data)
    ensures CString(LineText(l))
  {
  }

  lemma LinesStep(lines: seq<Line>, i: nat)
    requires i < |lines|
    ensures LinesText(lines[i..]) + "\n" == LineText(lines[i]) + ("\n" + (LinesText(lines[i + 1..]) + "\n"))
  {
    assert lines[i..][0] == lines[i] && lines[i..][1..] == lines[i + 1..];
  }

  lemma {:induction false} LinesAreCString(lines: seq<Line>)
    requires CStringLines(lines)
    ensures CString(LinesText(lines))
  {
    if lines != [] {
      LinesAreCString(lines[1..]);
      LineIsCString(lines[0]);
    }
  }

  lemma RenderIsCString(request: string, lines: seq<Line>)
    requires CString(request) && CStringLines(lines)
    ensures CString(Render(request, lines))
  {
    LinesAreCString(lines);
  }

  /** With that, the receiving side ends up with what the sending side had: a rendered
      message in any pieces meets what `LoadFromSocket` asks for, is received as a
      whole, and loads back. */
  lemma {:induction false} RenderedIsReceived(request: string, lines: seq<Line>, arrivals: seq<Arrival>)
    requires NoBreak(request) && NoBreaks(lines) && Sorted(lines) && CString(request) && CStringLines(lines)
    requires request != "" && AllFaithful(lines) && Data(arrivals) == Render(request, lines)
    ensures SafeToLoad(Data(arrivals)) && OneMessage(Data(arrivals))
    ensures Loadable(Data(arrivals)) && Load(Data(arrivals)) == Content(Some(request), lines)
  {
    var whole := Render(request, lines);
    RenderedIsOneMessage(request, lines);
    LoadsBack(request, lines);
    RenderIsCString(request, lines);
    forall n | 0 <= n <= |whole| ensures Safe(whole[..n]) {
      if n == |whole| {
        assert whole[..n] == whole;
      }
    }
  }
}
