/**
 Finding frames in a stream of bytes (`XBAPI_ReadFrame` in `src/xbee.cpp`), and
 that every frame sent is found again, whatever lies between the frames.
 */
module XBeeStream {
  import opened XBeeFrames

  /** What one call makes of the bytes to come: it would wait for ever; it gives
      up, its second length byte or part of its body missing; or it has a frame. */
  datatype Outcome =
    | Waits
    | GivesUp(rest: Bytes)
    | Reads(image: Bytes, rest: Bytes)

  /** The bytes after the first start delimiter. */
  function Find(s: Bytes): (r: Outcome)
    ensures !r.Reads? && (r.GivesUp? ==> |r.rest| < |s|)
  {
    if s == [] then Waits
    else if s[0] == START_DELIMITER then GivesUp(s[1..])
    else Find(s[1..])
  }

  /** The length bytes, starting over at every start delimiter. */
  function Header(s: Bytes): (r: Outcome)
    ensures r.Reads? ==> |r.image| == 2
  {
    if s == [] then Waits
    else if s[0] == START_DELIMITER then Header(s[1..])
    else if |s| == 1 then GivesUp([])
    else if s[1] == START_DELIMITER then Header(s[2..])
    else Reads(s[..2], s[2..])
  }

  /** The body and checksum, no more of them than the buffer has room for. */
  function Body(length: Bytes, s: Bytes): Outcome
    requires |length| == 2
  {
    var n := 0x100 * (length[0] as int) + length[1] as int + 1;
    var room := if n < FRAME_SIZE - 3 then n else FRAME_SIZE - 3;
    var got := if room < |s| then room else |s|;
    if got < n then GivesUp(s[got..])
    else Reads(Padded([START_DELIMITER] + length + s[..got]), s[got..])
  }

  function ReadOne(s: Bytes): Outcome {
    match Find(s)
    case GivesUp(after) =>
      (match Header(after)
       case Reads(length, rest) => Body(length, rest)
       case r => r)
    case _ => Waits
  }

  datatype Status = Waiting | TimedOut | Read

  /** Whether a read frame and the bytes left over are what they should be. */
  ghost predicate Agrees(status: Status, frame: Bytes, rest: Bytes, r: Outcome) {
    match r
    case Waits => status == Waiting && rest == []
    case GivesUp(left) => status == TimedOut && rest == left
    case Reads(image, left) => status == Read && frame == image && rest == left
  }

  /** Waits for a start delimiter. */
  method SeekDelimiter(port: SerialPort) returns (found: bool)
    modifies port`incoming
    ensures found ==> Find(old(port.incoming)) == GivesUp(port.incoming)
    ensures !found ==> Find(old(port.incoming)) == Waits && port.incoming == []
  {
    found := false;
    while !found
      invariant !found ==> Find(port.incoming) == Find(old(port.incoming))
      invariant found ==> Find(old(port.incoming)) == GivesUp(port.incoming)
      decreases !found, |port.incoming|
    {
      ghost var before := port.incoming;
      var data := port.Read(1);
      if |data| == 0 {
        return;
      }
      assert before[0] == data[0] && before[1..] == port.incoming;
      found := data[0] == START_DELIMITER;
    }
  }

  /** Reads the two length bytes; another delimiter starts them over. */
  method ReadLength(port: SerialPort, frame: array<byte>) returns (status: Status)
    requires frame.Length == FRAME_SIZE
    modifies port`incoming, frame
    ensures status == Read ==> Header(old(port.incoming)) == Reads(frame[1..3], port.incoming)
    ensures status == TimedOut ==> Header(old(port.incoming)) == GivesUp(port.incoming)
    ensures status == Waiting ==> Header(old(port.incoming)) == Waits && port.incoming == []
    ensures forall k :: 0 <= k < FRAME_SIZE && k != 1 && k != 2 ==> frame[k] == old(frame[k])
  {
    var c := START_DELIMITER;
    var i := 0;
    while i < 2
      invariant 0 <= i <= 2 && (i == 0 ==> c == START_DELIMITER) && (i == 1 ==> c == frame[1] != START_DELIMITER)
      invariant i < 2 ==>
                  Header(if i == 0 then port.incoming else [frame[1]] + port.incoming) == Header(old(port.incoming))
      invariant i == 2 ==> Header(old(port.incoming)) == Reads(frame[1..3], port.incoming)
      invariant forall k :: 0 <= k < FRAME_SIZE && k != 1 && k != 2 ==> frame[k] == old(frame[k])
      decreases 2 - i + 2 * |port.incoming|
    {
      ghost var before := port.incoming;
      ghost var seen := if i == 0 then before else [frame[1]] + before;
      var data := port.Read(1);
      if |data| > 0 {
        c := data[0];
        assert before[0] == c && before[1..] == port.incoming;
        assert seen == (if i == 0 then [c] else [frame[1], c]) + port.incoming;
      }
      if c == START_DELIMITER {
        if |data| == 0 {
          return Waiting;
        }
        i := 0;
      } else if |data| > 0 {
        frame[1 + i] := c;
        i := i + 1;
        assert i == 2 ==> frame[1..3] == seen[..2];
      } else {
        return TimedOut;
      }
    }
    status := Read;
  }

  /** `XBAPI_ReadFrame` */
  method ReadFrame(port: SerialPort, frame: array<byte>) returns (status: Status)
    requires frame.Length == FRAME_SIZE
    modifies port`incoming, frame
    ensures Agrees(status, frame[..], port.incoming, ReadOne(old(port.incoming)))
  {
    forall k | 0 <= k < FRAME_SIZE {
      frame[k] := 0;
    }
    var found := SeekDelimiter(port);
    if !found {
      return Waiting;
    }
    frame[0] := START_DELIMITER;
    status := ReadLength(port, frame);
    if status != Read {
      return;
    }
    ghost var header, rest := frame[1..3], port.incoming;
    var length := 0x100 * (frame[1] as int) + frame[2] as int;
    length := length + 1;
    var data := port.Read(if length > FRAME_SIZE - 3 then FRAME_SIZE - 3 else length);
    CopyBytes(frame, 3, data);
    assert data == rest[..|data|] && port.incoming == rest[|data|..];
    if |data| < length {
      return TimedOut;
    }
    assert frame[..] == Padded([START_DELIMITER] + header + data);
  }

  // ----- frames between noise -----

  /** What may stand between a delimiter and the header it belongs to: another
      delimiter, or one length byte and another delimiter. */
  datatype Restart = Again | Short(x: byte)

  function RestartBytes(r: Restart): Bytes {
    match r
    case Again => [START_DELIMITER]
    case Short(x) => [x, START_DELIMITER]
  }

  function RestartsBytes(rs: seq<Restart>): Bytes {
    if rs == [] then [] else RestartBytes(rs[0]) + RestartsBytes(rs[1..])
  }

  /** One frame with the noise before it. */
  datatype Segment = Segment(noise: Bytes, restarts: seq<Restart>, frame: Bytes)

  predicate Quiet(s: Bytes) {
    forall k :: 0 <= k < |s| ==> s[k] != START_DELIMITER
  }

  /** A frame on the wire: delimiter, length, and as many bytes as it says and one. */
  predicate IsFrame(w: Bytes) {
    && 4 <= |w| <= 128 && w[0] == 0x7E
    && w[1] == 0 && w[2] == |w| - 4
  }

  predicate AreRestarts(rs: seq<Restart>) {
    forall k :: 0 <= k < |rs| ==> (rs[k].Short? ==> rs[k].x != START_DELIMITER)
  }

  predicate IsSegment(g: Segment) {
    Quiet(g.noise) && IsFrame(g.frame) && AreRestarts(g.restarts)
  }

  function SegmentBytes(g: Segment): Bytes
    requires IsFrame(g.frame)
  {
    g.noise + ([START_DELIMITER] + (RestartsBytes(g.restarts) + g.frame[1..]))
  }

  lemma {:induction false} FindSkips(noise: Bytes, s: Bytes)
    requires Quiet(noise)
    ensures Find(noise + ([START_DELIMITER] + s)) == GivesUp(s)
  {
    var all := noise + ([START_DELIMITER] + s);
    if noise == [] {
      assert all == [START_DELIMITER] + s && all[1..] == s;
    } else {
      assert all[0] == noise[0] && all[1..] == noise[1..] + ([START_DELIMITER] + s);
      FindSkips(noise[1..], s);
    }
  }

  lemma {:induction false} HeaderSkips(rs: seq<Restart>, s: Bytes)
    requires AreRestarts(rs)
    ensures Header(RestartsBytes(rs) + s) == Header(s)
  {
    var all := RestartsBytes(rs) + s;
    if rs == [] {
      assert all == s;
    } else {
      var more := RestartsBytes(rs[1..]) + s;
      HeaderSkips(rs[1..], s);
      assert all == RestartBytes(rs[0]) + more;
      if rs[0].Again? {
        assert all[0] == START_DELIMITER && all[1..] == more;
      } else {
        assert all[0] == rs[0].x && all[1] == START_DELIMITER && all[2..] == more;
      }
    }
  }

  lemma {:induction false} HeaderRestarts(rs: seq<Restart>, l: Bytes, s: Bytes)
    requires AreRestarts(rs) && |l| == 2 && Quiet(l)
    ensures Header(RestartsBytes(rs) + (l + s)) == Reads(l, s)
  {
    var all := l + s;
    HeaderSkips(rs, all);
    assert all[..2] == l && all[2..] == s && all[0] == l[0] && all[1] == l[1];
  }

  lemma BodyReads(w: Bytes, s: Bytes)
    requires IsFrame(w)
    ensures Body(w[1..3], w[3..] + s) == Reads(Padded(w), s)
  {
    var all := w[3..] + s;
    assert all[..|w| - 3] == w[3..] && all[|w| - 3..] == s;
    assert [START_DELIMITER] + w[1..3] + w[3..] == w;
  }

  /** One call returns exactly the next frame and leaves exactly what follows it. */
  lemma SegmentReads(g: Segment, s: Bytes)
    requires IsSegment(g)
    ensures ReadOne(SegmentBytes(g) + s) == Reads(Padded(g.frame), s)
  {
    var l, body := g.frame[1..3], g.frame[3..];
    var after := RestartsBytes(g.restarts) + (l + (body + s));
    assert g.frame[1..] == l + body;
    assert SegmentBytes(g) + s == g.noise + ([START_DELIMITER] + after);
    FindSkips(g.noise, after);
    HeaderRestarts(g.restarts, l, body + s);
    BodyReads(g.frame, s);
  }

  lemma {:induction false} FindNothing(noise: Bytes)
    requires Quiet(noise)
    ensures Find(noise) == Waits
  {
    if noise != [] {
      FindNothing(noise[1..]);
    }
  }

  /** Of a frame that breaks off the call makes nothing: it waits while there is noise
      or delimiters only, and gives up, with nothing left to read, once a length byte
      has come. */
  lemma {:induction false} BrokenOff(g: Segment, n: nat)
    requires IsSegment(g) && 1 <= n < |g.frame|
    ensures ReadOne(g.noise) == Waits
    ensures ReadOne(g.noise + ([0x7E] + (RestartsBytes(g.restarts) + g.frame[1..n]))) ==
            if n == 1 then Waits else GivesUp([])
  {
    var part := g.frame[1..n];
    var after := RestartsBytes(g.restarts) + part;
    FindNothing(g.noise);
    FindSkips(g.noise, after);
    HeaderSkips(g.restarts, part);
    if n > 2 {
      assert part[0] == g.frame[1] && part[1] == g.frame[2] && part[..2] == g.frame[1..3];
      assert |part[2..]| == n - 3 && part[2..][n - 3..] == [];
    }
  }

  predicate Segments(gs: seq<Segment>) {
    forall k :: 0 <= k < |gs| ==> IsSegment(gs[k])
  }

  function StreamBytes(gs: seq<Segment>): Bytes
    requires Segments(gs)
  {
    if gs == [] then [] else SegmentBytes(gs[0]) + StreamBytes(gs[1..])
  }

  function Images(gs: seq<Segment>): (images: seq<Bytes>)
    requires Segments(gs)
    ensures |images| == |gs|
  {
    if gs == [] then [] else [Padded(gs[0].frame)] + Images(gs[1..])
  }

  /** What `k` calls return, one after the other, as long as they return frames. */
  function ReadMany(k: nat, s: Bytes): (seq<Bytes>, Bytes) {
    if k == 0 then ([], s)
    else
      match ReadOne(s)
      case Reads(image, rest) => (var r := ReadMany(k - 1, rest); ([image] + r.0, r.1))
      case _ => ([], s)
  }

  /** As many calls as there are frames return exactly these, in their order. */
  lemma {:induction false} StreamReads(gs: seq<Segment>, s: Bytes)
    requires Segments(gs)
    ensures ReadMany(|gs|, StreamBytes(gs) + s) == (Images(gs), s)
  {
    if gs != [] {
      assert StreamBytes(gs) + s == SegmentBytes(gs[0]) + (StreamBytes(gs[1..]) + s);
      SegmentReads(gs[0], StreamBytes(gs[1..]) + s);
      StreamReads(gs[1..], s);
    } else {
      assert StreamBytes(gs) + s == s;
    }
  }

  /** The frames the program builds are frames, and verify when they are read back. */
  lemma SentFramesAreFrames(body: Bytes)
    requires |body| <= 124
    ensures IsFrame(Framed(body))
    ensures Sum(Padded(Framed(body))[3..4 + |body|]) % 0x100 == 0xFF
    ensures Padded(Framed(body))[3..3 + |body|] == body
  {
    FramedVerifies(body);
    var w := Framed(body);
    assert Padded(w)[3..4 + |body|] == w[3..];
    assert Padded(w)[3..3 + |body|] == w[3..|w| - 1];
  }

  // ----- frames of any length -----

  /** As `IsFrame`, but with any length the two bytes can say. */
  predicate IsLongFrame(w: Bytes) {
    4 <= |w| && w[0] == 0x7E && 0x100 * (w[1] as int) + w[2] as int == |w| - 4
  }

  lemma {:induction false} FirstDelimiter(s: Bytes)
    requires s != [] && s[0] == START_DELIMITER
    ensures ReadOne(s) == match Header(s[1..]) case Reads(length, rest) => Body(length, rest) case r => r
  {
    assert Find(s) == GivesUp(s[1..]);
  }

  /** A frame whose length field says more than the buffer holds is cut: the call
      gives up and leaves the reader inside the frame. */
  lemma {:induction false} LongFrameIsCut(w: Bytes, s: Bytes)
    requires IsLongFrame(w) && 128 < |w| && Quiet(w[1..3])
    ensures ReadOne(w + s) == GivesUp((w + s)[128..])
  {
    var body := w[3..] + s;
    assert (w + s)[1..] == RestartsBytes([]) + (w[1..3] + body);
    FirstDelimiter(w + s);
    HeaderRestarts([], w[1..3], body);
    assert body[FRAME_SIZE - 3..] == (w + s)[FRAME_SIZE..];
  }

  lemma FromSecond(x: byte, s: Bytes)
    requires s != [] && s[0] == START_DELIMITER
    ensures x == START_DELIMITER ==> Header([x] + s) == Header(s)
    ensures Header([x] + s) == Header(s[1..])
  {
    var all := [x] + s;
    assert all[0] == x && all[1] == START_DELIMITER && all[1..] == s && all[2..] == s[1..];
    assert Header(s) == Header(s[1..]);
  }

  lemma FromFirst(s: Bytes)
    requires s != [] && s[0] == START_DELIMITER
    ensures ReadOne([START_DELIMITER] + s) == ReadOne(s)
  {
    FirstDelimiter([START_DELIMITER] + s);
    assert ([START_DELIMITER] + s)[1..] == s;
    FirstDelimiter(s);
  }

  /** A start delimiter in the length field is taken for the beginning of a frame. */
  lemma {:induction false} DelimiterInLength(w: Bytes, s: Bytes)
    requires IsLongFrame(w) && !Quiet(w[1..3])
    ensures 128 < |w|
    ensures ReadOne(w + s) == ReadOne(w[if w[2] == START_DELIMITER then 2 else 1..] + s)
  {
    assert w[1..3][0] == w[1] && w[1..3][1] == w[2];
    if w[2] == START_DELIMITER {
      var rest := w[2..] + s;
      assert w + s == [START_DELIMITER] + ([w[1]] + rest);
      FirstDelimiter(w + s);
      FromSecond(w[1], rest);
      FirstDelimiter(rest);
      assert (w + s)[1..] == [w[1]] + rest;
    } else {
      assert w + s == [START_DELIMITER] + (w[1..] + s);
      FromFirst(w[1..] + s);
    }
  }

  lemma ImageFits(s: Bytes)
    ensures ReadOne(s).Reads? ==> |ReadOne(s).image| == FRAME_SIZE
  {
  }

  /** One call returns a frame and leaves what follows it exactly if the buffer has
      room for the frame. */
  lemma {:induction false} ReadExactlyWhen(w: Bytes, s: Bytes)
    requires IsLongFrame(w)
    ensures |w| <= 128 <==> ReadOne(w + s).Reads? && ReadOne(w + s).rest == s && w <= ReadOne(w + s).image
  {
    if |w| <= FRAME_SIZE {
      var g := Segment([], [], w);
      assert SegmentBytes(g) == w;
      SegmentReads(g, s);
    } else {
      ImageFits(w + s);
    }
  }
}
