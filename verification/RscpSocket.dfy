/**
 What a socket delivers: bytes in pieces of any size, with pauses between them.
 */
module RscpSocket {
  import opened CStrings
  import opened RscpText

  type Piece = s: string | s != "" witness "x"

  datatype Arrival = Bytes(data: Piece) | NothingYet | Failure

  /** All the bytes that arrive. */
  function Data(arrivals: seq<Arrival>): string {
    if arrivals == [] then ""
    else (if arrivals[0].Bytes? then arrivals[0].data else "") + Data(arrivals[1..])
  }

  predicate Uninterrupted(arrivals: seq<Arrival>) {
    forall k :: 0 <= k < |arrivals| ==> arrivals[k] != Failure
  }

  predicate Safe(s: string) {
    EndsTwice(s) ==> CString(s) && Loadable(s)
  }

  /** Nothing that ends like a message would make the loader run off a line. */
  predicate SafeToLoad(whole: string) {
    forall n :: 0 <= n <= |whole| ==> Safe(whole[..n])
  }

  datatype Received = Got(data: string) | WouldBlock | Broken | Closed

  /** What a call of `recv` with that much room delivers. */
  function Delivered(arrivals: seq<Arrival>, room: nat): Received {
    if arrivals == [] then Closed
    else
      match arrivals[0]
      case Bytes(data) => Got(if |data| <= room then data else data[..room])
      case NothingYet => WouldBlock
      case Failure => Broken
  }

  /** And what is left to come. */
  function Rest(arrivals: seq<Arrival>, room: nat): seq<Arrival> {
    if arrivals == [] then []
    else if arrivals[0].Bytes? && room < |arrivals[0].data| then [Bytes(arrivals[0].data[room..])] + arrivals[1..]
    else arrivals[1..]
  }

  lemma DeliveredAndRest(arrivals: seq<Arrival>, room: nat)
    requires room > 0
    ensures var r, rest := Delivered(arrivals, room), Rest(arrivals, room);
            && (r.Got? ==> r.data + Data(rest) == Data(arrivals) && 0 < |r.data| <= room)
            && (!r.Got? ==> Data(rest) == Data(arrivals))
            && (r.Got? || r.WouldBlock? ==> |Data(rest)| + |rest| < |Data(arrivals)| + |arrivals|)
            && (Uninterrupted(arrivals) ==> Uninterrupted(rest) && !r.Broken?)
            && (r.Closed? ==> Data(arrivals) == "")
  {
    var rest := Rest(arrivals, room);
    if arrivals != [] && arrivals[0].Bytes? && room < |arrivals[0].data| {
      var data := arrivals[0].data;
      assert rest[0] == Bytes(data[room..]) && rest[1..] == arrivals[1..];
      assert data[..room] + (data[room..] + Data(arrivals[1..])) == data + Data(arrivals[1..]);
    }
  }

  /** Later arrivals are left alone. */
  lemma RestAppend(a: seq<Arrival>, b: seq<Arrival>, room: nat)
    requires a != []
    ensures Delivered(a + b, room) == Delivered(a, room) && Rest(a + b, room) == Rest(a, room) + b
  {
    var first, rest := a[0], a[1..];
    assert (a + b)[0] == first && (a + b)[1..] == rest + b;
    if first.Bytes? && room < |first.data| {
      var cut := [Bytes(first.data[room..])];
      assert cut + (rest + b) == (cut + rest) + b;
    }
  }

  class Socket {
    var arrivals: seq<Arrival>

    constructor (arrivals: seq<Arrival>)
      ensures this.arrivals == arrivals
    {
      this.arrivals := arrivals;
    }

    /** `recv`: as much of the next piece as there is room for. */
    method Recv(room: nat) returns (r: Received)
      requires room > 0
      modifies this
      ensures r == Delivered(old(arrivals), room) && arrivals == Rest(old(arrivals), room)
    {
      if arrivals == [] {
        return Closed;
      }
      var first, rest := arrivals[0], arrivals[1..];
      match first {
        case NothingYet =>
          arrivals := rest;
          r := WouldBlock;
        case Failure =>
          arrivals := rest;
          r := Broken;
        case Bytes(data) =>
          if |data| <= room {
            arrivals := rest;
            r := Got(data);
          } else {
            arrivals := [Bytes(data[room..])] + rest;
            r := Got(data[..room]);
          }
      }
    }
  }

  /** The same, with the arrivals behind those of interest kept apart. */
  method RecvBefore(socket: Socket, room: nat, ghost left: seq<Arrival>, ghost b: seq<Arrival>)
    returns (r: Received, ghost left': seq<Arrival>)
    requires room > 0 && socket.arrivals == left + b && (left != [] || b == [])
    modifies socket
    ensures socket.arrivals == left' + b
    ensures r.Got? ==> r.data + Data(left') == Data(left) && 0 < |r.data| <= room
    ensures (!r.Got? ==> Data(left') == Data(left)) && (r.Closed? ==> Data(left) == "")
    ensures r.Got? || r.WouldBlock? ==> |Data(left')| + |left'| < |Data(left)| + |left|
    ensures Uninterrupted(left) ==> Uninterrupted(left') && !r.Broken?
  {
    r := socket.Recv(room);
    left' := Rest(left, room);
    DeliveredAndRest(left, room);
    if left != [] {
      RestAppend(left, b, room);
    } else {
      assert left + b == [];
    }
  }

  /** The bytes are those of one message: only the whole of them ends with an empty line. */
  predicate OneMessage(whole: string) {
    forall n :: 0 <= n <= |whole| ==> (EndsTwice(whole[..n]) <==> n == |whole|)
  }

  /** What follows the arrivals `a` on the connection is nothing, or comes behind one
      whole message. */
  predicate Complete(a: seq<Arrival>, b: seq<Arrival>) {
    b == [] || (OneMessage(Data(a)) && Uninterrupted(a))
  }

  /** Of what was to come `b` is left, and perhaps pauses before it. */
  predicate Remains(arrivals: seq<Arrival>, b: seq<Arrival>) {
    |b| <= |arrivals| && arrivals[|arrivals| - |b|..] == b && Data(arrivals[..|arrivals| - |b|]) == ""
  }

  /** `got` has been received of `whole`, `rest` has not. */
  predicate Split(whole: string, got: string, rest: string) {
    whole == got + rest
  }

  lemma SplitFurther(whole: string, got: string, data: string, rest: string)
    requires Split(whole, got, data + rest)
    ensures Split(whole, got + data, rest)
  {
  }

  lemma SplitIsPrefix(whole: string, got: string, rest: string)
    requires Split(whole, got, rest)
    ensures got <= whole && whole[..|got|] == got
    ensures OneMessage(whole) ==> (EndsTwice(got) <==> rest == "")
    ensures rest == "" ==> got == whole
  {
    assert whole[..|got|] == got;
    if rest == "" {
      assert got + rest == got;
    }
  }

  /** While no empty line has come, there is more of the message to come. */
  lemma MoreToCome(a: seq<Arrival>, b: seq<Arrival>, got: string, left: seq<Arrival>)
    requires Complete(a, b) && Split(Data(a), got, Data(left)) && !EndsTwice(got)
    ensures left != [] || b == []
  {
    SplitIsPrefix(Data(a), got, Data(left));
  }

  /** What has been received when it ends with an empty line, and what is left. */
  lemma SoFar(a: seq<Arrival>, b: seq<Arrival>, got: string, left: seq<Arrival>, arrivals: seq<Arrival>)
    requires Split(Data(a), got, Data(left)) && arrivals == left + b
    ensures got <= Data(a) && (OneMessage(Data(a)) && Data(left) == "" ==> EndsTwice(got))
    ensures OneMessage(Data(a)) && EndsTwice(got) ==> got == Data(a) && Remains(arrivals, b)
  {
    SplitIsPrefix(Data(a), got, Data(left));
    assert arrivals[..|left|] == left;
  }

  /** A rendered message is one, however it is cut. */
  lemma RenderedIsOneMessage(request: string, lines: seq<Line>)
    requires NoBreak(request) && NoBreaks(lines) && request != ""
    ensures OneMessage(Render(request, lines))
  {
    var whole := Render(request, lines);
    forall n | 0 <= n <= |whole| ensures EndsTwice(whole[..n]) <==> n == |whole| {
      EndsOnlyAtTheEnd(request, lines, n);
    }
  }
}
