/**
  The agent's framing: two zero bytes, four bytes of payload size, one byte of
  message type, then the payload. Sends may be partial, and a frame may arrive in
  any pieces.
 */
module Framing {
  import opened Json

  const HEAD_LENGTH: nat := 7
  const MAX_INPUT_BUFFER: nat := 2048

  type Byte = x: int | 0 <= x < 0x100

  // ----- Frames

  function Head(size: nat, kind: Byte): (head: seq<Byte>)
    requires size < 0x1_0000_0000
    ensures |head| == HEAD_LENGTH
  {
    [0, 0, size / 0x100_0000, size / 0x1_0000 % 0x100, size / 0x100 % 0x100, size % 0x100, kind]
  }

  function Frame(payload: seq<Byte>, kind: Byte): seq<Byte>
    requires |payload| < 0x1_0000_0000
  {
    Head(|payload|, kind) + payload
  }

  // A sum in a signed integer of 32 bits.
  function Signed(n: int): (r: int)
    ensures -0x8000_0000 <= r < 0x8000_0000
    ensures -0x8000_0000 <= n < 0x8000_0000 ==> r == n
  {
    (n + 0x8000_0000) % 0x1_0000_0000 - 0x8000_0000
  }

  // The size as the receiver reads it.
  function SizeField(b: seq<Byte>): int
    requires |b| >= 6
  {
    Signed(b[2] as int * 0x100_0000 + b[3] as int * 0x1_0000 + b[4] as int * 0x100 + b[5] as int)
  }

  // How many bytes the receiver takes the frame to have.
  function Needed(b: seq<Byte>): int
    requires |b| >= 6
  {
    Signed(SizeField(b) + HEAD_LENGTH)
  }

  // Any bytes that start like a frame tell its size, even without the type.
  lemma {:induction false} SizeOfFrame(payload: seq<Byte>, kind: Byte, b: seq<Byte>)
    requires |payload| < 0x1_0000_0000 && |b| >= 6 && b[..6] == Frame(payload, kind)[..6]
    ensures SizeField(b) == Signed(|payload|)
    ensures SizeField(b) == |payload| <==> |payload| < 0x8000_0000
  {
    var n, f := |payload|, Frame(payload, kind);
    assert forall i :: 0 <= i < 6 ==> b[i] == b[..6][i] == f[..6][i] == f[i];
    assert n / 0x100 == n / 0x1_0000 * 0x100 + n / 0x100 % 0x100;
    assert n / 0x1_0000 == n / 0x100_0000 * 0x100 + n / 0x1_0000 % 0x100;
  }

  // Two zero bytes, the size with the most significant byte first, the type, the payload.
  lemma {:induction false} FrameBytes(payload: seq<Byte>, kind: Byte)
    requires |payload| < 0x1_0000_0000
    ensures var f := Frame(payload, kind);
            && |f| == 7 + |payload| && f[0] == 0 && f[1] == 0
            && f[2] as int * 0x100_0000 + f[3] as int * 0x1_0000 + f[4] as int * 0x100 + f[5] as int == |payload|
            && f[6] == kind && f[7..] == payload
  {
    var n := |payload|;
    assert n / 0x100 == n / 0x1_0000 * 0x100 + n / 0x100 % 0x100;
    assert n / 0x1_0000 == n / 0x100_0000 * 0x100 + n / 0x1_0000 % 0x100;
  }

  // The size field is that sum as an int of 32 bits in two's complement, and the
  // frame needs seven bytes more, in the same arithmetic.
  lemma {:induction false} SizeFieldBytes(b: seq<Byte>)
    requires |b| >= 6
    ensures var sum := b[2] as int * 0x100_0000 + b[3] as int * 0x1_0000 + b[4] as int * 0x100 + b[5] as int;
            && SizeField(b) == (if sum < 0x8000_0000 then sum else sum - 0x1_0000_0000)
            && Needed(b) == (if 0x7FFF_FFF9 <= SizeField(b) then SizeField(b) + 7 - 0x1_0000_0000 else SizeField(b) + 7)
  {
  }

  // pack_msg
  method PackMessage(inbuf: array<Byte>, len: nat, outbuf: array<Byte>, kind: Byte) returns (n: nat)
    requires len <= inbuf.Length && HEAD_LENGTH + len <= outbuf.Length && len < 0x1_0000_0000 && inbuf != outbuf
    modifies outbuf
    ensures n == 7 + len && outbuf[..n] == Frame(inbuf[..len], kind)
    ensures outbuf[0] == 0 && outbuf[1] == 0
    ensures outbuf[2] as int * 0x100_0000 + outbuf[3] as int * 0x1_0000 + outbuf[4] as int * 0x100 + outbuf[5] as int
         == len
    ensures outbuf[6] == kind && outbuf[7..7 + len] == inbuf[..len]
    ensures outbuf[n..] == old(outbuf[n..])
  {
    FrameBytes(inbuf[..len], kind);
    var head := Head(len, kind);
    for i := 0 to HEAD_LENGTH
      invariant outbuf[..i] == head[..i]
      invariant outbuf[HEAD_LENGTH + len..] == old(outbuf[HEAD_LENGTH + len..])
    {
      outbuf[i] := head[i];
    }
    for i := 0 to len
      invariant outbuf[..HEAD_LENGTH + i] == head + inbuf[..i]
      invariant outbuf[HEAD_LENGTH + len..] == old(outbuf[HEAD_LENGTH + len..])
    {
      outbuf[HEAD_LENGTH + i] := inbuf[i];
    }
    n := HEAD_LENGTH + len;
    ghost var f := outbuf[..n];
    assert f == Frame(inbuf[..len], kind) && outbuf[7..7 + len] == f[7..];
    assert forall i :: 0 <= i < 7 ==> outbuf[i] == f[i];
  }

  // ----- The socket

  class Socket {
    var accepts: seq<int>         // what send takes, call by call; negative for an error
    var sent: seq<Byte>
    var arrivals: seq<seq<Byte>>  // what recv delivers, call by call; nothing on an error

    constructor (accepts: seq<int>, arrivals: seq<seq<Byte>>)
      ensures this.accepts == accepts && this.arrivals == arrivals && sent == []
    {
      this.accepts, this.arrivals, sent := accepts, arrivals, [];
    }

    // send: some of the bytes on offer, none of them, or -1.
    method Send(buf: array<Byte>, from: nat, count: nat) returns (n: int)
      requires from + count <= buf.Length && count > 0
      modifies this`accepts, this`sent
      ensures n == Taken(old(accepts), count)
      ensures accepts == if old(accepts) == [] then [] else old(accepts)[1..]
      ensures sent == old(sent) + if n > 0 then buf[from..from + n] else []
    {
      n := Taken(accepts, count);
      if n > 0 {
        sent := sent + buf[from..from + n];
      }
      if accepts != [] {
        accepts := accepts[1..];
      }
    }

    // recv: one piece, or -1 (which stands for the end of the stream, too).
    method Recv(buf: array<Byte>, at: nat) returns (n: int)
      requires arrivals != [] ==> at + |arrivals[0]| <= buf.Length
      modifies this`arrivals, buf
      ensures n == if old(arrivals) == [] || old(arrivals)[0] == [] then -1 else |old(arrivals)[0]|
      ensures arrivals == if old(arrivals) == [] then [] else old(arrivals)[1..]
      ensures n > 0 ==> buf[..] == Overlay(old(buf[..]), at, old(arrivals)[0])
      ensures n == -1 ==> buf[..] == old(buf[..])
    {
      if arrivals == [] {
        return -1;
      }
      var piece := arrivals[0];
      arrivals := arrivals[1..];
      for i := 0 to |piece|
        invariant arrivals == old(arrivals)[1..]
        invariant buf[..] == old(buf[..at]) + piece[..i] + old(buf[at + i..])
      {
        buf[at + i] := piece[i];
      }
      n := if piece == [] then -1 else |piece|;
    }
  }

  function Taken(accepts: seq<int>, count: nat): (n: int)
    ensures n == -1 || 0 <= n <= count
  {
    if accepts == [] || accepts[0] < 0 then -1 else if accepts[0] < count then accepts[0] else count
  }

  function Overlay(b: seq<Byte>, at: nat, piece: seq<Byte>): (r: seq<Byte>)
    requires at + |piece| <= |b|
    ensures |r| == |b|
  {
    b[..at] + piece + b[at + |piece|..]
  }

  lemma {:induction false} OverlayTwice(b: seq<Byte>, first: seq<Byte>, second: seq<Byte>)
    requires |first| + |second| <= |b|
    ensures Overlay(Overlay(b, 0, first), |first|, second) == Overlay(b, 0, first + second)
  {
  }

  // ----- Sending

  // How many of left bytes go out before send fails, if it does.
  function Carried(accepts: seq<int>, left: nat): (n: nat)
    ensures n <= left
    decreases |accepts|
  {
    var n := Taken(accepts, left);
    if left == 0 || n == -1 then 0 else n + Carried(accepts[1..], left - n)
  }

  // send_tcp_all: everything goes out, or a proper prefix does and -1 says so.
  method SendAll(socket: Socket, buf: array<Byte>, len: nat) returns (status: int)
    requires len <= buf.Length
    modifies socket
    ensures socket.sent == old(socket.sent) + buf[..Carried(old(socket.accepts), len)]
    ensures status == if Carried(old(socket.accepts), len) == len then 0 else -1
    ensures socket.arrivals == old(socket.arrivals)
  {
    var total: nat, left: nat, n := 0, len, 0;
    while total < len
      invariant total + left == len && n != -1
      invariant socket.sent == old(socket.sent) + buf[..total]
      invariant Carried(old(socket.accepts), len) == total + Carried(socket.accepts, left)
      invariant socket.arrivals == old(socket.arrivals)
      decreases |socket.accepts|
    {
      n := socket.Send(buf, total, left);
      if n == -1 {
        break;
      }
      assert buf[..total] + buf[total..total + n] == buf[..total + n];
      total := total + n;
      left := left - n;
    }
    status := if n == -1 then -1 else 0;
  }

  // With any positive takes, as many as bytes, everything goes out.
  lemma {:induction false} EverythingGoesOut(accepts: seq<int>, left: nat)
    requires |accepts| >= left && forall i :: 0 <= i < |accepts| ==> accepts[i] > 0
    ensures Carried(accepts, left) == left
    decreases left
  {
    if left > 0 {
      EverythingGoesOut(accepts[1..], left - Taken(accepts, left));
    }
  }

  // ----- Receiving

  function Stream(pieces: seq<seq<Byte>>): seq<Byte> {
    if pieces == [] then [] else pieces[0] + Stream(pieces[1..])
  }

  // Pieces are read until need bytes are there; None when they end before.
  function Received(pieces: seq<seq<Byte>>, total: nat, need: int): (r: Option<nat>)
    ensures r.Some? ==> total <= r.value <= total + |Stream(pieces)| && r.value >= need
  {
    if total >= need then Some(total)
    else if pieces == [] || pieces[0] == [] then None
    else Received(pieces[1..], total + |pieces[0]|, need)
  }

  // read_response on a buffer that holds b: the size field is read after the first
  // piece, whether or not that has reached it.
  function Response(b: seq<Byte>, pieces: seq<seq<Byte>>): (r: Option<nat>)
    requires |b| >= 6 && |Stream(pieces)| <= |b|
    ensures r.Some? ==> r.value <= |Stream(pieces)|
  {
    if pieces == [] || pieces[0] == [] then None
    else Received(pieces[1..], |pieces[0]|, Needed(Overlay(b, 0, pieces[0])))
  }

  lemma {:induction false} FirstPiece(pieces: seq<seq<Byte>>, total: nat, need: int)
    requires pieces != []
    ensures Stream(pieces) == pieces[0] + Stream(pieces[1..])
    ensures Received(pieces, total, need)
         == if total >= need then Some(total)
            else if pieces[0] == [] then None
            else Received(pieces[1..], total + |pieces[0]|, need)
  {
  }

  lemma {:induction false} NoPieces()
    ensures Stream([]) == []
    ensures forall total: nat, need: int ::
              Received([], total, need) == if total >= need then Some(total) else None
  {
  }

  // The loop: more pieces behind those that make up head, until need bytes are there.
  method ReadMore(socket: Socket, buf: array<Byte>, need: int, ghost was: seq<Byte>, ghost head: seq<Byte>, first: nat)
    returns (n: int)
    requires first == |head| && |was| == buf.Length && first + |Stream(socket.arrivals)| <= buf.Length
    requires buf[..] == Overlay(was, 0, head)
    modifies socket`arrivals, buf
    ensures var r := Received(old(socket.arrivals), first, need);
            && n == (if r.Some? then r.value else -1)
            && (r.Some? ==> buf[..] == Overlay(was, 0, (head + Stream(old(socket.arrivals)))[..r.value]))
  {
    hide Overlay, Received, Stream;
    ghost var pieces, all := socket.arrivals, head + Stream(socket.arrivals);
    NoPieces();
    var total: nat := first;
    assert all[..total] == head;
    while total < need
      invariant total <= |all| && all == all[..total] + Stream(socket.arrivals)
      invariant buf[..] == Overlay(was, 0, all[..total])
      invariant Received(pieces, first, need) == Received(socket.arrivals, total, need)
      decreases |socket.arrivals|
    {
      ghost var rest := socket.arrivals;
      if rest != [] {
        FirstPiece(rest, total, need);
      }
      var recvd := socket.Recv(buf, total);
      if recvd <= 0 {
        return -1;
      }
      OverlayTwice(was, all[..total], rest[0]);
      assert all[..total + recvd] == all[..total] + rest[0];
      total := total + recvd;
    }
    ReceivedAlready(socket.arrivals, total, need);
    n := total;
  }

  method ReadResponse(socket: Socket, buf: array<Byte>) returns (n: int)
    requires buf.Length >= 6 && |Stream(socket.arrivals)| <= buf.Length
    modifies socket`arrivals, buf
    ensures var r := Response(old(buf[..]), old(socket.arrivals));
            && n == (if r.Some? then r.value else -1)
            && (r.Some? ==> buf[..] == Overlay(old(buf[..]), 0, Stream(old(socket.arrivals))[..r.value]))
  {
    hide Overlay, Received, Needed;
    ghost var was, pieces := buf[..], socket.arrivals;
    var recvd := socket.Recv(buf, 0);
    if recvd <= 0 {
      return -1;
    }
    n := ReadMore(socket, buf, Needed(buf[..]), was, pieces[0], recvd);
  }

  lemma {:induction false} ReceivedAlready(pieces: seq<seq<Byte>>, total: nat, need: int)
    requires total >= need
    ensures Received(pieces, total, need) == Some(total)
  {
  }

  // ----- The handler

  // handle_response_message: the type, and the payload in a cleared buffer.
  method HandleResponse(buf: array<Byte>) returns (kind: Byte, temp: array<Byte>)
    requires 6 < buf.Length
    requires 0 <= SizeField(buf[..]) <= MAX_INPUT_BUFFER && HEAD_LENGTH + SizeField(buf[..]) <= buf.Length
    ensures fresh(temp) && temp.Length == MAX_INPUT_BUFFER && kind == buf[6]
    ensures var size := SizeField(buf[..]);
            temp[..] == buf[7..7 + size] + seq(2048 - size, _ => 0)
  {
    temp := new Byte[MAX_INPUT_BUFFER](_ => 0);
    var size := SizeField(buf[..]);
    for i := 0 to size
      invariant temp[..i] == buf[HEAD_LENGTH..HEAD_LENGTH + i]
      invariant forall j :: i <= j < temp.Length ==> temp[j] == 0
    {
      temp[i] := buf[HEAD_LENGTH + i];
    }
    kind := buf[6];
  }

  // ----- Delivery

  // Where a stream ends with the read that reaches need.
  ghost predicate EndsWith(pieces: seq<seq<Byte>>, total: nat, need: int) {
    && need <= total + |Stream(pieces)|
    && forall i :: 0 <= i < |pieces| ==> total + |Stream(pieces[..i])| < need
  }

  // Reading takes the whole stream exactly if every piece was still needed.
  lemma {:induction false} WholeStreamRead(pieces: seq<seq<Byte>>, total: nat, need: int)
    requires forall i :: 0 <= i < |pieces| ==> pieces[i] != []
    ensures Received(pieces, total, need) == Some(total + |Stream(pieces)|) <==> EndsWith(pieces, total, need)
  {
    if pieces != [] {
      var rest, t := pieces[1..], total + |pieces[0]|;
      assert Stream(pieces[..0]) == [];
      forall i | 0 < i <= |pieces|
        ensures total + |Stream(pieces[..i])| == t + |Stream(rest[..i - 1])|
      {
        assert pieces[..i][1..] == rest[..i - 1];
      }
      assert forall i :: 0 <= i < |rest| ==> rest[i] == pieces[i + 1];
      WholeStreamRead(rest, t, need);
      if EndsWith(pieces, total, need) {
        forall i | 0 <= i < |rest|
          ensures t + |Stream(rest[..i])| < need
        {
          assert total + |Stream(pieces[..i + 1])| < need;
        }
      }
      if EndsWith(rest, t, need) && total < need {
        forall i | 0 <= i < |pieces|
          ensures total + |Stream(pieces[..i])| < need
        {
          if i > 0 {
            assert t + |Stream(rest[..i - 1])| < need;
          }
        }
      }
    }
  }

  lemma {:induction false} StreamParts(pieces: seq<seq<Byte>>, i: nat)
    requires i <= |pieces| && forall j :: 0 <= j < |pieces| ==> pieces[j] != []
    ensures |Stream(pieces[..i])| <= |Stream(pieces)|
    ensures i < |pieces| ==> |Stream(pieces[..i])| < |Stream(pieces)|
  {
    if i > 0 {
      assert pieces[..i][1..] == pieces[1..][..i - 1];
      StreamParts(pieces[1..], i - 1);
    }
  }

  // A frame of 2 to the 31st bytes or more is taken for one of at most 6.
  lemma {:induction false} SizeSeen(b: seq<Byte>, first: seq<Byte>, rest: seq<Byte>, payload: seq<Byte>, kind: Byte)
    requires |payload| < 0x1_0000_0000 && first + rest == Frame(payload, kind) && 6 <= |first| <= |b|
    ensures var n, need := HEAD_LENGTH + |payload|, Needed(Overlay(b, 0, first));
            if n < 0x8000_0000 then need == n else need <= 6
  {
    var seen := Overlay(b, 0, first);
    assert seen[..6] == first[..6] == (first + rest)[..6];
    SizeOfFrame(payload, kind, seen);
  }

  // A frame that arrives in pieces is read as it was sent if the first piece holds
  // the size, unless an int cannot count its bytes. Otherwise it is only if what
  // the buffer held before happens to fit.
  lemma {:induction false} FrameArrives(b: seq<Byte>, pieces: seq<seq<Byte>>, payload: seq<Byte>, kind: Byte)
    requires |payload| < 0x1_0000_0000 && Stream(pieces) == Frame(payload, kind) && |Frame(payload, kind)| <= |b|
    requires forall i :: 0 <= i < |pieces| ==> pieces[i] != []
    ensures |pieces| > 0 && |pieces[0]| <= |b|
    ensures var need := Needed(Overlay(b, 0, pieces[0]));
            Response(b, pieces) == Some(|Frame(payload, kind)|) <==> EndsWith(pieces[1..], |pieces[0]|, need)
    ensures |pieces[0]| >= 6 ==>
              (Response(b, pieces) == Some(|Frame(payload, kind)|)
               <==> |Frame(payload, kind)| < 0x8000_0000 || |pieces| == 1)
  {
    hide Needed, Overlay, Received, Head;
    var f, first, rest := Frame(payload, kind), pieces[0], pieces[1..];
    WholeStreamRead(rest, |first|, Needed(Overlay(b, 0, first)));
    if |first| >= 6 {
      SizeSeen(b, first, Stream(rest), payload, kind);
      forall i | 0 <= i < |rest|
        ensures |first| + |Stream(rest[..i])| < |f|
      {
        StreamParts(rest, i);
      }
      assert rest != [] ==> Stream(rest[..0]) == [];
    }
  }

  // What the handler takes from the buffer is what was packed.
  lemma {:induction false} FrameHandled(b: seq<Byte>, payload: seq<Byte>, kind: Byte)
    requires |payload| < 0x8000_0000 && |Frame(payload, kind)| <= |b|
    ensures var r := Overlay(b, 0, Frame(payload, kind));
            && SizeField(r) == |payload| && r[6] == kind
            && r[HEAD_LENGTH..HEAD_LENGTH + |payload|] == payload
  {
    var f := Frame(payload, kind);
    var r := Overlay(b, 0, f);
    assert r[..6] == f[..6];
    SizeOfFrame(payload, kind, r);
    assert r[6] == f[6];
  }

  // A first piece of one byte: the size is taken from what the buffer held, and
  // the read stops in the middle of the frame.
  lemma {:induction false} ShortFirstPiece()
    ensures var f := Frame([1, 2, 3], 0);
            && Stream([f[..1], f[1..7], f[7..]]) == f
            && Response(seq(10, _ => 0), [f[..1], f[1..7], f[7..]]) == Some(7)
  {
    var f, b := Frame([1, 2, 3], 0), seq<Byte>(10, _ => 0);
    var two: seq<seq<Byte>> := [f[1..7], f[7..]];
    var pieces := [f[..1]] + two;
    assert pieces == [f[..1], f[1..7], f[7..]] && pieces[1..] == two;
    assert two[1..] == [f[7..]] && Stream(two[1..]) == f[7..];
    assert Stream(two) == f[1..];
    assert Overlay(b, 0, f[..1]) == b;
    assert SizeField(b) == 0;
    assert Received(two, 1, 7) == Received(two[1..], 7, 7) == Some(7);
  }
}
