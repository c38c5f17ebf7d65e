/**
 `protocol_handler`: a primitive is an identifier and an optional C string, framed by a header of two 32-bit numbers
 in network byte order. The socket is the sequence of bytes delivered and not yet read.
 */
module ProtocolHandler {
  import opened Prelude

  type Byte = b: int | 0 <= b < 256
  type Word = w: int | 0 <= w < 0x1_0000_0000

  const HEADER := 8

  datatype Status = Ok | NoPrimitive | NotEnoughSpace | SendFailed | RecvFailed

  predicate NulFree(s: seq<Byte>) { forall i | 0 <= i < |s| :: s[i] != 0 }

  /** What `make_primitive` can be given: a null pointer, or a C string whose length plus one is a 32-bit number. */
  datatype Primitive = Primitive(id: Word, message: Option<seq<Byte>>)
  {
    predicate Valid() { message.Some? ==> NulFree(message.value) && |message.value| + 1 < 0x1_0000_0000 }

    function Size(): int { if message.Some? then |message.value| + 1 else 0 }
  }

  // ---------- the wire format ----------

  function Encode(w: Word): seq<Byte> {
    [w / 0x100_0000, w / 0x1_0000 % 0x100, w / 0x100 % 0x100, w % 0x100]
  }

  function Decode(b: seq<Byte>): Word
    requires |b| == 4
  {
    0x100_0000 * (b[0] as int) + 0x1_0000 * (b[1] as int) + 0x100 * (b[2] as int) + b[3]
  }

  /** Network byte order both ways. */
  lemma DecodeEncode(w: Word)
    ensures Decode(Encode(w)) == w
  {
    Digits(w);
    Digits(w / 0x100);
    Digits(w / 0x100 / 0x100);
  }

  lemma Digits(n: int)
    ensures n == 0x100 * (n / 0x100) + n % 0x100
  {
  }

  lemma EncodeDecode(b: seq<Byte>)
    requires |b| == 4
    ensures Encode(Decode(b)) == b
  {
    var w, x, y, z, u := Decode(b), b[0] as int, b[1] as int, b[2] as int, b[3] as int;
    assert w / 0x100 == 0x1_0000 * x + 0x100 * y + z && w % 0x100 == u;
    assert w / 0x1_0000 == 0x100 * x + y && w / 0x100 % 0x100 == z;
    assert w / 0x100_0000 == x && w / 0x1_0000 % 0x100 == y;
  }

  /** The first byte in which two texts differ is the smaller one of the first. */
  predicate BytesLess(a: seq<Byte>, b: seq<Byte>) {
    a != [] && b != [] && (a[0] < b[0] || (a[0] == b[0] && BytesLess(a[1..], b[1..])))
  }

  /** The most significant byte comes first: numbers are ordered as their bytes are read. */
  lemma NetworkOrder(v: Word, w: Word)
    ensures |Encode(w)| == 4 && (BytesLess(Encode(v), Encode(w)) <==> v < w)
    ensures Encode(1) == [0, 0, 0, 1] && Encode(0x0102_0304) == [1, 2, 3, 4]
  {
    DecodeEncode(v);
    DecodeEncode(w);
    assert |Encode(v)| == |Encode(w)| == 4 && Encode(1) == [0, 0, 0, 1] && Encode(0x0102_0304) == [1, 2, 3, 4];
    hide Encode, BytesLess;
    FourBytesLess(Encode(v), Encode(w));
  }

  lemma FourBytesLess(a: seq<Byte>, b: seq<Byte>)
    requires |a| == |b| == 4
    ensures BytesLess(a, b) <==> Decode(a) < Decode(b)
  {
    assert a[1..][1..] == a[2..] && a[2..][1..] == a[3..] && b[1..][1..] == b[2..] && b[2..][1..] == b[3..];
    assert BytesLess(a[3..], b[3..]) <==> a[3] < b[3];
    assert BytesLess(a[2..], b[2..]) <==> a[2] < b[2] || (a[2] == b[2] && BytesLess(a[3..], b[3..]));
    assert BytesLess(a[1..], b[1..]) <==> a[1] < b[1] || (a[1] == b[1] && BytesLess(a[2..], b[2..]));
    assert BytesLess(a, b) <==> a[0] < b[0] || (a[0] == b[0] && BytesLess(a[1..], b[1..]));
  }

  function Frame(p: Primitive): seq<Byte>
    requires p.Valid()
  {
    Encode(p.id) + Encode(p.Size()) + if p.message.Some? then p.message.value + [0] else []
  }

  /** `strncpy`: at most n bytes, up to the terminator, and zeros after it. */
  function StrNCpy(src: seq<Byte>, n: nat): (r: seq<Byte>)
    requires n <= |src|
    ensures |r| == n
  {
    if n == 0 then []
    else if src[0] == 0 then Zeros(n)
    else [src[0]] + StrNCpy(src[1..], n - 1)
  }

  function Zeros(n: nat): (r: seq<Byte>)
    ensures |r| == n && forall b | b in r :: b == 0
  {
    seq(n, _ => 0)
  }

  lemma {:induction false} StrNCpyAt(src: seq<Byte>, n: nat, k: nat)
    requires k < n <= |src|
    ensures StrNCpy(src, n)[k] == if 0 in src[..k + 1] then 0 else src[k]
  {
    if src[0] != 0 && k > 0 {
      StrNCpyAt(src[1..], n - 1, k - 1);
      assert src[..k + 1] == [src[0]] + src[1..][..k];
    }
  }

  /** A C string ends before its first terminator. */
  function CString(s: seq<Byte>): seq<Byte> {
    if s == [] || s[0] == 0 then [] else [s[0]] + CString(s[1..])
  }

  datatype Unpacked = Unpacked(status: Status, id: Word, message: seq<Byte>)

  /**
   What `unpack_primitive` does with a buffer, for a caller with room for so many bytes; the message is what it writes.
   */
  function Unpack(buffer: seq<Byte>, room: nat): Unpacked
    requires buffer == [] || (|buffer| >= HEADER && |buffer| == HEADER + Decode(buffer[4..8]))
  {
    if buffer == [] then Unpacked(NoPrimitive, 0, [])
    else
      var size := Decode(buffer[4..8]);
      if size > room then Unpacked(NotEnoughSpace, 0xffff_ffff, [])
      else Unpacked(Ok, Decode(buffer[..4]), StrNCpy(buffer[8..], size))
  }

  /** The frame at the front of a stream and the rest, if one has been delivered completely. */
  function Receive(stream: seq<Byte>): Option<(seq<Byte>, seq<Byte>)> {
    if |stream| < HEADER then None
    else
      var n := HEADER + Decode(stream[4..8]);
      if |stream| < n then None else Some((stream[..n], stream[n..]))
  }

  // ---------- one primitive ----------

  /** On the wire: the identifier, how many bytes follow the header, the string and its terminator, if there is one. */
  lemma FrameOnTheWire(p: Primitive)
    requires p.Valid()
    ensures var f, n := Frame(p), if p.message.Some? then |p.message.value| + 1 else 0;
            && |f| == 8 + n
            && p.id == 0x100_0000 * (f[0] as int) + 0x1_0000 * (f[1] as int) + 0x100 * (f[2] as int) + f[3] as int
            && n == 0x100_0000 * (f[4] as int) + 0x1_0000 * (f[5] as int) + 0x100 * (f[6] as int) + f[7] as int
            && (p.message.Some? ==> f[8..8 + |p.message.value|] == p.message.value && f[7 + n] == 0)
  {
    FrameParts(p);
    hide Frame, Encode;
    var f := Frame(p);
    if p.message.Some? {
      assert f[8..8 + |p.message.value|] == f[8..][..|p.message.value|];
      assert f[8 + |p.message.value|] == f[8..][|p.message.value|];
    }
  }

  lemma FrameParts(p: Primitive)
    requires p.Valid()
    ensures var f := Frame(p);
            && |f| == HEADER + p.Size() && Decode(f[..4]) == p.id && Decode(f[4..8]) == p.Size()
            && f[8..] == if p.message.Some? then p.message.value + [0] else []
  {
    var f := Frame(p);
    assert f[..4] == Encode(p.id) && f[4..8] == Encode(p.Size());
    DecodeEncode(p.id);
    DecodeEncode(p.Size());
  }

  lemma {:induction false} StrNCpyString(m: seq<Byte>)
    requires NulFree(m)
    ensures StrNCpy(m + [0], |m| + 1) == m + [0] && CString(m + [0]) == m
  {
    if m == [] {
      assert StrNCpy([0], 1) == Zeros(1) == [0];
    } else {
      assert m == [m[0]] + m[1..] && m[0] != 0;
      assert (m + [0])[1..] == m[1..] + [0];
      StrNCpyString(m[1..]);
    }
  }

  /**
   Unpacking a made primitive gives back identifier and message, exactly when there is room for the terminator, too.
   */
  lemma RoundTrip(p: Primitive, room: nat)
    requires p.Valid()
    ensures var f := Frame(p);
            && |f| >= HEADER && |f| == HEADER + Decode(f[4..8])
            && (Unpack(f, room).status == Ok <==> p.Size() <= room)
            && (p.Size() <= room ==>
                  && Unpack(f, room).id == p.id
                  && (p.message.Some? ==> CString(Unpack(f, room).message) == p.message.value)
                  && (p.message.None? ==> Unpack(f, room).message == []))
            && (p.Size() > room ==> Unpack(f, room) == Unpacked(NotEnoughSpace, 0xffff_ffff, []))
  {
    hide Frame, Encode, Decode;
    FrameParts(p);
    if p.message.Some? { StrNCpyString(p.message.value); }
  }

  /** Different primitives have different frames, none of which starts another. */
  lemma PrefixFree(p: Primitive, q: Primitive)
    requires p.Valid() && q.Valid() && Frame(p) <= Frame(q)
    ensures p == q
  {
    hide Frame, Encode, Decode;
    FrameParts(p);
    FrameParts(q);
    var f, g := Frame(p), Frame(q);
    assert g[..|f|] == f;
    assert f[..4] == g[..4] && f[4..8] == g[4..8] && f[8..] == g[8..];
    if p.message.Some? && q.message.Some? {
      assert (p.message.value + [0])[..|p.message.value|] == (q.message.value + [0])[..|q.message.value|];
      assert p.message.value == (p.message.value + [0])[..|p.message.value|];
      assert q.message.value == (q.message.value + [0])[..|q.message.value|];
    }
  }

  // ---------- a stream of primitives ----------

  ghost predicate AllValid(ps: seq<Primitive>) { forall p | p in ps :: p.Valid() }

  ghost function Stream(ps: seq<Primitive>): seq<Byte>
    requires AllValid(ps)
  {
    if ps == [] then [] else Frame(ps[0]) + Stream(ps[1..])
  }

  /** The frames that repeated receiving yields, and what it leaves. */
  function ReceiveAll(stream: seq<Byte>): (seq<seq<Byte>>, seq<Byte>)
    decreases |stream|
  {
    match Receive(stream)
    case None => ([], stream)
    case Some((frame, rest)) => var (frames, left) := ReceiveAll(rest); ([frame] + frames, left)
  }

  /** A complete frame is received, and nothing of what follows it. */
  lemma ReceiveFrame(p: Primitive, rest: seq<Byte>)
    requires p.Valid()
    ensures Receive(Frame(p) + rest) == Some((Frame(p), rest))
  {
    hide Frame, Encode, Decode;
    FrameParts(p);
    assert (Frame(p) + rest)[4..8] == Frame(p)[4..8];
  }

  /** Whatever is missing of a frame, it is not received. */
  lemma ReceivePart(p: Primitive, n: nat)
    requires p.Valid() && n < |Frame(p)|
    ensures Receive(Frame(p)[..n]) == None
  {
    hide Frame, Encode, Decode;
    FrameParts(p);
    if n >= HEADER { assert Frame(p)[..n][4..8] == Frame(p)[4..8]; }
  }

  /** A stream of primitives, and a part of one more, is split into just these frames. */
  lemma {:induction false} StreamSplits(ps: seq<Primitive>, last: Primitive, n: nat)
    requires AllValid(ps) && last.Valid() && n < |Frame(last)|
    ensures var (frames, left) := ReceiveAll(Stream(ps) + Frame(last)[..n]);
            && |frames| == |ps| && (forall i | 0 <= i < |ps| :: frames[i] == Frame(ps[i])) && left == Frame(last)[..n]
  {
    hide Frame, Receive;
    var part := Frame(last)[..n];
    if ps == [] {
      ReceivePart(last, n);
      assert Stream(ps) + part == part;
    } else {
      var rest := Stream(ps[1..]) + part;
      assert Stream(ps) + part == Frame(ps[0]) + rest;
      ReceiveFrame(ps[0], rest);
      StreamSplits(ps[1..], last, n);
    }
  }

  /** So the stream determines the primitives. */
  lemma StreamInjective(ps: seq<Primitive>, qs: seq<Primitive>)
    requires AllValid(ps) && AllValid(qs) && Stream(ps) == Stream(qs)
    ensures ps == qs
  {
    hide Frame, ReceiveAll, Stream;
    var some := Primitive(0, None);
    assert |Frame(some)| > 0 && Frame(some)[..0] == [] by { FrameParts(some); }
    StreamSplits(ps, some, 0);
    StreamSplits(qs, some, 0);
    assert Stream(ps) + [] == Stream(qs) + [];
    forall i | 0 <= i < |ps| ensures ps[i] == qs[i] {
      PrefixFree(ps[i], qs[i]);
    }
  }

  // ---------- the handler as an object ----------

  class ProtocolHandler {
    var buffer: array<Byte>
    var bufferLength: nat
    var incoming: seq<Byte>
    var outgoing: seq<Byte>

    ghost predicate Valid()
      reads this, buffer
    {
      bufferLength > 0 ==>
        bufferLength == buffer.Length && bufferLength >= HEADER && bufferLength == HEADER + Decode(buffer[4..8])
    }

    ghost function Contents(): seq<Byte>
      reads this, buffer
    {
      if bufferLength > 0 then buffer[..] else []
    }

    constructor (delivered: seq<Byte>)
      ensures Valid() && Contents() == [] && incoming == delivered && outgoing == []
    {
      buffer, bufferLength, incoming, outgoing := new Byte[0], 0, delivered, [];
    }

    /** Writes a number in network byte order. */
    static method PutWord(buf: array<Byte>, at: nat, w: Word)
      requires at + 4 <= buf.Length
      modifies buf
      ensures buf[..] == old(buf[..at]) + Encode(w) + old(buf[at + 4..])
    {
      buf[at], buf[at + 1] := w / 0x100_0000, w / 0x1_0000 % 0x100;
      buf[at + 2], buf[at + 3] := w / 0x100 % 0x100, w % 0x100;
    }

    method GetWord(at: nat) returns (w: Word)
      requires at + 4 <= buffer.Length
      ensures w == Decode(buffer[at..at + 4])
    {
      w := Decode(buffer[at..at + 4]);
    }

    method MakePrimitive(p: Primitive)
      requires Valid() && p.Valid()
      modifies this
      ensures Valid() && Contents() == Frame(p) && incoming == old(incoming) && outgoing == old(outgoing)
      ensures fresh(buffer)
    {
      hide Encode;
      var size := p.Size();
      bufferLength := HEADER + size;
      var buf := new Byte[bufferLength](_ => 0);
      buffer := buf;
      PutWord(buf, 0, p.id);
      PutWord(buf, 4, size);
      assert buf[..8] == Encode(p.id) + Encode(size);
      if p.message.Some? { PutString(buf, 8, p.message.value); }
      assert buf[..] == Frame(p);
      FrameParts(p);
      assert buf[4..8] == Frame(p)[4..8];
    }

    /** `strcpy` */
    static method PutString(buf: array<Byte>, at: nat, m: seq<Byte>)
      requires at + |m| + 1 == buf.Length
      modifies buf
      ensures buf[..] == old(buf[..at]) + m + [0]
    {
      for i := 0 to |m|
        invariant buf[..at] == old(buf[..at]) && buf[at..at + i] == m[..i]
      {
        buf[at + i] := m[i];
      }
      buf[at + |m|] := 0;
      assert buf[..] == buf[..at] + buf[at..at + |m|] + [buf[at + |m|]];
    }

    /** `strncpy` */
    static method CopyString(to: array<Byte>, src: seq<Byte>, n: nat)
      requires n <= to.Length && n <= |src|
      modifies to
      ensures to[..] == StrNCpy(src, n) + old(to[n..])
    {
      hide StrNCpy;
      var i, ended := 0, false;
      while i < n
        invariant 0 <= i <= n && (ended <==> 0 in src[..i])
        invariant forall k | 0 <= k < to.Length :: to[k] == if k < i then StrNCpy(src, n)[k] else old(to[k])
      {
        assert src[..i + 1] == src[..i] + [src[i]];
        StrNCpyAt(src, n, i);
        if src[i] == 0 { ended := true; }
        to[i] := if ended then 0 else src[i];
        i := i + 1;
      }
      assert to[..] == to[..n] + to[n..];
    }

    /** Writes the message into the caller's array, which keeps what it had beyond it. */
    method UnpackPrimitive(message: array<Byte>) returns (status: Status, id: Word)
      requires Valid() && message != buffer
      modifies message
      ensures var u := Unpack(Contents(), message.Length);
              && status == u.status && (status != NoPrimitive ==> id == u.id)
              && |u.message| <= message.Length && message[..] == u.message + old(message[..])[|u.message|..]
    {
      hide Decode, Encode;
      id := 0;
      if bufferLength <= 0 { return NoPrimitive, 0; }
      id := GetWord(0);
      var size := GetWord(4);
      assert Contents()[..4] == buffer[0..4] && Contents()[4..8] == buffer[4..8] && Contents()[8..] == buffer[8..];
      if size > message.Length { return NotEnoughSpace, 0xffff_ffff; }
      CopyString(message, buffer[8..], size);
      status := Ok;
    }

    /** The socket takes the first `sent` bytes, or fails. */
    method SendPrimitive(sent: int) returns (status: Status)
      requires Valid() && -1 <= sent <= bufferLength
      modifies `outgoing
      ensures outgoing == old(outgoing) + Contents()[..if sent < 0 then 0 else sent]
      ensures status == if Contents() == [] then NoPrimitive else if sent == |Contents()| then Ok else SendFailed
    {
      if bufferLength <= 0 { return NoPrimitive; }
      if sent < 0 { return SendFailed; }
      outgoing := outgoing + buffer[..sent];
      status := if sent != bufferLength then SendFailed else Ok;
    }

    /** A header is only peeked at; a frame that is not complete yet is lost. */
    method RecvPrimitive() returns (status: Status)
      requires Valid()
      modifies this
      ensures Valid() && outgoing == old(outgoing) && (status == Ok ==> fresh(buffer))
      ensures match Receive(old(incoming))
              case Some((frame, rest)) => status == Ok && Contents() == frame && incoming == rest
              case None => status == RecvFailed && incoming == if |old(incoming)| < HEADER then old(incoming) else []
    {
      bufferLength := 0;
      if |incoming| < HEADER { return RecvFailed; }
      var size := Decode(incoming[4..8]);
      bufferLength := HEADER + size;
      var got := if |incoming| < bufferLength then |incoming| else bufferLength;
      var stream := incoming;
      buffer := new Byte[bufferLength](i => if 0 <= i < got && i < |stream| then stream[i] else 0);
      incoming := incoming[got..];
      assert buffer[4..8] == stream[4..8];
      assert got == bufferLength ==> buffer[..] == stream[..got];
      status := if got != bufferLength then RecvFailed else Ok;
    }
  }
}
