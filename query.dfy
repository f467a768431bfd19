/**
 * The A2S_INFO exchange of `query`: the request datagram it sends, and
 * what it does with the datagram that comes back — keep what fits in the
 * 1024-byte receive buffer, check the single-packet frame header (-1 as a
 * little-endian i32) and decode the rest as a reply body.  The socket is a
 * parameter: the reply datagram is given, the request is returned.
 */
module Query {
  import opened Bytes
  import opened Wire
  import opened Reply
  import opened Decoder
  import opened ReplyLemmas

  /** The frame header value of a reply that fits in one datagram. */
  const SinglePacket: int32 := -1

  /** The four bytes of -1 as a little-endian i32, in front of every single-packet datagram. */
  const FrameHeader: seq<byte> := [0xFF, 0xFF, 0xFF, 0xFF]

  /** The A2S_INFO request type, 'T'. */
  const InfoRequestType: byte := 0x54

  const QueryString: Text := Ascii("Source Engine Query")

  /** The A2S_INFO request: frame header, request type, the query string and its terminator. */
  const Request: seq<byte> := FrameHeader + [InfoRequestType] + QueryString + [0]

  /** The size of the buffer a reply datagram is received into. */
  const ReceiveBufferSize: nat := 1024

  /** Builds the request the way `query` does, with two `put_slice` calls. */
  method BuildRequest() returns (buf: seq<byte>)
    ensures buf == Request
  {
    buf := [];
    buf := buf + FrameHeader + [InfoRequestType];
    buf := buf + QueryString + [0];
  }

  /**
   * The body of a single-packet datagram.  A datagram whose first four
   * bytes are not FF FF FF FF (a split reply, say) is refused with the
   * value they hold; one shorter than four bytes is truncated.
   */
  function Unframe(d: seq<byte>): (r: Result<seq<byte>>)
    ensures |d| < 4 ==> r == Err(Truncated)
    ensures r.Ok? <==> |d| >= 4 && d[..4] == FrameHeader
    ensures r.Ok? ==> d == FrameHeader + r.value
    ensures |d| >= 4 && r.Err? ==> r.error == UnknownFrameHeader(I32Le(d[..4]))
  {
    var h :- I32(d);
    MinusOneLayout(d[..4]);
    if h.value == SinglePacket then Ok(h.rest) else Err(UnknownFrameHeader(h.value))
  }

  /** What `query` returns for the bytes it received. */
  ghost function Receive(received: seq<byte>): (r: Result<ServerInfo>) {
    var body :- Unframe(received);
    Decode(body)
  }

  /** The bytes of a datagram that a receive into the reply buffer keeps. */
  function Received(datagram: seq<byte>): (b: seq<byte>)
    ensures |b| == if |datagram| <= ReceiveBufferSize then |datagram| else ReceiveBufferSize
    ensures b == datagram[..|b|]
  {
    if |datagram| <= ReceiveBufferSize then datagram else datagram[..ReceiveBufferSize]
  }

  /** The handling of the received bytes in `query`: frame check, then `from_bytes`. */
  method HandleReply(received: seq<byte>) returns (r: Result<ServerInfo>)
    ensures r == Receive(received)
  {
    var cur := new Cursor(received);
    var header :- cur.GetI32();
    if header != SinglePacket {
      return Err(UnknownFrameHeader(header));
    }
    var body := cur.Rest();
    r := FromBytes(body);
  }

  /**
   * One A2S_INFO exchange with the transport taken out: returns the
   * request sent and the outcome for the datagram `reply` that came back.
   */
  method QueryOnce(reply: seq<byte>) returns (request: seq<byte>, r: Result<ServerInfo>)
    ensures request == Request
    ensures r == Receive(Received(reply))
  {
    request := BuildRequest();
    var recbuf := Received(reply);
    r := HandleReply(recbuf);
  }

  /** The query string is 19 bytes with no zero byte among them. */
  lemma QueryStringLayout()
    ensures |QueryString| == 19 && 0 !in QueryString
  {
  }

  /**
   * The request is 25 bytes: the single-packet frame header, the A2S_INFO
   * type byte 'T' and the NUL-terminated string "Source Engine Query".
   */
  lemma RequestLayout()
    ensures |Request| == 25
    ensures Unframe(Request) == Ok(Request[4..])
    ensures Request[4] == InfoRequestType
    ensures Str(Request[5..]) == Ok(Parsed(QueryString, []))
  {
    QueryStringLayout();
    assert Request[..4] == FrameHeader;
    assert Request[5..] == QueryString + [0] + [];
    StrIff(Request[5..], QueryString, []);
  }

  /**
   * A single-packet datagram is decoded from its body as far as the
   * receive buffer holds it: the first 1020 bytes of the body at most.
   */
  lemma ReceiveBuffered(body: seq<byte>)
    ensures Receive(Received(FrameHeader + body))
         == Decode(if 4 + |body| <= ReceiveBufferSize then body else body[..ReceiveBufferSize - 4])
  {
    var kept := Received(FrameHeader + body);
    var part := if 4 + |body| <= ReceiveBufferSize then body else body[..ReceiveBufferSize - 4];
    assert kept == FrameHeader + part;
    assert kept[..4] == FrameHeader;
  }

  /**
   * A reply datagram for `info` decodes back to `info` when it fits in the
   * receive buffer; when it does not, the part kept is reported truncated.
   */
  lemma ReplyThroughBuffer(info: ServerInfo, edf: byte)
    requires Encodable(info, edf)
    ensures var datagram := FrameHeader + Encode(info, edf);
      Receive(Received(datagram))
      == if |datagram| <= ReceiveBufferSize then Ok(info) else Err(Truncated)
  {
    ReceiveBuffered(Encode(info, edf));
    if 4 + |Encode(info, edf)| <= ReceiveBufferSize {
      RoundTrip(info, edf);
    } else {
      EncodingCutShort(info, edf, ReceiveBufferSize - 4);
    }
  }
}
