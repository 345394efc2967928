/** The length-prefixed framing of protocol.py: a frame is a 4-byte big-endian
    unsigned length followed by exactly that many bytes of serialised message.
    JSON and UTF-8 are not modelled; a `Codec` stands for the pair
    `json.dumps(...).encode('utf-8')` / `json.loads(....decode('utf-8'))`. */
module Protocol {
  import opened Wrappers

  type Byte = b: int | 0 <= b < 256

  /** Bytes taken by the length header (`'>I'`). */
  const HeaderLength: nat := 4

  /** One more than the largest length `struct.pack('>I', ...)` accepts. */
  const LengthLimit: nat := 0x1_0000_0000

  /** The errors the codec raises: the first two come out of encoding, the
      others out of decoding. */
  datatype ProtocolError =
    | EncodingFailed   // json.dumps or the UTF-8 encoding raised
    | LengthOverflow   // struct.pack('>I', n) raised: n does not fit 32 bits
    | HeaderTooShort
    | ContentTooShort
    | ContentTooLong
    | DecodingFailed   // UTF-8 decoding or json.loads raised

  /** The text of the exception raised for each error. */
  function ErrorMessage(e: ProtocolError): string {
    match e
    case EncodingFailed => "Error encoding message to JSON"
    case LengthOverflow => "'I' format requires 0 <= number <= 4294967295"
    case HeaderTooShort => "Message is too short to contain a valid header."
    case ContentTooShort => "Message content is shorter than the specified length."
    case ContentTooLong => "Message content is longer than the specified length."
    case DecodingFailed => "Error decoding message from JSON"
  }

  /** Each error has its own text, so a caller reading the exception can
      tell which check failed. */
  lemma ErrorMessagesDistinct(a: ProtocolError, b: ProtocolError)
    ensures ErrorMessage(a) == ErrorMessage(b) <==> a == b
  {
  }

  function Pow256(k: nat): (r: nat)
    ensures r >= 1
  {
    if k == 0 then 1 else 256 * Pow256(k - 1)
  }

  /** `n` written as `k` base-256 digits, most significant first. */
  function ToBigEndian(n: nat, k: nat): (r: seq<Byte>)
    ensures |r| == k
  {
    if k == 0 then [] else ToBigEndian(n / 256, k - 1) + [n % 256]
  }

  /** The number whose big-endian base-256 digits are `b`. */
  function FromBigEndian(b: seq<Byte>): (r: nat)
    ensures r < Pow256(|b|)
  {
    if b == [] then 0 else FromBigEndian(b[..|b| - 1]) * 256 + b[|b| - 1]
  }

  /** Reading back `k` big-endian digits of a number below 256^k gives it. */
  lemma {:induction false} FromToBigEndian(n: nat, k: nat)
    requires n < Pow256(k)
    ensures FromBigEndian(ToBigEndian(n, k)) == n
  {
    if k > 0 {
      var b := ToBigEndian(n, k);
      assert b[..|b| - 1] == ToBigEndian(n / 256, k - 1);
      FromToBigEndian(n / 256, k - 1);
    }
  }

  /** Writing a digit string's value back in as many digits gives the string. */
  lemma {:induction false} ToFromBigEndian(b: seq<Byte>)
    ensures ToBigEndian(FromBigEndian(b), |b|) == b
  {
    if b != [] {
      var init := b[..|b| - 1];
      var n := FromBigEndian(b);
      assert n / 256 == FromBigEndian(init);
      assert n % 256 == b[|b| - 1];
      ToFromBigEndian(init);
      assert init + [b[|b| - 1]] == b;
    }
  }

  lemma HeaderCapacity()
    ensures Pow256(HeaderLength) == LengthLimit
  {
  }

  /** `struct.pack('>I', n)`. */
  function PackLength(n: nat): (h: seq<Byte>)
    requires n < LengthLimit
    ensures |h| == HeaderLength
    ensures h == [n / 0x100_0000, n / 0x1_0000 % 256, n / 0x100 % 256, n % 256]
  {
    var h := ToBigEndian(n, HeaderLength);
    var x := n / 256;
    var y := x / 256;
    var z := y / 256;
    assert ToBigEndian(z, 1) == [z % 256];
    assert ToBigEndian(y, 2) == [z % 256, y % 256];
    assert ToBigEndian(x, 3) == [z % 256, y % 256, x % 256];
    ByteShifts(n);
    h
  }

  lemma ByteShifts(n: nat)
    requires n < LengthLimit
    ensures n / 256 / 256 == n / 0x1_0000
    ensures n / 256 / 256 / 256 == n / 0x100_0000 < 256
  {
  }

  /** `struct.unpack('>I', h)[0]`. */
  function UnpackLength(h: seq<Byte>): (n: nat)
    requires |h| == HeaderLength
    ensures n < LengthLimit
    ensures n == h[0] as int * 0x100_0000 + h[1] as int * 0x1_0000 + h[2] as int * 0x100 + h[3] as int
  {
    HeaderCapacity();
    assert FromBigEndian(h[..1]) == h[0] by {
      assert h[..1][..0] == [];
    }
    assert FromBigEndian(h[..2]) == h[0] as int * 256 + h[1] by {
      assert h[..2][..1] == h[..1];
    }
    assert FromBigEndian(h[..3]) == (h[0] as int * 256 + h[1]) * 256 + h[2] by {
      assert h[..3][..2] == h[..2];
    }
    assert h[..4][..3] == h[..3];
    assert h[..4] == h;
    FromBigEndian(h)
  }

  /** Unpacking a packed length gives the length back. */
  lemma UnpackPackLength(n: nat)
    requires n < LengthLimit
    ensures UnpackLength(PackLength(n)) == n
  {
    HeaderCapacity();
    FromToBigEndian(n, HeaderLength);
  }

  /** Every 4-byte header is the packing of the length it unpacks to. */
  lemma PackUnpackLength(h: seq<Byte>)
    requires |h| == HeaderLength
    ensures PackLength(UnpackLength(h)) == h
  {
    ToFromBigEndian(h);
  }

  /** The framing half of `encode_message`: header then payload. */
  function Frame(payload: seq<Byte>): (r: Result<seq<Byte>, ProtocolError>)
    ensures r.Success? <==> |payload| < LengthLimit
    ensures r.Failure? ==> r.error == LengthOverflow
    ensures r.Success? ==> |r.value| == HeaderLength + |payload|
    ensures r.Success? ==> UnpackLength(r.value[..HeaderLength]) == |payload|
    ensures r.Success? ==> r.value[HeaderLength..] == payload
  {
    if |payload| < LengthLimit then
      UnpackPackLength(|payload|);
      var header := PackLength(|payload|);
      assert (header + payload)[..HeaderLength] == header;
      Success(header + payload)
    else
      Failure(LengthOverflow)
  }

  /** The framing half of `decode_message`: the buffer must hold a header and
      then exactly as many bytes as the header declares. */
  function Unframe(bytes: seq<Byte>): (r: Result<seq<Byte>, ProtocolError>)
    ensures |bytes| < HeaderLength ==> r == Failure(HeaderTooShort)
    ensures |bytes| >= HeaderLength && |bytes| < HeaderLength + UnpackLength(bytes[..HeaderLength]) ==>
              r == Failure(ContentTooShort)
    ensures |bytes| >= HeaderLength && |bytes| > HeaderLength + UnpackLength(bytes[..HeaderLength]) ==>
              r == Failure(ContentTooLong)
    ensures r.Success? ==> |bytes| == HeaderLength + |r.value| && bytes[HeaderLength..] == r.value
  {
    if |bytes| < HeaderLength then
      Failure(HeaderTooShort)
    else
      var length := UnpackLength(bytes[..HeaderLength]);
      if |bytes| < HeaderLength + length then
        Failure(ContentTooShort)
      else if |bytes| > HeaderLength + length then
        Failure(ContentTooLong)
      else
        Success(bytes[HeaderLength..HeaderLength + length])
  }

  /** Unframing a frame gives back its payload. */
  lemma UnframeFrame(payload: seq<Byte>)
    requires |payload| < LengthLimit
    ensures Unframe(Frame(payload).value) == Success(payload)
  {
  }

  /** Every buffer `Unframe` accepts is exactly the frame of what it returns:
      nothing is dropped and nothing is added. */
  lemma FrameUnframe(bytes: seq<Byte>)
    requires Unframe(bytes).Success?
    ensures Frame(Unframe(bytes).value) == Success(bytes)
  {
    var header := bytes[..HeaderLength];
    PackUnpackLength(header);
    assert bytes == header + bytes[HeaderLength..];
  }

  /** A frame cut short anywhere is rejected. */
  lemma TruncatedFrameRejected(payload: seq<Byte>, k: nat)
    requires |payload| < LengthLimit
    requires k < HeaderLength + |payload|
    ensures Unframe(Frame(payload).value[..k]).Failure?
  {
    var f := Frame(payload).value;
    if k >= HeaderLength {
      assert f[..k][..HeaderLength] == f[..HeaderLength];
    }
  }

  /** A frame followed by further bytes (a second frame arriving in the same
      read, say) is rejected as a whole. */
  lemma ExtendedFrameRejected(payload: seq<Byte>, extra: seq<Byte>)
    requires |payload| < LengthLimit
    requires extra != []
    ensures Unframe(Frame(payload).value + extra) == Failure(ContentTooLong)
  {
    var f := Frame(payload).value;
    assert (f + extra)[..HeaderLength] == f[..HeaderLength];
  }

  /** The serialiser and parser the codec is built on: `json.dumps` followed
      by UTF-8 encoding, and UTF-8 decoding followed by `json.loads`. Each
      gives `None` where the Python call raises. */
  datatype Codec<!M> = Codec(serialize: M -> Option<seq<Byte>>, parse: seq<Byte> -> Option<M>)

  /** The assumption the codec relies on: parsing what was serialised gives
      the message back. */
  ghost predicate RoundTrips<M(!new)>(c: Codec<M>) {
    forall m :: c.serialize(m).Some? ==> c.parse(c.serialize(m).value) == Some(m)
  }

  /** `encode_message`. */
  function EncodeMessage<M>(c: Codec<M>, m: M): (r: Result<seq<Byte>, ProtocolError>)
    ensures c.serialize(m).None? ==> r == Failure(EncodingFailed)
    ensures c.serialize(m).Some? ==> r == Frame(c.serialize(m).value)
  {
    match c.serialize(m)
    case None => Failure(EncodingFailed)
    case Some(payload) => Frame(payload)
  }

  /** `decode_message`. */
  function DecodeMessage<M>(c: Codec<M>, bytes: seq<Byte>): (r: Result<M, ProtocolError>)
    ensures Unframe(bytes).Failure? ==> r == Failure(Unframe(bytes).error)
    ensures Unframe(bytes).Success? && c.parse(Unframe(bytes).value).None? ==> r == Failure(DecodingFailed)
    ensures Unframe(bytes).Success? && c.parse(Unframe(bytes).value).Some? ==>
              r == Success(c.parse(Unframe(bytes).value).value)
    ensures r.Success? ==> c.parse(bytes[HeaderLength..]) == Some(r.value)
  {
    var payload :- Unframe(bytes);
    match c.parse(payload)
    case None => Failure(DecodingFailed)
    case Some(m) => Success(m)
  }

  /** An encoded message is a well-formed frame whose header counts the
      serialised bytes that follow it. */
  lemma EncodedLayout<M>(c: Codec<M>, m: M)
    requires EncodeMessage(c, m).Success?
    ensures var b := EncodeMessage(c, m).value;
            c.serialize(m).Some? &&
            |b| == HeaderLength + |c.serialize(m).value| &&
            b[..HeaderLength] == PackLength(|c.serialize(m).value|) &&
            b[HeaderLength..] == c.serialize(m).value
  {
    PackUnpackLength(EncodeMessage(c, m).value[..HeaderLength]);
  }

  /** Encoding fails exactly when serialisation fails or the serialised
      message does not fit a 32-bit length. */
  lemma EncodeFailure<M>(c: Codec<M>, m: M)
    ensures EncodeMessage(c, m).Failure? <==>
              c.serialize(m).None? || |c.serialize(m).value| >= LengthLimit
  {
  }

  /** Decoding an encoded message gives the message back, whenever the
      serialiser and parser are inverse. */
  lemma DecodeEncode<M(!new)>(c: Codec<M>, m: M)
    requires RoundTrips(c)
    requires EncodeMessage(c, m).Success?
    ensures DecodeMessage(c, EncodeMessage(c, m).value) == Success(m)
  {
    var p := c.serialize(m).value;
    UnframeFrame(p);
  }
}
