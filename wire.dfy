/** The handshake record exchanged between nodes and its newline framing on the
    TCP byte stream (main.go). JSON encoding and decoding are foreign code: they
    appear as function-typed parameters, and the only facts used about them are
    the hypotheses spelled out by the predicates at the end of this module. */
module Wire {

  newtype byte = b: int | 0 <= b < 256

  /** The record delimiter, '\n'. */
  const Newline: byte := 10

  /** The only message kind the handler acts on. */
  const Hello: string := "HELLO"

  datatype Option<T> = None | Some(value: T)

  /** The Go struct Message. Go's zero value of a string is "", so a struct that
      decoding did not fill in is ZeroMessage. */
  datatype Message = Message(msgType: string, nodeId: string, addr: string)

  const ZeroMessage: Message := Message("", "", "")

  /** Framing on the sending side (`append(data, '\n')`): the record ends in
      the delimiter, everything before it is the payload, and a payload without
      a '\n' of its own gives a record holding exactly one. */
  function Frame(payload: seq<byte>): (r: seq<byte>)
    ensures |r| > 0 && r[|r| - 1] == Newline && r[..|r| - 1] == payload
    ensures Newline !in payload ==> multiset(r)[Newline] == 1
  {
    assert multiset(payload + [Newline]) == multiset(payload) + multiset([Newline]);
    payload + [Newline]
  }

  /** Position of the first '\n' in s, if there is one. */
  function FirstNewline(s: seq<byte>): (r: Option<nat>)
    ensures r.None? <==> Newline !in s
    ensures r.Some? ==> r.value < |s| && s[r.value] == Newline && Newline !in s[..r.value]
  {
    if s == [] then None
    else if s[0] == Newline then Some(0)
    else
      match FirstNewline(s[1..])
      case None => None
      case Some(i) =>
        assert s[..i + 1] == [s[0]] + s[1..][..i];
        Some(i + 1)
  }

  /** What a read of one record from a connection produced: the bytes up to and
      including the delimiter, or an error (EOF before any '\n', or a failed read). */
  datatype ReadOutcome = Received(data: seq<byte>) | ReadError

  /** bufio.Reader.ReadString('\n') over all the bytes a peer sent before closing:
      it succeeds exactly when a '\n' arrives, and then yields the shortest prefix
      that ends in '\n'. */
  function ReadString(stream: seq<byte>): (r: ReadOutcome)
    ensures r.Received? <==> Newline in stream
    ensures r.Received? ==>
              0 < |r.data| <= |stream| && r.data == stream[..|r.data|]
              && r.data[|r.data| - 1] == Newline && Newline !in r.data[..|r.data| - 1]
  {
    match FirstNewline(stream)
    case None => ReadError
    case Some(i) =>
      assert stream[..i + 1][..i] == stream[..i];
      Received(stream[..i + 1])
  }

  /** Framing and reading are inverse: whatever follows a framed payload that has
      no '\n' of its own, ReadString yields exactly the frame. */
  lemma {:induction false} ReadFramed(payload: seq<byte>, rest: seq<byte>)
    requires Newline !in payload
    ensures ReadString(Frame(payload) + rest) == Received(Frame(payload))
  {
    var stream := Frame(payload) + rest;
    var r := ReadString(stream);
    assert stream[|payload|] == Newline;
    assert r.Received?;
    assert r.data == stream[..|payload| + 1] == Frame(payload);
  }

  /** Which decoding error json.Unmarshal reported, if any: a record that is not
      JSON at all, or a JSON value of the wrong type for some field. */
  datatype DecodeError = SyntaxError | TypeMismatch

  /** json.Unmarshal into a zero Message: the value left in the struct, and the
      error it returned (which handleConnection discards). */
  datatype Decoded = Decoded(msg: Message, err: Option<DecodeError>)

  /** Hypothesis on the foreign JSON codec: a marshalled record contains no raw
      '\n' (control characters inside strings are escaped, output is compact),
      and unmarshalling a framed record gives back the Message without error. */
  ghost predicate CodecRoundTrips(marshal: Message -> seq<byte>, unmarshal: seq<byte> -> Decoded)
  {
    forall m: Message :: Newline !in marshal(m) && unmarshal(Frame(marshal(m))) == Decoded(m, None)
  }

  /** Hypothesis on json.Unmarshal: input that is not well-formed JSON is
      rejected before any field is written, so the struct keeps its zero value. */
  ghost predicate SyntaxErrorLeavesZero(unmarshal: seq<byte> -> Decoded)
  {
    forall data: seq<byte> :: unmarshal(data).err == Some(SyntaxError) ==> unmarshal(data).msg == ZeroMessage
  }
}
