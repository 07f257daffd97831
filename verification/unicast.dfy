/** The send side of the unicast transport: the id -> endpoint directory built at construction
    and the framing, size check and lookup of UPDataReq. The socket is abstracted: a send
    either emits one datagram or fails, as decided by the `ioSucceeds` parameter. */
module Unicast {
  import opened Wrappers
  import opened JavaText
  import opened Utils

  const MAX_PDU_SIZE: nat := 512
  const FRAME_TAG: string := "UPDREQPDU"

  /** A call of UPDataReq(dest, data) by the layer above. */
  datatype Request = Request(dest: int, data: string)

  datatype Transport = Transport(self: int, directory: map<int, Endpoint>)

  datatype CreateError = NullUser | ConfigurationError | SocketError | UnknownSelf

  /** The datagram handed to the socket. */
  datatype Datagram = Datagram(host: string, port: int, frame: string)

  datatype SendOutcome = SendOutcome(ok: bool, sent: Option<Datagram>)

  /** knownEntities: every endpoint put under its id in list order, so a later entry for the
      same id replaces an earlier one. */
  function Directory(es: seq<Endpoint>): (d: map<int, Endpoint>)
    ensures forall x :: x in d ==> d[x].id == x && d[x] in es
    decreases |es|
  {
    if |es| == 0 then map[] else Directory(es[..|es| - 1])[es[|es| - 1].id := es[|es| - 1]]
  }

  /** The directory has exactly the listed ids, and each id maps to its last entry in the list. */
  lemma {:induction false} DirectoryLastWins(es: seq<Endpoint>, x: int)
    ensures x in Directory(es) <==> exists k :: 0 <= k < |es| && es[k].id == x
    ensures x in Directory(es) ==>
      exists k :: 0 <= k < |es| && es[k] == Directory(es)[x] && es[k].id == x &&
        forall m :: k < m < |es| ==> es[m].id != x
    decreases |es|
  {
    if |es| > 0 {
      var init := es[..|es| - 1];
      DirectoryLastWins(init, x);
      if exists k :: 0 <= k < |init| && init[k].id == x {
        var k :| 0 <= k < |init| && init[k].id == x;
        assert es[k] == init[k];
      }
      if exists k :: 0 <= k < |es| && es[k].id == x {
        var k :| 0 <= k < |es| && es[k].id == x;
        if k < |es| - 1 {
          assert init[k] == es[k];
        }
      }
      if x in Directory(es) && es[|es| - 1].id != x {
        var k :| 0 <= k < |init| && init[k] == Directory(init)[x] && init[k].id == x &&
          forall m :: k < m < |init| ==> init[m].id != x;
        assert es[k] == init[k];
        assert forall m :: k < m < |es| ==> es[m].id != x by {
          forall m | k < m < |es| ensures es[m].id != x {
            if m < |es| - 1 {
              assert es[m] == init[m];
            }
          }
        }
      }
    }
  }

  /** Construction: a null user is refused, the address list must load, a socket is bound
      for every listed port (the `socketsBind` parameter says whether binding succeeds), and
      the own id must be in the list. */
  function Create(userPresent: bool, self: int, addressLines: seq<string>, socketsBind: bool): (r: Result<Transport, CreateError>)
    ensures r.Success? <==>
      userPresent && LoadConfiguration(addressLines).Some? && socketsBind &&
      exists k :: 0 <= k < |LoadConfiguration(addressLines).value| && LoadConfiguration(addressLines).value[k].id == self
    ensures r.Success? ==> r.value.self == self && r.value.directory == Directory(LoadConfiguration(addressLines).value)
    ensures r == Failure(UnknownSelf) <==>
      userPresent && LoadConfiguration(addressLines).Some? &&
      (socketsBind || LoadConfiguration(addressLines).value == []) &&
      forall k :: 0 <= k < |LoadConfiguration(addressLines).value| ==> LoadConfiguration(addressLines).value[k].id != self
  {
    if !userPresent then Failure(NullUser)
    else match LoadConfiguration(addressLines)
      case None => Failure(ConfigurationError)
      case Some(es) =>
        DirectoryLastWins(es, self);
        if |es| > 0 && !socketsBind then Failure(SocketError)
        else
          var dir := Directory(es);
          if self !in dir then Failure(UnknownSelf) else Success(Transport(self, dir))
  }

  /** "UPDREQPDU <len> <data>", where len counts the characters of data. */
  function Frame(data: string): (f: string)
    ensures |f| == |FRAME_TAG| + |NatStr(|data|)| + |data| + 2
    ensures f[|f| - |data|..] == data
  {
    FRAME_TAG + " " + (NatStr(|data|) + " " + data)
  }

  /** UPDataReq on an ASCII payload (so characters and bytes coincide). */
  function DataReq(t: Transport, dest: int, data: string, ioSucceeds: bool): (r: SendOutcome)
    requires IsAscii(data)
    ensures r.ok <==> r.sent.Some?
    ensures r.ok <==> dest in t.directory && |Frame(data)| <= MAX_PDU_SIZE && ioSucceeds
    ensures r.sent.Some? ==>
      r.sent.value == Datagram(t.directory[dest].host, t.directory[dest].port, Frame(data))
  {
    if dest !in t.directory then SendOutcome(false, None)
    else
      var frame := Frame(data);
      if |frame| > MAX_PDU_SIZE then SendOutcome(false, None)
      else if !ioSucceeds then SendOutcome(false, None)
      else SendOutcome(true, Some(Datagram(t.directory[dest].host, t.directory[dest].port, frame)))
  }

  lemma TagHasNoSpace()
    ensures ' ' !in FRAME_TAG
  {
    assert forall k :: 0 <= k < |FRAME_TAG| ==> FRAME_TAG[k] != ' ';
  }

  /** The frame carries the tag, then the payload's length in decimal, then the payload:
      splitting it at its first two spaces recovers the length and the payload exactly. */
  lemma FrameDecodes(data: string)
    ensures SplitOnce(Frame(data), ' ') == [FRAME_TAG, NatStr(|data|) + " " + data]
    ensures SplitOnce(NatStr(|data|) + " " + data, ' ') == [NatStr(|data|), data]
    ensures ParseDecimal(NatStr(|data|)) == Some(|data|)
  {
    TagHasNoSpace();
    SplitOnceAt(FRAME_TAG, NatStr(|data|) + " " + data, ' ');
    LengthField(data);
    DecimalRoundTrip(|data|);
    assert IntStr(|data|) == NatStr(|data|);
  }

  lemma LengthField(data: string)
    ensures SplitOnce(NatStr(|data|) + " " + data, ' ') == [NatStr(|data|), data]
  {
    var len := NatStr(|data|);
    assert ' ' !in len by {
      assert AllDigits(len);
    }
    assert len + " " + data == len + [' '] + data;
    SplitOnceAt(len, data, ' ');
  }

  /** Different payloads give different frames. */
  lemma FrameInjective(a: string, b: string)
    requires Frame(a) == Frame(b)
    ensures a == b
  {
    FrameDecodes(a);
    FrameDecodes(b);
  }

  /** The 512-byte limit admits exactly the payloads of at most 498 characters. */
  lemma FrameFits(data: string)
    ensures |Frame(data)| <= MAX_PDU_SIZE <==> |data| <= 498
  {
    NatStrLength(|data|);
  }
}
