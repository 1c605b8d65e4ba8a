/**
 * The receiver of client/Client.py: `calc_checksum`, `verify_checksum`, and
 * the receive loop of `main`, which checks each inbound message, replies
 * ACK or NACK, stores verified fragments in a fixed array of slots and
 * writes the file once every slot is filled.
 */
module Client {
  import opened Bytes
  import opened InternetChecksum
  import opened HeaderCodec
  import opened Protocol

  /** `calc_checksum(file)`: the same word loop as the sender's `checksum`. */
  method CalcChecksum(file: seq<uint8>) returns (r: uint16)
    ensures r == Checksum(file)
  {
    var data := file;
    if |data| % 2 != 0 {
      data := data + [0];
    }
    var sum: nat := 0;
    var i := 0;
    while i < |data|
      invariant 0 <= i <= |data| && i % 2 == 0
      invariant sum == RunningSum(data[..i])
    {
      var word := data[i] as nat * 256 + data[i + 1];
      RunningSumStep(data, i);
      assert word == BigEndian16(data[i], data[i + 1]);
      sum := sum + word;
      assert sum % 0x1_0000 + sum / 0x1_0000 == Fold(sum);
      sum := sum % 0x1_0000 + sum / 0x1_0000;
      i := i + 2;
    }
    assert data[..i] == data;
    r := 0xFFFF - sum;
  }

  /** `verify_checksum(file, received_checksum)`: exact equality, no near misses. */
  method VerifyChecksum(file: seq<uint8>, receivedChecksum: uint16) returns (ok: bool)
    ensures ok <==> receivedChecksum == Checksum(file)
  {
    var calculatedChecksum := CalcChecksum(file);
    ok := calculatedChecksum == receivedChecksum;
  }

  // ---------------------------------------------------------------------
  // One inbound message.

  /** The messages that end the receive loop, in the order the loop checks them. */
  datatype Terminal =
    | ConnectionClosed   // `not data`
    | EndOfFile          // `data == b"EOF"`
    | NotFound           // starts with "File not found"
    | SentSuccessfully   // starts with "File sent successfully"
    | FailedRemotely     // starts with "Transmission failed"

  /** The two ways the receive loop crashes the program. */
  datatype Fault =
    | ShortHeader                    // `struct.unpack` on fewer than 4 bytes
    | SlotOutOfRange(seqNum: uint16) // `fragments[seq_num]` with seq_num >= Fragment_Size

  datatype Reaction = Finished(why: Terminal) | Reply(text: string) | Crash(fault: Fault)

  /** The reassembly buffer: `None` or the payload of each sequence number. */
  type Slots = seq<Option<seq<uint8>>>

  datatype Delivery = Delivery(slots: Slots, reaction: Reaction)

  function EmptySlots(): (s: Slots)
    ensures |s| == FRAGMENT_COUNT && forall j :: 0 <= j < FRAGMENT_COUNT ==> s[j] == None
  {
    seq(FRAGMENT_COUNT, _ => None)
  }

  /** The server notices recognised before any header is decoded. */
  function TerminalOf(data: seq<uint8>): (o: Option<Terminal>)
    ensures o == Some(ConnectionClosed) <==> data == []
    ensures o == Some(EndOfFile) <==> data == AsciiBytes(EOF)
    ensures o == Some(NotFound) ==> StartsWith(data, AsciiBytes(FILE_NOT_FOUND))
    ensures o == Some(SentSuccessfully) ==> StartsWith(data, AsciiBytes(FILE_SENT))
    ensures o == Some(FailedRemotely) ==> StartsWith(data, AsciiBytes(TRANSMISSION_FAILED))
  {
    if data == [] then Some(ConnectionClosed)
    else if data == AsciiBytes(EOF) then Some(EndOfFile)
    else if StartsWith(data, AsciiBytes(FILE_NOT_FOUND)) then Some(NotFound)
    else if StartsWith(data, AsciiBytes(FILE_SENT)) then Some(SentSuccessfully)
    else if StartsWith(data, AsciiBytes(TRANSMISSION_FAILED)) then Some(FailedRemotely)
    else None
  }

  /** A message is taken for a fragment exactly when it is none of the notices. */
  lemma NotTerminal(data: seq<uint8>)
    ensures TerminalOf(data).None? <==>
      && data != [] && data != AsciiBytes(EOF)
      && !StartsWith(data, AsciiBytes(FILE_NOT_FOUND))
      && !StartsWith(data, AsciiBytes(FILE_SENT))
      && !StartsWith(data, AsciiBytes(TRANSMISSION_FAILED))
  {
  }

  /**
   * One pass of the receive loop on message `data`. A terminal message ends
   * the loop and touches no slot. Otherwise the header is decoded; a
   * fragment whose checksum verifies is stored only in its own slot and only
   * if that slot is empty (the first copy wins), and is acknowledged either
   * way; a fragment that fails verification is refused with a NACK and
   * nothing is stored.
   */
  function Deliver(slots: Slots, data: seq<uint8>): (d: Delivery)
    requires |slots| == FRAGMENT_COUNT
    ensures |d.slots| == FRAGMENT_COUNT
    ensures TerminalOf(data).Some? ==> d == Delivery(slots, Finished(TerminalOf(data).value))
    ensures !d.reaction.Reply? ==> d.slots == slots
    ensures TerminalOf(data).None? && |data| < HEADER_SIZE ==> d.reaction == Crash(ShortHeader)
    ensures d.reaction.Reply? ==>
      && DecodeMessage(data).Frame?
      && var frame := DecodeMessage(data);
      && (d.reaction.text == AckText(frame.seqNum) <==> Checksum(frame.payload) == frame.checksum)
      && (d.reaction.text == NackText(frame.seqNum) <==> Checksum(frame.payload) != frame.checksum)
    ensures TerminalOf(data).None? && |data| >= HEADER_SIZE
              && Checksum(data[HEADER_SIZE..]) != BigEndian16(data[2], data[3])
            ==> d == Delivery(slots, Reply(NackText(BigEndian16(data[0], data[1]))))
    ensures TerminalOf(data).None? && |data| >= HEADER_SIZE
              && Checksum(data[HEADER_SIZE..]) == BigEndian16(data[2], data[3])
              && BigEndian16(data[0], data[1]) >= FRAGMENT_COUNT
            ==> d == Delivery(slots, Crash(SlotOutOfRange(BigEndian16(data[0], data[1]))))
    ensures TerminalOf(data).None? && |data| >= HEADER_SIZE
              && Checksum(data[HEADER_SIZE..]) == BigEndian16(data[2], data[3])
              && BigEndian16(data[0], data[1]) < FRAGMENT_COUNT
            ==> var seqNum := BigEndian16(data[0], data[1]);
              && d.reaction == Reply(AckText(seqNum))
              && d.slots[seqNum] == (if slots[seqNum].None? then Some(data[HEADER_SIZE..]) else slots[seqNum])
              && forall j :: 0 <= j < FRAGMENT_COUNT && j != seqNum ==> d.slots[j] == slots[j]
    ensures forall j :: 0 <= j < FRAGMENT_COUNT && slots[j].Some? ==> d.slots[j] == slots[j]
    ensures forall j :: 0 <= j < FRAGMENT_COUNT && d.slots[j] != slots[j] ==>
      && d.reaction == Reply(AckText(j))
      && DecodeMessage(data) == Frame(j, Checksum(data[HEADER_SIZE..]), data[HEADER_SIZE..])
      && d.slots[j] == Some(data[HEADER_SIZE..])
  {
    if TerminalOf(data).Some? then Delivery(slots, Finished(TerminalOf(data).value))
    else match DecodeMessage(data)
      case MalformedHeader => Delivery(slots, Crash(ShortHeader))
      case Frame(seqNum, checksum, payload) =>
        if Checksum(payload) != checksum then Delivery(slots, Reply(NackText(seqNum)))
        else if seqNum >= FRAGMENT_COUNT then Delivery(slots, Crash(SlotOutOfRange(seqNum)))
        else if slots[seqNum].None? then Delivery(slots[seqNum := Some(payload)], Reply(AckText(seqNum)))
        else Delivery(slots, Reply(AckText(seqNum)))
  }

  /** A second copy of a message changes nothing and gets the same reply. */
  lemma RedeliveryIsIdempotent(slots: Slots, data: seq<uint8>)
    requires |slots| == FRAGMENT_COUNT
    ensures Deliver(Deliver(slots, data).slots, data) == Deliver(slots, data)
  {
  }

  // ---------------------------------------------------------------------
  // The receive loop and the final write.

  datatype Stop = Ended(why: Terminal) | Crashed(fault: Fault)

  datatype Transcript = Transcript(slots: Slots, replies: seq<string>, stop: Stop)

  /** The `while True` receive loop over the messages of one request. */
  function Receive(slots: Slots, inbox: seq<seq<uint8>>): (t: Transcript)
    requires |slots| == FRAGMENT_COUNT
    ensures |t.slots| == FRAGMENT_COUNT
    decreases |inbox|
  {
    if inbox == [] then Transcript(slots, [], Ended(ConnectionClosed))
    else
      var d := Deliver(slots, inbox[0]);
      match d.reaction
        case Finished(why) => Transcript(slots, [], Ended(why))
        case Crash(fault) => Transcript(slots, [], Crashed(fault))
        case Reply(text) =>
          var rest := Receive(d.slots, inbox[1..]);
          Transcript(rest.slots, [text] + rest.replies, rest.stop)
  }

  /** A slot, once filled, keeps its payload for the rest of the request. */
  lemma {:induction false} ReceiveKeepsFilledSlots(slots: Slots, inbox: seq<seq<uint8>>)
    requires |slots| == FRAGMENT_COUNT
    ensures forall j :: 0 <= j < FRAGMENT_COUNT && slots[j].Some? ==> Receive(slots, inbox).slots[j] == slots[j]
    decreases |inbox|
  {
    if inbox != [] {
      var d := Deliver(slots, inbox[0]);
      if d.reaction.Reply? {
        ReceiveKeepsFilledSlots(d.slots, inbox[1..]);
      }
    }
  }

  /** The replies already written, followed by the rest of the loop `t`. */
  function Resume(replies: seq<string>, t: Transcript): Transcript
  {
    Transcript(t.slots, replies + t.replies, t.stop)
  }

  lemma ResumeTwice(a: seq<string>, b: seq<string>, t: Transcript)
    ensures Resume(a, Resume(b, t)) == Resume(a + b, t)
  {
    assert a + (b + t.replies) == a + b + t.replies;
  }

  /** One pass of the receive loop, as `Receive` takes it. */
  lemma ReceiveStep(slots: Slots, inbox: seq<seq<uint8>>)
    requires |slots| == FRAGMENT_COUNT && inbox != []
    ensures var d := Deliver(slots, inbox[0]);
      Receive(slots, inbox)
        == if d.reaction.Finished? then Transcript(slots, [], Ended(d.reaction.why))
           else if d.reaction.Crash? then Transcript(slots, [], Crashed(d.reaction.fault))
           else Resume([d.reaction.text], Receive(d.slots, inbox[1..]))
  {
  }

  predicate AllFilled(slots: Slots)
  {
    forall j :: 0 <= j < |slots| ==> slots[j].Some?
  }

  function Values(slots: Slots): (vs: seq<seq<uint8>>)
    requires AllFilled(slots)
    ensures |vs| == |slots|
    ensures forall j :: 0 <= j < |slots| ==> vs[j] == slots[j].value
  {
    seq(|slots|, j requires 0 <= j < |slots| => slots[j].value)
  }

  /**
   * `b"".join(fragments)` if no slot is `None`: the file exists exactly when
   * every slot is filled; it is then as long as all slots together, and slot
   * j occupies the bytes right after those of slots 0 .. j - 1.
   */
  function Assembled(slots: Slots): (file: Option<seq<uint8>>)
    ensures file.Some? <==> AllFilled(slots)
    ensures file.Some? ==> |file.value| == Offset(Values(slots), |slots|)
    ensures file.Some? ==> forall j :: 0 <= j < |slots| ==>
      && Offset(Values(slots), j) + |slots[j].value| <= |file.value|
      && file.value[Offset(Values(slots), j)..Offset(Values(slots), j) + |slots[j].value|] == slots[j].value
  {
    if AllFilled(slots) then
      JoinLayout(Values(slots));
      Some(Join(Values(slots)))
    else None
  }

  /** What one file request ends in. */
  datatype Outcome =
    | Exiting                                     // the user typed "exit"
    | Saved(path: string, contents: seq<uint8>)   // written to `received_<name>`
    | Incomplete                                  // some slot is still empty: nothing is written
    | Aborted(fault: Fault)                       // the program crashed in the loop

  datatype RequestResult = RequestResult(replies: seq<string>, outcome: Outcome)

  /**
   * One pass of the outer loop of `main`, after the file name has been sent:
   * "exit" ends the program at once; otherwise the receive loop runs, a crash
   * aborts, and `received_<name>` is written only when every slot is filled.
   */
  function Request(fileName: string, inbox: seq<seq<uint8>>): (r: RequestResult)
    ensures r.outcome.Exiting? <==> IsExit(fileName)
    ensures IsExit(fileName) ==> r.replies == []
    ensures !IsExit(fileName) ==>
      var t := Receive(EmptySlots(), inbox);
      && r.replies == t.replies
      && (r.outcome.Aborted? <==> t.stop.Crashed?)
      && (r.outcome.Saved? <==> !t.stop.Crashed? && AllFilled(t.slots))
      && (r.outcome.Incomplete? <==> !t.stop.Crashed? && !AllFilled(t.slots))
      && (r.outcome.Saved? ==>
            r.outcome.path == "received_" + fileName && Assembled(t.slots) == Some(r.outcome.contents))
  {
    if IsExit(fileName) then RequestResult([], Exiting)
    else
      var t := Receive(EmptySlots(), inbox);
      if t.stop.Crashed? then RequestResult(t.replies, Aborted(t.stop.fault))
      else match Assembled(t.slots)
        case Some(contents) => RequestResult(t.replies, Saved("received_" + fileName, contents))
        case None => RequestResult(t.replies, Incomplete)
  }

  /** The `fragments` list of `main`, as an array of slots. */
  class Receiver {
    var fragments: array<Option<seq<uint8>>>

    ghost predicate Valid()
      reads this
    {
      fragments.Length == FRAGMENT_COUNT
    }

    constructor ()
      ensures Valid() && fresh(fragments) && fragments[..] == EmptySlots()
    {
      fragments := new Option<seq<uint8>>[FRAGMENT_COUNT](_ => None);
    }

    /** `fragments = [None] * Fragment_Size`, done for every new request. */
    method Reset()
      modifies this
      ensures Valid() && fresh(fragments) && fragments[..] == EmptySlots()
    {
      fragments := new Option<seq<uint8>>[FRAGMENT_COUNT](_ => None);
    }

    /** The body of the receive loop for one message. */
    method Accept(data: seq<uint8>) returns (reaction: Reaction)
      requires Valid()
      modifies fragments
      ensures Valid()
      ensures Delivery(fragments[..], reaction) == Deliver(old(fragments[..]), data)
    {
      var terminal := TerminalOf(data);
      if terminal.Some? {
        return Finished(terminal.value);
      }
      if |data| < HEADER_SIZE {
        return Crash(ShortHeader);
      }
      var header := data[..HEADER_SIZE];
      var seqNum := BigEndian16(header[0], header[1]);
      var checksum := BigEndian16(header[2], header[3]);
      var fragmentData := data[HEADER_SIZE..];
      var verified := VerifyChecksum(fragmentData, checksum);
      if verified {
        if seqNum >= fragments.Length {
          return Crash(SlotOutOfRange(seqNum));
        }
        if fragments[seqNum].None? {
          fragments[seqNum] := Some(fragmentData);
        }
        reaction := Reply(AckText(seqNum));
      } else {
        reaction := Reply(NackText(seqNum));
      }
    }

    /** The `all(...)` test and the `b"".join(fragments)` after the loop. */
    method Reassemble() returns (file: Option<seq<uint8>>)
      requires Valid()
      ensures file == Assembled(fragments[..])
    {
      var i := 0;
      while i < fragments.Length
        invariant 0 <= i <= fragments.Length
        invariant forall k :: 0 <= k < i ==> fragments[k].Some?
      {
        if fragments[i].None? {
          return None;
        }
        i := i + 1;
      }
      var fileData: seq<uint8> := [];
      i := 0;
      while i < fragments.Length
        invariant 0 <= i <= fragments.Length
        invariant AllFilled(fragments[..])
        invariant fileData == Join(Values(fragments[..i]))
      {
        assert Values(fragments[..i + 1]) == Values(fragments[..i]) + [fragments[i].value];
        JoinSnoc(Values(fragments[..i]), fragments[i].value);
        fileData := fileData + fragments[i].value;
        i := i + 1;
      }
      assert fragments[..i] == fragments[..];
      file := Some(fileData);
    }

    /**
     * The `while True` receive loop of `main` over the messages of one
     * request, filling the slots in place.
     */
    method Listen(inbox: seq<seq<uint8>>) returns (replies: seq<string>, stop: Stop)
      requires Valid()
      modifies fragments
      ensures Valid()
      ensures Transcript(fragments[..], replies, stop) == Receive(old(fragments[..]), inbox)
    {
      ghost var whole := Receive(fragments[..], inbox);
      replies := [];
      var k := 0;
      assert Resume([], whole) == whole;
      while k < |inbox|
        invariant Valid()
        invariant k <= |inbox|
        invariant Resume(replies, Receive(fragments[..], inbox[k..])) == whole
        decreases |inbox| - k
      {
        ghost var before := fragments[..];
        var reaction := Accept(inbox[k]);
        ReceiveStep(before, inbox[k..]);
        assert inbox[k..][1..] == inbox[k + 1..];
        if reaction.Crash? {
          return replies, Crashed(reaction.fault);
        }
        if reaction.Finished? {
          return replies, Ended(reaction.why);
        }
        ResumeTwice(replies, [reaction.text], Receive(fragments[..], inbox[k + 1..]));
        replies := replies + [reaction.text];
        k := k + 1;
      }
      assert inbox[k..] == [];
      stop := Ended(ConnectionClosed);
    }

    /**
     * One file request of `main`: unless the name is "exit", empty the slots,
     * run the receive loop over `inbox`, then write the file if complete.
     */
    method RequestFile(fileName: string, inbox: seq<seq<uint8>>) returns (replies: seq<string>, outcome: Outcome)
      modifies this
      ensures RequestResult(replies, outcome) == Request(fileName, inbox)
      ensures IsExit(fileName) ==> fragments == old(fragments)
      ensures !IsExit(fileName) ==> Valid() && fragments[..] == Receive(EmptySlots(), inbox).slots
    {
      if IsExit(fileName) {
        return [], Exiting;
      }
      Reset();
      var stop;
      replies, stop := Listen(inbox);
      if stop.Crashed? {
        return replies, Aborted(stop.fault);
      }
      var file := Reassemble();
      match file
      case Some(contents) =>
        outcome := Saved("received_" + fileName, contents);
      case None =>
        outcome := Incomplete;
    }
  }
}
