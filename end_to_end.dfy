/**
 * The sender of Server.py and the receiver of client/Client.py put
 * together: what the receiver makes of the messages the sender writes.
 */
module EndToEnd {
  import opened Bytes
  import opened InternetChecksum
  import opened HeaderCodec
  import opened Fragmenter
  import opened Protocol
  import opened Server
  import opened Client

  /** A data message never looks like a control text: it starts with byte 0 for every sequence number below 256. */
  lemma DataNeverTerminal(seqNum: uint16, checksum: uint16, payload: seq<uint8>)
    requires seqNum < 256
    ensures TerminalOf(EncodeMessage(seqNum, checksum, payload)) == None
  {
    var m := EncodeMessage(seqNum, checksum, payload);
    assert m[0] == 0;
    FirstByteNotControl(m);
  }

  lemma EndOfFileEnds()
    ensures TerminalOf(AsciiBytes(EOF)) == Some(EndOfFile)
  {
  }

  lemma NotFoundEnds()
    ensures TerminalOf(AsciiBytes(FILE_NOT_FOUND)) == Some(NotFound)
  {
    var m := AsciiBytes(FILE_NOT_FOUND);
    assert |m| != |AsciiBytes(EOF)|;
    assert m[..|FILE_NOT_FOUND|] == m;
  }

  lemma SentEnds()
    ensures TerminalOf(AsciiBytes(FILE_SENT)) == Some(SentSuccessfully)
  {
    var m := AsciiBytes(FILE_SENT);
    assert |m| != |AsciiBytes(EOF)|;
    assert m[5] != AsciiBytes(FILE_NOT_FOUND)[5];
    assert m[..|FILE_SENT|] == m;
  }

  lemma FailedEnds()
    ensures TerminalOf(AsciiBytes(TRANSMISSION_FAILED)) == Some(FailedRemotely)
  {
    var m := AsciiBytes(TRANSMISSION_FAILED);
    assert |m| != |AsciiBytes(EOF)|;
    assert m[0] == 'T' as int;
    DiffersAt(m, AsciiBytes(FILE_NOT_FOUND), 0);
    DiffersAt(m, AsciiBytes(FILE_SENT), 0);
    assert m[..|TRANSMISSION_FAILED|] == m;
  }

  /** Each closing notice of the sender ends the receive loop with its own reason. */
  lemma NoticesEndReception()
    ensures TerminalOf(AsciiBytes(FILE_NOT_FOUND)) == Some(NotFound)
    ensures TerminalOf(AsciiBytes(FILE_SENT)) == Some(SentSuccessfully)
    ensures TerminalOf(AsciiBytes(TRANSMISSION_FAILED)) == Some(FailedRemotely)
    ensures TerminalOf(AsciiBytes(EOF)) == Some(EndOfFile)
  {
    EndOfFileEnds();
    NotFoundEnds();
    SentEnds();
    FailedEnds();
  }

  /**
   * An intact data message for a slot in range is acknowledged with its own
   * sequence number and fills that slot if it was still empty.
   */
  lemma IntactFrameAcked(slots: Slots, f: Fragment)
    requires |slots| == FRAGMENT_COUNT
    requires f.seqNum < FRAGMENT_COUNT && f.checksum == Checksum(f.payload)
    ensures Deliver(slots, FrameOf(f)).reaction == Reply(AckText(f.seqNum))
    ensures Deliver(slots, FrameOf(f)).slots
         == slots[f.seqNum := if slots[f.seqNum].None? then Some(f.payload) else slots[f.seqNum]]
  {
    DataNeverTerminal(f.seqNum, f.checksum, f.payload);
    DecodeEncode(f.seqNum, f.checksum, f.payload);
  }

  /**
   * A data message whose payload had any one byte changed in transit is
   * refused with a NACK for its sequence number, and no slot changes.
   */
  lemma CorruptedFrameNacked(slots: Slots, f: Fragment, i: nat, v: uint8)
    requires |slots| == FRAGMENT_COUNT
    requires f.seqNum < 256 && f.checksum == Checksum(f.payload)
    requires i < |f.payload| && v != f.payload[i]
    ensures var m := EncodeMessage(f.seqNum, f.checksum, f.payload[i := v]);
      Deliver(slots, m) == Delivery(slots, Reply(NackText(f.seqNum)))
  {
    DataNeverTerminal(f.seqNum, f.checksum, f.payload[i := v]);
    DecodeEncode(f.seqNum, f.checksum, f.payload[i := v]);
    SingleByteCorruptionDetected(f.payload, i, v);
  }

  /**
   * The checksum covers the payload only, so a corrupted header byte goes
   * unnoticed: fragment 0 with the low byte of its sequence number turned
   * from 0 into 1 is acknowledged as `ACK:1`, and its payload is stored in
   * slot 1, where the first copy is kept for good.
   */
  lemma HeaderCorruptionUndetected(data: seq<uint8>)
    ensures var f := Fragments(data)[0];
      Deliver(EmptySlots(), FrameOf(f)[1 := 1])
        == Delivery(EmptySlots()[1 := Some(f.payload)], Reply(AckText(1)))
  {
    var f := Fragments(data)[0];
    FragmentsCarryChecksums(data);
    assert FrameOf(f)[1 := 1] == EncodeMessage(1, f.checksum, f.payload);
    DataNeverTerminal(1, f.checksum, f.payload);
    DecodeEncode(1, f.checksum, f.payload);
  }

  lemma AsciiConcat(a: string, b: string)
    requires IsAscii(a) && IsAscii(b)
    ensures IsAscii(a + b)
  {
  }

  /** The sender's "File is too small" notice is ASCII. */
  lemma TooSmallTextIsAscii(size: nat)
    ensures IsAscii(TooSmallText(size))
  {
    AsciiConcat("File is too small (", Decimal(size));
    AsciiConcat("File is too small (" + Decimal(size), " bytes), it must be at least ");
    AsciiConcat("File is too small (" + Decimal(size) + " bytes), it must be at least ", Decimal(MIN_FILE_SIZE));
    AsciiConcat("File is too small (" + Decimal(size) + " bytes), it must be at least " + Decimal(MIN_FILE_SIZE), " bytes");
  }

  /** A message that differs from `prefix` at some index both share does not start with it. */
  lemma DiffersAt(m: seq<uint8>, prefix: seq<uint8>, i: nat)
    requires i < |m| && i < |prefix| && m[i] != prefix[i]
    ensures !StartsWith(m, prefix)
  {
  }

  /** A message that starts with "F" and has "i" at index 5 is none of the control texts. */
  lemma FiveIsNotTerminal(m: seq<uint8>)
    requires |m| > 5 && m[0] == 'F' as int && m[5] == 'i' as int
    ensures TerminalOf(m) == None
  {
    var eof, notFound, sent, failed := AsciiBytes(EOF), AsciiBytes(FILE_NOT_FOUND), AsciiBytes(FILE_SENT), AsciiBytes(TRANSMISSION_FAILED);
    assert eof[0] == 'E' as int;
    assert notFound[5] == 'n' as int;
    assert sent[5] == 's' as int;
    assert failed[0] == 'T' as int;
    DiffersAt(m, notFound, 5);
    DiffersAt(m, sent, 5);
    DiffersAt(m, failed, 0);
  }

  lemma TooSmallBytes(size: nat)
    ensures IsAscii(TooSmallText(size))
    ensures var m := AsciiBytes(TooSmallText(size));
      |m| > 5 && m[0] == 'F' as int && m[1] == 'i' as int && m[5] == 'i' as int
  {
    TooSmallTextIsAscii(size);
    assert TooSmallText(size)[..6] == "File i";
  }

  /**
   * The receiver does not recognise the sender's "File is too small" notice:
   * it decodes it as a data message numbered 18025 ("Fi"), which is either
   * refused with a NACK or, should its checksum happen to match, crashes the
   * receive loop; in neither case is a slot filled or the loop ended.
   */
  lemma TooSmallNoticeNotRecognised(slots: Slots, size: nat)
    requires |slots| == FRAGMENT_COUNT
    ensures IsAscii(TooSmallText(size))
    ensures var m := AsciiBytes(TooSmallText(size));
      && TerminalOf(m) == None
      && DecodeMessage(m).Frame? && DecodeMessage(m).seqNum == 18025
      && Deliver(slots, m).slots == slots
      && Deliver(slots, m).reaction in {Reply(NackText(18025)), Crash(SlotOutOfRange(18025))}
  {
    TooSmallBytes(size);
    var m := AsciiBytes(TooSmallText(size));
    FiveIsNotTerminal(m);
  }

  /**
   * The receiver never reads the sender's welcome line apart from the
   * fragments: when it arrives as a message of its own it is decoded as a
   * data message numbered 22373 ("We") with checksum field 0x6C63 ("lc").
   * The checksum of the rest, "ome to the server!", is 0xBFBC, so the
   * receiver refuses it with "NACK:22373" and no slot changes.
   */
  lemma WelcomeNotRecognised(slots: Slots)
    requires |slots| == FRAGMENT_COUNT
    ensures IsAscii(WELCOME)
    ensures var m := AsciiBytes(WELCOME);
      && TerminalOf(m) == None
      && DecodeMessage(m) == Frame(22373, 0x6C63, m[HEADER_SIZE..])
      && Deliver(slots, m) == Delivery(slots, Reply(NackText(22373)))
  {
    var m := WelcomeBytes();
    FirstByteNotControl(m);
    WelcomePayloadChecksum(m[HEADER_SIZE..]);
  }

  lemma WelcomeBytes() returns (m: seq<uint8>)
    ensures IsAscii(WELCOME) && m == AsciiBytes(WELCOME)
    ensures |m| > 4 && m[0] == 'W' as int && m[1] == 'e' as int && m[2] == 'l' as int && m[3] == 'c' as int
    ensures m[HEADER_SIZE..] == [111, 109, 101, 32, 116, 111, 32, 116, 104, 101, 32, 115, 101, 114, 118, 101, 114, 33]
  {
    m := AsciiBytes(WELCOME);
    assert m[HEADER_SIZE..] == [111, 109, 101, 32, 116, 111, 32, 116, 104, 101, 32, 115, 101, 114, 118, 101, 114, 33];
  }

  /** One word of a buffer whose running sum so far is known. */
  lemma KnownStep(p: seq<uint8>, i: nat, before: nat, hi: uint8, lo: uint8, after: nat)
    requires i % 2 == 0 && i + 2 <= |p| && p[i] == hi && p[i + 1] == lo
    requires RunningSum(p[..i]) == before && Fold(before + hi * 256 + lo) == after
    ensures (i + 2) % 2 == 0 && RunningSum(p[..i + 2]) == after
  {
    RunningSumStep(p, i);
  }

  /** The running sum of "ome to the server!" after its first three words. */
  lemma WelcomeWords0To2(p: seq<uint8>)
    requires p == [111, 109, 101, 32, 116, 111, 32, 116, 104, 101, 32, 115, 101, 114, 118, 101, 114, 33]
    ensures RunningSum(p[..6]) == 18685
  {
    assert p[..0] == [];
    KnownStep(p, 0, 0, 111, 109, 28525);
    KnownStep(p, 2, 28525, 101, 32, 54413);
    KnownStep(p, 4, 54413, 116, 111, 18685);
  }

  /** The running sum of "ome to the server!" after its first six words. */
  lemma WelcomeWords3To5(p: seq<uint8>)
    requires p == [111, 109, 101, 32, 116, 111, 32, 116, 104, 101, 32, 115, 101, 114, 118, 101, 114, 33]
    ensures RunningSum(p[..12]) == 62025
  {
    WelcomeWords0To2(p);
    KnownStep(p, 6, 18685, 32, 116, 26993);
    KnownStep(p, 8, 26993, 104, 101, 53718);
    KnownStep(p, 10, 53718, 32, 115, 62025);
  }

  /** The checksum of "ome to the server!", one word at a time. */
  lemma WelcomePayloadChecksum(p: seq<uint8>)
    requires p == [111, 109, 101, 32, 116, 111, 32, 116, 104, 101, 32, 115, 101, 114, 118, 101, 114, 33]
    ensures Checksum(p) == 0xBFBC
  {
    WelcomeWords3To5(p);
    KnownStep(p, 12, 62025, 101, 114, 22460);
    KnownStep(p, 14, 22460, 118, 101, 52769);
    KnownStep(p, 16, 52769, 114, 33, 16451);
    assert p[..18] == p;
  }

  /** A message whose first byte is not that of any control text is none of them. */
  lemma FirstByteNotControl(m: seq<uint8>)
    requires |m| > 0 && m[0] !in {'E' as int, 'F' as int, 'T' as int}
    ensures TerminalOf(m) == None
  {
    assert AsciiBytes(EOF)[0] == 'E' as int;
    assert AsciiBytes(FILE_NOT_FOUND)[0] == 'F' as int;
    assert AsciiBytes(FILE_SENT)[0] == 'F' as int;
    assert AsciiBytes(TRANSMISSION_FAILED)[0] == 'T' as int;
  }

  // ---------------------------------------------------------------------
  // A lossless transfer.

  /** The reply texts of a clean run: "ACK:0", "ACK:1", ... */
  function AckTexts(lo: nat, hi: nat): (ts: seq<string>)
    requires lo <= hi
    ensures |ts| == hi - lo && forall j :: 0 <= j < hi - lo ==> ts[j] == AckText(lo + j)
  {
    seq(hi - lo, j requires 0 <= j < hi - lo => AckText(lo + j))
  }

  /** The data messages the sender writes for a file, one per fragment. */
  function Frames(data: seq<uint8>): (ms: seq<seq<uint8>>)
    ensures |ms| == FRAGMENT_COUNT
    ensures forall i :: 0 <= i < FRAGMENT_COUNT ==> ms[i] == FrameOf(Fragments(data)[i])
  {
    seq(FRAGMENT_COUNT, i requires 0 <= i < FRAGMENT_COUNT => FrameOf(Fragments(data)[i]))
  }

  /** The receiver's slots once fragments 0 .. k - 1 of `data` have arrived. */
  function Filled(data: seq<uint8>, k: nat): (s: Slots)
    ensures |s| == FRAGMENT_COUNT
  {
    seq(FRAGMENT_COUNT, j requires 0 <= j < FRAGMENT_COUNT =>
      if j < k then Some(Fragments(data)[j].payload) else None)
  }

  /** The data messages of `frags`, in order, as the sender writes them. */
  function DataMessages(frags: seq<Fragment>): (out: seq<Outbound>)
    ensures |out| == |frags|
    ensures forall j :: 0 <= j < |frags| ==> out[j] == Data(FrameOf(frags[j]))
  {
    seq(|frags|, j requires 0 <= j < |frags| => Data(FrameOf(frags[j])))
  }

  lemma DataMessagesCons(frags: seq<Fragment>, i: nat)
    requires i < |frags|
    ensures DataMessages(frags[i..]) == [Data(FrameOf(frags[i]))] + DataMessages(frags[i + 1..])
  {
  }

  /** An acknowledgment read right after the first sending ends the retry loop. */
  lemma AckedAtOnce(f: Fragment, inbox: seq<Inbound>, pos: nat)
    requires pos < |inbox| && inbox[pos] == Text(AckText(f.seqNum))
    ensures SendFragment(f, inbox, pos, 0) == FragmentRun([Data(FrameOf(f))], Acked(pos + 1))
  {
  }

  /** `inbox`, from `pos` on, acknowledges `frags[i..]` one by one. */
  predicate AcksInOrder(frags: seq<Fragment>, i: nat, inbox: seq<Inbound>, pos: nat)
  {
    && i <= |frags| && pos + (|frags| - i) <= |inbox|
    && forall j :: i <= j < |frags| ==> inbox[pos + (j - i)] == Text(AckText(frags[j].seqNum))
  }

  /**
   * When every fragment from i on is acknowledged at its first sending, the
   * sender writes each of them exactly once, in order, and completes.
   */
  lemma {:induction false} AllAckedFirstTime(frags: seq<Fragment>, i: nat, inbox: seq<Inbound>, pos: nat)
    requires AcksInOrder(frags, i, inbox, pos)
    ensures SendAll(frags, i, inbox, pos) == Transfer(DataMessages(frags[i..]), Completed(pos + (|frags| - i)))
    decreases |frags| - i
  {
    if i < |frags| {
      assert inbox[pos] == Text(AckText(frags[i].seqNum));
      AckedAtOnce(frags[i], inbox, pos);
      SendAllAcked(frags, i, inbox, pos);
      assert AcksInOrder(frags, i + 1, inbox, pos + 1);
      AllAckedFirstTime(frags, i + 1, inbox, pos + 1);
      DataMessagesCons(frags, i);
    } else {
      assert DataMessages(frags[i..]) == [];
    }
  }

  /** Every notice in `out` is ASCII text, so its UTF-8 bytes are its characters. */
  predicate Sendable(out: seq<Outbound>)
  {
    forall k :: 0 <= k < |out| && out[k].Notice? ==> IsAscii(out[k].text)
  }

  /**
   * A channel that loses, splits, merges and corrupts nothing: each message
   * the sender writes is read by the receiver as exactly its bytes.
   */
  function Wire(out: seq<Outbound>): (ms: seq<seq<uint8>>)
    requires Sendable(out)
    ensures |ms| == |out|
    ensures forall k :: 0 <= k < |out| && out[k].Data? ==> ms[k] == out[k].bytes
    ensures forall k :: 0 <= k < |out| && out[k].Notice? ==> ms[k] == AsciiBytes(out[k].text)
  {
    seq(|out|, k requires 0 <= k < |out| && (out[k].Notice? ==> IsAscii(out[k].text)) =>
      match out[k]
      case Data(bytes) => bytes
      case Notice(text) => AsciiBytes(text))
  }

  /** Fragment k of `data` fills slot k. */
  lemma FillNext(data: seq<uint8>, k: nat)
    requires k < FRAGMENT_COUNT
    ensures Deliver(Filled(data, k), Frames(data)[k]) == Delivery(Filled(data, k + 1), Reply(AckText(k)))
  {
    var f := Fragments(data)[k];
    IntactFrameAcked(Filled(data, k), f);
    assert Filled(data, k)[k := Some(f.payload)] == Filled(data, k + 1);
  }

  /** The messages the receiver reads from fragment k on. */
  function FramesFrom(data: seq<uint8>, k: nat): seq<seq<uint8>>
    requires k <= FRAGMENT_COUNT
  {
    Frames(data)[k..] + [AsciiBytes(FILE_SENT)]
  }

  lemma ReceiveLastNotice(data: seq<uint8>)
    ensures Receive(Filled(data, FRAGMENT_COUNT), FramesFrom(data, FRAGMENT_COUNT))
         == Transcript(Filled(data, FRAGMENT_COUNT), [], Ended(SentSuccessfully))
  {
    assert FramesFrom(data, FRAGMENT_COUNT) == [AsciiBytes(FILE_SENT)];
    SentEnds();
    ReceiveStep(Filled(data, FRAGMENT_COUNT), FramesFrom(data, FRAGMENT_COUNT));
  }

  lemma ReceiveNextFrame(data: seq<uint8>, k: nat)
    requires k < FRAGMENT_COUNT
    ensures var rest := Receive(Filled(data, k + 1), FramesFrom(data, k + 1));
      Receive(Filled(data, k), FramesFrom(data, k)) == Resume([AckText(k)], rest)
  {
    var inbox := FramesFrom(data, k);
    FillNext(data, k);
    assert inbox[0] == Frames(data)[k];
    assert inbox[1..] == FramesFrom(data, k + 1);
    var d := Deliver(Filled(data, k), inbox[0]);
    assert d == Delivery(Filled(data, k + 1), Reply(AckText(k)));
    ReceiveStep(Filled(data, k), inbox);
  }

  /**
   * The receiver, given the data messages of fragments k, k + 1, ... intact
   * and in order and then "File sent successfully", acknowledges each one and
   * ends with every slot filled.
   */
  lemma {:induction false} ReceiveIntactFrames(data: seq<uint8>, k: nat)
    requires k <= FRAGMENT_COUNT
    ensures Receive(Filled(data, k), FramesFrom(data, k))
         == Transcript(Filled(data, FRAGMENT_COUNT), AckTexts(k, FRAGMENT_COUNT), Ended(SentSuccessfully))
    decreases FRAGMENT_COUNT - k
  {
    if k == FRAGMENT_COUNT {
      ReceiveLastNotice(data);
    } else {
      ReceiveNextFrame(data, k);
      ReceiveIntactFrames(data, k + 1);
      AckTextsCons(k, FRAGMENT_COUNT);
    }
  }

  lemma AckTextsCons(lo: nat, hi: nat)
    requires lo < hi
    ensures AckTexts(lo, hi) == [AckText(lo)] + AckTexts(lo + 1, hi)
  {
  }

  /** The clean run's replies, as the sender reads them. */
  function AckEvents(): (acks: seq<Inbound>)
    ensures |acks| == FRAGMENT_COUNT
    ensures forall j :: 0 <= j < FRAGMENT_COUNT ==> acks[j] == Text(AckTexts(0, FRAGMENT_COUNT)[j])
  {
    seq(FRAGMENT_COUNT, j requires 0 <= j < FRAGMENT_COUNT => Text(AckTexts(0, FRAGMENT_COUNT)[j]))
  }

  /** Once every fragment has arrived, the slots hold exactly the original file. */
  lemma FilledAssemblesFile(data: seq<uint8>)
    ensures Assembled(Filled(data, FRAGMENT_COUNT)) == Some(data)
  {
    var full := Filled(data, FRAGMENT_COUNT);
    assert AllFilled(full);
    assert Values(full) == Payloads(Fragments(data));
    FragmentsReassemble(data);
  }

  /** The receiver's half of a lossless transfer. */
  lemma LosslessReceiving(data: seq<uint8>, name: string)
    requires !IsExit(name)
    ensures Request(name, FramesFrom(data, 0))
         == RequestResult(AckTexts(0, FRAGMENT_COUNT), Saved("received_" + name, data))
  {
    assert Filled(data, 0) == EmptySlots();
    ReceiveIntactFrames(data, 0);
    FilledAssemblesFile(data);
  }

  /** What the sender writes for a clean transfer reaches the receiver as `FramesFrom(data, 0)`. */
  lemma WireOfCleanTransfer(data: seq<uint8>)
    ensures Sendable(DataMessages(Fragments(data)) + [Notice(FILE_SENT)])
    ensures Wire(DataMessages(Fragments(data)) + [Notice(FILE_SENT)]) == FramesFrom(data, 0)
  {
    var out := DataMessages(Fragments(data)) + [Notice(FILE_SENT)];
    assert Sendable(out);
    var w := Wire(out);
    var ms := FramesFrom(data, 0);
    assert |w| == |ms|;
    forall k | 0 <= k < |out|
      ensures w[k] == ms[k]
    {
      if k < FRAGMENT_COUNT {
        assert out[k] == Data(FrameOf(Fragments(data)[k]));
        assert ms[k] == Frames(data)[k];
      } else {
        assert out[k] == Notice(FILE_SENT);
        assert ms[k] == AsciiBytes(FILE_SENT);
      }
    }
  }

  /** After the file name, the clean run's replies acknowledge the fragments of any file in order. */
  lemma AcksAfterName(data: seq<uint8>, name: string)
    ensures AcksInOrder(Fragments(data), 0, [Text(name)] + AckEvents(), 1)
  {
    var inbox := [Text(name)] + AckEvents();
    forall j | 0 <= j < FRAGMENT_COUNT
      ensures inbox[1 + j] == Text(AckText(Fragments(data)[j].seqNum))
    {
      assert inbox[1 + j] == AckEvents()[j];
    }
  }

  /**
   * A request served over a lossless channel: the sender transmits every
   * fragment of the named file once, is acknowledged by ACK:0 .. ACK:3, writes
   * "File sent successfully", and then finds the connection closed.
   */
  lemma LosslessServing(files: map<string, seq<uint8>>, name: string)
    requires name != "" && !IsExit(name) && name in files && |files[name]| >= MIN_FILE_SIZE
    ensures Serve(files, [Text(name)] + AckEvents(), 0)
         == ServeResult(DataMessages(Fragments(files[name])) + [Notice(FILE_SENT)], Disconnected)
  {
    var inbox := [Text(name)] + AckEvents();
    var frags := Fragments(files[name]);
    AcksAfterName(files[name], name);
    AllAckedFirstTime(frags, 0, inbox, 1);
    assert frags[0..] == frags;
    var t := SendAll(frags, 0, inbox, 1);
    assert t == Transfer(DataMessages(frags), Completed(|inbox|));
    ServeFile(files, inbox, 0);
    assert Serve(files, inbox, |inbox|) == ServeResult([], Disconnected);
    assert Finish(files, inbox, 0, t) == Prepend(t.out + [Notice(FILE_SENT)], Serve(files, inbox, |inbox|));
  }

  /**
   * Lossless round trip of one request: the sender's request loop, reading
   * the file name and then the receiver's replies, writes messages that the
   * receiver, reading them intact and in order, answers with exactly the
   * replies the sender read, ACK:0 .. ACK:3, and it saves the original bytes
   * as `received_<name>`.
   */
  lemma LosslessRoundTrip(files: map<string, seq<uint8>>, name: string)
    requires name != "" && !IsExit(name) && name in files && |files[name]| >= MIN_FILE_SIZE
    ensures var r := Serve(files, [Text(name)] + AckEvents(), 0);
      && r == ServeResult(DataMessages(Fragments(files[name])) + [Notice(FILE_SENT)], Disconnected)
      && Sendable(r.out)
      && var got := Request(name, Wire(r.out));
      && got == RequestResult(AckTexts(0, FRAGMENT_COUNT), Saved("received_" + name, files[name]))
      && AckEvents() == seq(FRAGMENT_COUNT, j requires 0 <= j < FRAGMENT_COUNT => Text(got.replies[j]))
  {
    LosslessServing(files, name);
    WireOfCleanTransfer(files[name]);
    LosslessReceiving(files[name], name);
  }
}
