/**
 * The sender of Server.py: the checksum loop, `split_file`, and the
 * request/transmit/retry loops of `handle_client`, with the socket replaced
 * by a finite inbox of peer events and a log of what the sender writes.
 */
module Server {
  import opened Bytes
  import opened InternetChecksum
  import opened HeaderCodec
  import opened Fragmenter
  import opened Protocol

  /** `checksum(file)`: the word loop with a carry fold after every addition. */
  method ComputeChecksum(file: seq<uint8>) returns (r: uint16)
    ensures r == Checksum(file)
  {
    var data := file;
    if |data| % 2 != 0 {
      data := data + [0];
    }
    var sum: nat := 0;
    var i := 0;
    while i < |data|
      invariant 0 <= i <= |data| && i % 2 == 0
      invariant sum == RunningSum(data[..i])
    {
      var word := data[i] as nat * 256 + data[i + 1];
      RunningSumStep(data, i);
      assert word == BigEndian16(data[i], data[i + 1]);
      sum := sum + word;
      assert sum % 0x1_0000 + sum / 0x1_0000 == Fold(sum);
      sum := sum % 0x1_0000 + sum / 0x1_0000;
      i := i + 2;
    }
    assert data[..i] == data;
    r := 0xFFFF - sum;
  }

  /** `split_file`, given the file's bytes instead of its name. */
  method SplitFile(fileData: seq<uint8>) returns (segments: seq<Fragment>)
    ensures segments == Fragments(fileData)
  {
    var fileSize := |fileData|;
    var innerFragmentSize := fileSize / FRAGMENT_COUNT;
    segments := [];
    for i := 0 to FRAGMENT_COUNT
      invariant segments == Fragments(fileData)[..i]
    {
      var start := i * innerFragmentSize;
      var end := if i != FRAGMENT_COUNT - 1 then (i + 1) * innerFragmentSize else fileSize;
      SliceBounds(fileSize, i);
      var fragment := fileData[start..end];
      var checksumValue := ComputeChecksum(fragment);
      FragmentsSnoc(fileData, i);
      segments := segments + [Fragment(i, checksumValue, fragment)];
    }
  }

  // ---------------------------------------------------------------------
  // The session, as functions of the peer's events.

  /** One read by the sender: a decoded, stripped text, or a read that timed out. */
  datatype Inbound = Text(s: string) | Timeout

  /** One write by the sender: a data message, or a control text. */
  datatype Outbound = Data(bytes: seq<uint8>) | Notice(text: string)

  /** Why `handle_client` returned. */
  datatype SessionEnd =
    | Disconnected     // the peer closed the connection (an empty read, or no more input)
    | ExitRequested    // the peer asked for "exit"
    | TransferFailed   // a fragment ran out of retries
    | RequestTimedOut  // a read for a file name timed out; the generic handler ends the session

  /** How the retry loop of one fragment ended. */
  datatype Attempt =
    | Acked(next: nat)      // the matching `ACK:seq` was read; `next` is the first unread event
    | Exhausted(next: nat)  // `retry` reached MAX_RETRY
    | ReplyMissing          // the input ended while an acknowledgment was awaited

  datatype FragmentRun = FragmentRun(out: seq<Outbound>, attempt: Attempt)

  /** How the transmission of a whole file ended. */
  datatype TransferEnd = Completed(next: nat) | Failed | Interrupted

  datatype Transfer = Transfer(out: seq<Outbound>, end: TransferEnd)

  datatype ServeResult = ServeResult(out: seq<Outbound>, end: SessionEnd)

  function Prepend(out: seq<Outbound>, r: ServeResult): ServeResult
  {
    ServeResult(out + r.out, r.end)
  }

  /** The data message of a fragment, `struct.pack("!HH", seq, cks) + fragment`. */
  function FrameOf(f: Fragment): seq<uint8>
  {
    EncodeMessage(f.seqNum, f.checksum, f.payload)
  }

  /**
   * The `while retry < Max_retry` loop of one fragment, started at event pos
   * with the given retry count: send the fragment, then read one event. Only
   * a timeout increments `retry`; the matching `ACK:seq` ends the loop; any
   * other text resends with `retry` unchanged.
   */
  function SendFragment(f: Fragment, inbox: seq<Inbound>, pos: nat, retry: nat): (run: FragmentRun)
    requires pos <= |inbox| && retry <= MAX_RETRY
    ensures run.attempt.Acked? ==> pos < run.attempt.next <= |inbox|
    ensures run.attempt.Exhausted? ==> pos <= run.attempt.next <= |inbox|
    decreases |inbox| - pos
  {
    if retry == MAX_RETRY then FragmentRun([], Exhausted(pos))
    else
      var sent := [Data(FrameOf(f))];
      if pos == |inbox| then FragmentRun(sent, ReplyMissing)
      else match inbox[pos]
        case Timeout =>
          var rest := SendFragment(f, inbox, pos + 1, retry + 1);
          FragmentRun(sent + rest.out, rest.attempt)
        case Text(reply) =>
          if reply == AckText(f.seqNum) then FragmentRun(sent, Acked(pos + 1))
          else
            var rest := SendFragment(f, inbox, pos + 1, retry);
            FragmentRun(sent + rest.out, rest.attempt)
  }

  /**
   * The `for ... in fragments` loop from fragment i on: each fragment in turn,
   * each with a fresh retry counter; an exhausted fragment sends
   * "Transmission failed" and abandons the file.
   */
  function SendAll(frags: seq<Fragment>, i: nat, inbox: seq<Inbound>, pos: nat): (t: Transfer)
    requires i <= |frags| && pos <= |inbox|
    ensures t.end.Completed? ==> pos <= t.end.next <= |inbox|
    ensures t.end.Failed? ==> |t.out| > 0 && t.out[|t.out| - 1] == Notice(TRANSMISSION_FAILED)
    decreases |frags| - i
  {
    if i == |frags| then Transfer([], Completed(pos))
    else
      var run := SendFragment(frags[i], inbox, pos, 0);
      match run.attempt
        case Acked(p) =>
          var rest := SendAll(frags, i + 1, inbox, p);
          Transfer(run.out + rest.out, rest.end)
        case Exhausted(_) => Transfer(run.out + [Notice(TRANSMISSION_FAILED)], Failed)
        case ReplyMissing => Transfer(run.out, Interrupted)
  }

  /**
   * The `while True` request loop of `handle_client` from event pos on, with
   * the file system given as a map from file name to contents.
   */
  function Serve(files: map<string, seq<uint8>>, inbox: seq<Inbound>, pos: nat): (r: ServeResult)
    requires pos <= |inbox|
    ensures r.end == TransferFailed ==> |r.out| > 0 && r.out[|r.out| - 1] == Notice(TRANSMISSION_FAILED)
    ensures r.end == RequestTimedOut ==> exists k :: pos <= k < |inbox| && inbox[k] == Timeout
    ensures r.end == ExitRequested ==> exists k :: pos <= k < |inbox| && inbox[k].Text? && IsExit(inbox[k].s)
    decreases |inbox| - pos, 1
  {
    if pos == |inbox| then ServeResult([], Disconnected)
    else match inbox[pos]
      case Timeout => ServeResult([], RequestTimedOut)
      case Text(name) =>
        if name == "" then ServeResult([], Disconnected)
        else if IsExit(name) then ServeResult([], ExitRequested)
        else if name !in files then Prepend([Notice(FILE_NOT_FOUND)], Serve(files, inbox, pos + 1))
        else if |files[name]| < MIN_FILE_SIZE then
          Prepend([Notice(TooSmallText(|files[name]|))], Serve(files, inbox, pos + 1))
        else Finish(files, inbox, pos, SendAll(Fragments(files[name]), 0, inbox, pos + 1))
  }

  /**
   * What follows the transmission of the file requested at event req: after
   * every fragment was acknowledged, "File sent successfully" and the next
   * request; after a failure, the end of the session.
   */
  function Finish(files: map<string, seq<uint8>>, inbox: seq<Inbound>, req: nat, t: Transfer): (r: ServeResult)
    requires req < |inbox|
    requires t.end.Completed? ==> req < t.end.next <= |inbox|
    ensures |t.out| <= |r.out| && r.out[..|t.out|] == t.out
    ensures t.end.Completed? ==> |t.out| < |r.out| && r.out[|t.out|] == Notice(FILE_SENT)
    ensures t.end.Failed? ==> r.out == t.out && r.end == TransferFailed
    ensures t.end.Interrupted? ==> r.out == t.out && r.end == Disconnected
    ensures r.end == TransferFailed && !t.end.Failed? ==>
      |r.out| > 0 && r.out[|r.out| - 1] == Notice(TRANSMISSION_FAILED)
    ensures r.end == RequestTimedOut ==> exists k :: req < k < |inbox| && inbox[k] == Timeout
    ensures r.end == ExitRequested ==> exists k :: req < k < |inbox| && inbox[k].Text? && IsExit(inbox[k].s)
    decreases |inbox| - req, 0
  {
    match t.end
      case Completed(p) => Prepend(t.out + [Notice(FILE_SENT)], Serve(files, inbox, p))
      case Failed => ServeResult(t.out, TransferFailed)
      case Interrupted => ServeResult(t.out, Disconnected)
  }

  /** `handle_client`: the greeting, then the request loop. */
  function Session(files: map<string, seq<uint8>>, inbox: seq<Inbound>): (r: ServeResult)
    ensures |r.out| > 0 && r.out[0] == Notice(WELCOME)
    ensures r.end == TransferFailed ==> r.out[|r.out| - 1] == Notice(TRANSMISSION_FAILED)
    ensures r.end == RequestTimedOut ==> Timeout in inbox
  {
    Prepend([Notice(WELCOME)], Serve(files, inbox, 0))
  }

  /** "exit", in any case, ends the session at once and sends nothing. */
  lemma ServeExit(files: map<string, seq<uint8>>, inbox: seq<Inbound>, pos: nat)
    requires pos < |inbox| && inbox[pos].Text? && inbox[pos].s != "" && IsExit(inbox[pos].s)
    ensures Serve(files, inbox, pos) == ServeResult([], ExitRequested)
  {
  }

  /** A missing file is reported with "File not found" and the next request is served. */
  lemma ServeMissingFile(files: map<string, seq<uint8>>, inbox: seq<Inbound>, pos: nat)
    requires pos < |inbox| && inbox[pos].Text? && inbox[pos].s != "" && !IsExit(inbox[pos].s)
    requires inbox[pos].s !in files
    ensures Serve(files, inbox, pos) == Prepend([Notice(FILE_NOT_FOUND)], Serve(files, inbox, pos + 1))
  {
  }

  /** A file below the minimum size is reported with its size and the next request is served. */
  lemma ServeTooSmall(files: map<string, seq<uint8>>, inbox: seq<Inbound>, pos: nat)
    requires pos < |inbox| && inbox[pos].Text? && inbox[pos].s != "" && !IsExit(inbox[pos].s)
    requires inbox[pos].s in files && |files[inbox[pos].s]| < MIN_FILE_SIZE
    ensures Serve(files, inbox, pos)
         == Prepend([Notice(TooSmallText(|files[inbox[pos].s]|))], Serve(files, inbox, pos + 1))
  {
  }

  /** Any other existing file is split and transmitted, starting with the next event. */
  lemma ServeFile(files: map<string, seq<uint8>>, inbox: seq<Inbound>, pos: nat)
    requires pos < |inbox| && inbox[pos].Text? && inbox[pos].s != "" && !IsExit(inbox[pos].s)
    requires inbox[pos].s in files && |files[inbox[pos].s]| >= MIN_FILE_SIZE
    ensures Serve(files, inbox, pos)
         == Finish(files, inbox, pos, SendAll(Fragments(files[inbox[pos].s]), 0, inbox, pos + 1))
  {
  }

  /**
   * The retry loop of `handle_client` for one fragment, with `retry`
   * starting at 0 and reads taken from `inbox` from event `pos` on.
   */
  method TransmitFragment(f: Fragment, inbox: seq<Inbound>, pos: nat) returns (out: seq<Outbound>, attempt: Attempt)
    requires pos <= |inbox|
    ensures FragmentRun(out, attempt) == SendFragment(f, inbox, pos, 0)
  {
    ghost var total := SendFragment(f, inbox, pos, 0);
    out := [];
    var p := pos;
    var retry := 0;
    while retry < MAX_RETRY
      invariant retry <= MAX_RETRY && pos <= p <= |inbox|
      invariant out + SendFragment(f, inbox, p, retry).out == total.out
      invariant SendFragment(f, inbox, p, retry).attempt == total.attempt
      decreases |inbox| - p
    {
      ghost var before := out;
      var message := EncodeMessage(f.seqNum, f.checksum, f.payload);
      out := out + [Data(message)];
      if p == |inbox| {
        return out, ReplyMissing;
      }
      var reply := inbox[p];
      if reply == Text(AckText(f.seqNum)) {
        return out, Acked(p + 1);
      }
      SendFragmentRetry(f, inbox, p, retry);
      p := p + 1;
      if reply.Timeout? {
        retry := retry + 1;
      }
      assert before + [Data(message)] + SendFragment(f, inbox, p, retry).out
          == before + ([Data(message)] + SendFragment(f, inbox, p, retry).out);
    }
    attempt := Exhausted(p);
  }

  /** One round of the retry loop that neither stops nor gives up: send, read, go on. */
  lemma SendFragmentRetry(f: Fragment, inbox: seq<Inbound>, p: nat, retry: nat)
    requires retry < MAX_RETRY && p < |inbox| && inbox[p] != Text(AckText(f.seqNum))
    ensures var next := SendFragment(f, inbox, p + 1, if inbox[p].Timeout? then retry + 1 else retry);
      SendFragment(f, inbox, p, retry) == FragmentRun([Data(FrameOf(f))] + next.out, next.attempt)
  {
  }

  /** A fragment acknowledged in time is followed by the rest of the file. */
  lemma SendAllAcked(frags: seq<Fragment>, i: nat, inbox: seq<Inbound>, p: nat)
    requires i < |frags| && p <= |inbox| && SendFragment(frags[i], inbox, p, 0).attempt.Acked?
    ensures var run := SendFragment(frags[i], inbox, p, 0);
      var rest := SendAll(frags, i + 1, inbox, run.attempt.next);
      SendAll(frags, i, inbox, p) == Transfer(run.out + rest.out, rest.end)
  {
  }

  /** A fragment that is not acknowledged ends the transmission. */
  lemma SendAllStops(frags: seq<Fragment>, i: nat, inbox: seq<Inbound>, p: nat)
    requires i < |frags| && p <= |inbox| && !SendFragment(frags[i], inbox, p, 0).attempt.Acked?
    ensures var run := SendFragment(frags[i], inbox, p, 0);
      SendAll(frags, i, inbox, p)
        == if run.attempt.Exhausted? then Transfer(run.out + [Notice(TRANSMISSION_FAILED)], Failed)
           else Transfer(run.out, Interrupted)
  {
  }

  /** The messages `out` already written, followed by the transfer `t`. */
  function Extend(out: seq<Outbound>, t: Transfer): Transfer
  {
    Transfer(out + t.out, t.end)
  }

  lemma ExtendTwice(a: seq<Outbound>, b: seq<Outbound>, t: Transfer)
    ensures Extend(a, Extend(b, t)) == Extend(a + b, t)
  {
    assert a + (b + t.out) == a + b + t.out;
  }

  /** The `for seq_num, checksum_value, fragment in fragments` loop of `handle_client`. */
  method TransmitFile(frags: seq<Fragment>, inbox: seq<Inbound>, pos: nat) returns (out: seq<Outbound>, end: TransferEnd)
    requires pos <= |inbox|
    ensures Transfer(out, end) == SendAll(frags, 0, inbox, pos)
  {
    ghost var total := SendAll(frags, 0, inbox, pos);
    out := [];
    var p := pos;
    var i := 0;
    assert Extend([], total) == total;
    while i < |frags|
      invariant i <= |frags| && pos <= p <= |inbox|
      invariant Extend(out, SendAll(frags, i, inbox, p)) == total
      decreases |frags| - i
    {
      var sentFragment, attempt := TransmitFragment(frags[i], inbox, p);
      if !attempt.Acked? {
        SendAllStops(frags, i, inbox, p);
        if attempt.Exhausted? {
          ExtendTwice(out, sentFragment + [Notice(TRANSMISSION_FAILED)], Transfer([], Failed));
          out := out + (sentFragment + [Notice(TRANSMISSION_FAILED)]);
          return out, Failed;
        }
        ExtendTwice(out, sentFragment, Transfer([], Interrupted));
        out := out + sentFragment;
        return out, Interrupted;
      }
      SendAllAcked(frags, i, inbox, p);
      ExtendTwice(out, sentFragment, SendAll(frags, i + 1, inbox, attempt.next));
      out := out + sentFragment;
      p := attempt.next;
      i := i + 1;
    }
    end := Completed(p);
  }

  /** Whether the request loop goes on after one request, and from which event. */
  datatype Step = Continue(next: nat) | Stop(end: SessionEnd)

  /**
   * One pass of the request loop of `handle_client`: read a file name, then
   * end the session, report a missing or too small file, or transmit the file.
   */
  method HandleRequest(files: map<string, seq<uint8>>, inbox: seq<Inbound>, pos: nat)
    returns (out: seq<Outbound>, step: Step)
    requires pos <= |inbox|
    ensures step.Continue? ==> pos < step.next <= |inbox|
    ensures step.Continue? ==> Serve(files, inbox, pos) == Prepend(out, Serve(files, inbox, step.next))
    ensures step.Stop? ==> Serve(files, inbox, pos) == ServeResult(out, step.end)
  {
    if pos == |inbox| {
      return [], Stop(Disconnected);
    }
    var event := inbox[pos];
    if event.Timeout? {
      return [], Stop(RequestTimedOut);
    }
    var file := event.s;
    if file == "" {
      return [], Stop(Disconnected);
    }
    if IsExit(file) {
      ServeExit(files, inbox, pos);
      return [], Stop(ExitRequested);
    }
    if file !in files {
      ServeMissingFile(files, inbox, pos);
      return [Notice(FILE_NOT_FOUND)], Continue(pos + 1);
    }
    var fileData := files[file];
    if |fileData| < MIN_FILE_SIZE {
      ServeTooSmall(files, inbox, pos);
      return [Notice(TooSmallText(|fileData|))], Continue(pos + 1);
    }
    var fragments := SplitFile(fileData);
    ServeFile(files, inbox, pos);
    var sentFile, transferEnd := TransmitFile(fragments, inbox, pos + 1);
    if transferEnd.Failed? {
      return sentFile, Stop(TransferFailed);
    } else if transferEnd.Interrupted? {
      return sentFile, Stop(Disconnected);
    }
    out := sentFile + [Notice(FILE_SENT)];
    step := Continue(transferEnd.next);
  }

  lemma PrependTwice(a: seq<Outbound>, b: seq<Outbound>, r: ServeResult)
    ensures Prepend(a, Prepend(b, r)) == Prepend(a + b, r)
  {
    assert a + (b + r.out) == a + b + r.out;
  }

  /**
   * `handle_client` with the socket abstracted: reads come from `inbox` in
   * order, writes are collected in `sent`. It behaves exactly as `Session`.
   */
  method HandleClient(files: map<string, seq<uint8>>, inbox: seq<Inbound>)
    returns (sent: seq<Outbound>, end: SessionEnd)
    ensures ServeResult(sent, end) == Session(files, inbox)
  {
    sent := [Notice(WELCOME)];
    var pos := 0;
    while true
      invariant pos <= |inbox|
      invariant Prepend(sent, Serve(files, inbox, pos)) == Session(files, inbox)
      decreases |inbox| - pos
    {
      var out, step := HandleRequest(files, inbox, pos);
      if step.Stop? {
        return sent + out, step.end;
      }
      PrependTwice(sent, out, Serve(files, inbox, step.next));
      sent := sent + out;
      pos := step.next;
    }
  }
}
