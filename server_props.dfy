/**
 * What the sender's retry and request loops guarantee, stated over the
 * functions `SendFragment`, `SendAll` and `Serve` that `HandleClient` is
 * proved to follow.
 */
module ServerProperties {
  import opened Bytes
  import opened Fragmenter
  import opened Protocol
  import opened Server

  /** The number of timed-out reads among the events. */
  function Timeouts(events: seq<Inbound>): nat
  {
    if events == [] then 0 else (if events[0].Timeout? then 1 else 0) + Timeouts(events[1..])
  }

  /** No event in inbox[lo..hi] is the acknowledgment of fragment f. */
  predicate NoAck(f: Fragment, inbox: seq<Inbound>, lo: nat, hi: nat)
    requires lo <= hi <= |inbox|
  {
    forall k :: lo <= k < hi ==> inbox[k] != Text(AckText(f.seqNum))
  }

  lemma TimeoutsCons(inbox: seq<Inbound>, lo: nat, hi: nat)
    requires lo < hi <= |inbox|
    ensures Timeouts(inbox[lo..hi]) == (if inbox[lo].Timeout? then 1 else 0) + Timeouts(inbox[lo + 1..hi])
  {
    assert inbox[lo..hi][1..] == inbox[lo + 1..hi];
  }

  /** The retry loop of one fragment sends that fragment and nothing else, once per event it reads. */
  lemma {:induction false} SendFragmentResendsOnly(f: Fragment, inbox: seq<Inbound>, pos: nat, retry: nat)
    requires pos <= |inbox| && retry <= MAX_RETRY
    ensures var run := SendFragment(f, inbox, pos, retry);
      && (forall k :: 0 <= k < |run.out| ==> run.out[k] == Data(FrameOf(f)))
      && (run.attempt.Acked? || run.attempt.Exhausted? ==> |run.out| == run.attempt.next - pos)
      && (run.attempt.ReplyMissing? ==> |run.out| == |inbox| - pos + 1)
    decreases |inbox| - pos
  {
    if retry < MAX_RETRY && pos < |inbox| {
      var event := inbox[pos];
      if !(event.Text? && event.s == AckText(f.seqNum)) {
        SendFragmentResendsOnly(f, inbox, pos + 1, if event.Timeout? then retry + 1 else retry);
      }
    }
  }

  /** The loop stops on the first matching ACK, having seen fewer timeouts than the budget left. */
  lemma {:induction false} SendFragmentAcked(f: Fragment, inbox: seq<Inbound>, pos: nat, retry: nat)
    requires pos <= |inbox| && retry <= MAX_RETRY
    requires SendFragment(f, inbox, pos, retry).attempt.Acked?
    ensures var next := SendFragment(f, inbox, pos, retry).attempt.next;
      && inbox[next - 1] == Text(AckText(f.seqNum))
      && NoAck(f, inbox, pos, next - 1)
      && retry + Timeouts(inbox[pos..next - 1]) < MAX_RETRY
    decreases |inbox| - pos
  {
    var event := inbox[pos];
    if event.Text? && event.s == AckText(f.seqNum) {
      assert inbox[pos..pos] == [];
    } else {
      var nextRetry := if event.Timeout? then retry + 1 else retry;
      SendFragmentAcked(f, inbox, pos + 1, nextRetry);
      TimeoutsCons(inbox, pos, SendFragment(f, inbox, pos + 1, nextRetry).attempt.next - 1);
    }
  }

  /**
   * The loop gives up exactly when the timeouts it read use up the budget,
   * right after the timeout that used it up; other texts do not count.
   */
  lemma {:induction false} SendFragmentExhausted(f: Fragment, inbox: seq<Inbound>, pos: nat, retry: nat)
    requires pos <= |inbox| && retry <= MAX_RETRY
    requires SendFragment(f, inbox, pos, retry).attempt.Exhausted?
    ensures var next := SendFragment(f, inbox, pos, retry).attempt.next;
      && NoAck(f, inbox, pos, next)
      && retry + Timeouts(inbox[pos..next]) == MAX_RETRY
      && (retry < MAX_RETRY ==> pos < next && inbox[next - 1] == Timeout)
    decreases |inbox| - pos
  {
    if retry == MAX_RETRY {
      assert inbox[pos..pos] == [];
    } else {
      var event := inbox[pos];
      var nextRetry := if event.Timeout? then retry + 1 else retry;
      SendFragmentExhausted(f, inbox, pos + 1, nextRetry);
      var next := SendFragment(f, inbox, pos + 1, nextRetry).attempt.next;
      if next == pos + 1 {
        assert inbox[pos..next] == [event];
        assert inbox[pos + 1..next] == [];
      } else {
        TimeoutsCons(inbox, pos, next);
      }
    }
  }

  /** If the input ends before the loop stops, it read no acknowledgment and fewer timeouts than the budget. */
  lemma {:induction false} SendFragmentMissing(f: Fragment, inbox: seq<Inbound>, pos: nat, retry: nat)
    requires pos <= |inbox| && retry <= MAX_RETRY
    requires SendFragment(f, inbox, pos, retry).attempt.ReplyMissing?
    ensures NoAck(f, inbox, pos, |inbox|)
    ensures retry + Timeouts(inbox[pos..]) < MAX_RETRY
    decreases |inbox| - pos
  {
    if pos == |inbox| {
      assert inbox[pos..] == [];
    } else {
      var event := inbox[pos];
      SendFragmentMissing(f, inbox, pos + 1, if event.Timeout? then retry + 1 else retry);
      TimeoutsCons(inbox, pos, |inbox|);
      assert inbox[pos..|inbox|] == inbox[pos..];
      assert inbox[pos + 1..|inbox|] == inbox[pos + 1..];
    }
  }

  /**
   * The retry loop of one fragment: it only ever (re)sends that fragment,
   * once per event it reads, and
   * - it stops on the first matching `ACK:seq`, having seen fewer timeouts
   *   than the retry budget left;
   * - it gives up exactly when the timeouts it has read use up the budget,
   *   whatever NACKs or other texts came in between (they do not count),
   *   and reads nothing after the timeout that used it up;
   * - if the input ends first, it has read no acknowledgment.
   */
  lemma SendFragmentOutcome(f: Fragment, inbox: seq<Inbound>, pos: nat, retry: nat)
    requires pos <= |inbox| && retry <= MAX_RETRY
    ensures var run := SendFragment(f, inbox, pos, retry);
      forall k :: 0 <= k < |run.out| ==> run.out[k] == Data(FrameOf(f))
    ensures var run := SendFragment(f, inbox, pos, retry);
      run.attempt.Acked? ==>
        && |run.out| == run.attempt.next - pos
        && inbox[run.attempt.next - 1] == Text(AckText(f.seqNum))
        && NoAck(f, inbox, pos, run.attempt.next - 1)
        && retry + Timeouts(inbox[pos..run.attempt.next - 1]) < MAX_RETRY
    ensures var run := SendFragment(f, inbox, pos, retry);
      run.attempt.Exhausted? ==>
        && |run.out| == run.attempt.next - pos
        && NoAck(f, inbox, pos, run.attempt.next)
        && retry + Timeouts(inbox[pos..run.attempt.next]) == MAX_RETRY
        && (retry < MAX_RETRY ==> pos < run.attempt.next && inbox[run.attempt.next - 1] == Timeout)
    ensures var run := SendFragment(f, inbox, pos, retry);
      run.attempt.ReplyMissing? ==>
        && |run.out| == |inbox| - pos + 1
        && NoAck(f, inbox, pos, |inbox|)
        && retry + Timeouts(inbox[pos..]) < MAX_RETRY
  {
    SendFragmentResendsOnly(f, inbox, pos, retry);
    match SendFragment(f, inbox, pos, retry).attempt
    case Acked(_) => SendFragmentAcked(f, inbox, pos, retry);
    case Exhausted(_) => SendFragmentExhausted(f, inbox, pos, retry);
    case ReplyMissing => SendFragmentMissing(f, inbox, pos, retry);
  }

  /**
   * When no acknowledgment ever arrives, the fragment is sent once per
   * remaining retry and the loop gives up.
   */
  lemma {:induction false} TimeoutsExhaustRetries(f: Fragment, inbox: seq<Inbound>, pos: nat, retry: nat)
    requires retry <= MAX_RETRY && pos + (MAX_RETRY - retry) <= |inbox|
    requires forall k :: pos <= k < pos + (MAX_RETRY - retry) ==> inbox[k] == Timeout
    ensures SendFragment(f, inbox, pos, retry)
         == FragmentRun(seq(MAX_RETRY - retry, _ => Data(FrameOf(f))), Exhausted(pos + (MAX_RETRY - retry)))
    decreases MAX_RETRY - retry
  {
    if retry < MAX_RETRY {
      TimeoutsExhaustRetries(f, inbox, pos + 1, retry + 1);
      assert [Data(FrameOf(f))] + seq(MAX_RETRY - retry - 1, _ => Data(FrameOf(f)))
          == seq(MAX_RETRY - retry, _ => Data(FrameOf(f)));
    }
  }

  /**
   * A file transmission writes only data messages, except that a failed one
   * ends with "Transmission failed"; in particular it never writes
   * "File sent successfully" itself.
   */
  lemma {:induction false} TransferOutput(frags: seq<Fragment>, i: nat, inbox: seq<Inbound>, pos: nat)
    requires i <= |frags| && pos <= |inbox|
    ensures var t := SendAll(frags, i, inbox, pos);
      forall k :: 0 <= k < |t.out| ==> t.out[k].Data? || (t.end.Failed? && k == |t.out| - 1)
    ensures var t := SendAll(frags, i, inbox, pos);
      t.end.Failed? ==> |t.out| > 0 && t.out[|t.out| - 1] == Notice(TRANSMISSION_FAILED)
    decreases |frags| - i
  {
    if i < |frags| {
      var run := SendFragment(frags[i], inbox, pos, 0);
      SendFragmentOutcome(frags[i], inbox, pos, 0);
      if run.attempt.Acked? {
        TransferOutput(frags, i + 1, inbox, run.attempt.next);
      }
    }
  }

  /**
   * A transmission completes only if every fragment from i on was
   * acknowledged, in order: `acks[j]` is the event that acknowledged
   * fragment i + j, and these events come one after another.
   */
  lemma {:induction false} CompletedMeansAllAcked(frags: seq<Fragment>, i: nat, inbox: seq<Inbound>, pos: nat)
    returns (acks: seq<nat>)
    requires i <= |frags| && pos <= |inbox|
    requires SendAll(frags, i, inbox, pos).end.Completed?
    ensures |acks| == |frags| - i
    ensures forall j :: 0 <= j < |acks| ==>
      pos <= acks[j] < SendAll(frags, i, inbox, pos).end.next
      && inbox[acks[j]] == Text(AckText(frags[i + j].seqNum))
    ensures forall j, k :: 0 <= j < k < |acks| ==> acks[j] < acks[k]
    decreases |frags| - i
  {
    if i == |frags| {
      acks := [];
    } else {
      var run := SendFragment(frags[i], inbox, pos, 0);
      if !run.attempt.Acked? {
        SendAllStops(frags, i, inbox, pos);
        assert false;
      }
      SendAllAcked(frags, i, inbox, pos);
      SendFragmentAcked(frags[i], inbox, pos, 0);
      var p := run.attempt.next;
      var rest := CompletedMeansAllAcked(frags, i + 1, inbox, p);
      acks := [p - 1] + rest;
    }
  }

  /**
   * For a request naming an existing file of at least MIN_FILE_SIZE bytes,
   * the sender first writes the transmission's messages and then
   * "File sent successfully" exactly when every fragment was acknowledged
   * in order; otherwise the session ends right after them.
   */
  lemma FileSentNoticeIffAllAcked(files: map<string, seq<uint8>>, inbox: seq<Inbound>, pos: nat)
    requires pos < |inbox| && inbox[pos].Text? && inbox[pos].s != "" && !IsExit(inbox[pos].s)
    requires inbox[pos].s in files && |files[inbox[pos].s]| >= MIN_FILE_SIZE
    ensures var t := SendAll(Fragments(files[inbox[pos].s]), 0, inbox, pos + 1);
      var r := Serve(files, inbox, pos);
      && |t.out| <= |r.out| && r.out[..|t.out|] == t.out
      && Notice(FILE_SENT) !in t.out
      && (t.end.Completed? <==> |r.out| > |t.out| && r.out[|t.out|] == Notice(FILE_SENT))
      && (t.end.Failed? ==> r == ServeResult(t.out, TransferFailed))
  {
    var t := SendAll(Fragments(files[inbox[pos].s]), 0, inbox, pos + 1);
    ServeFile(files, inbox, pos);
    TransferOutput(Fragments(files[inbox[pos].s]), 0, inbox, pos + 1);
    var r := Serve(files, inbox, pos);
    if t.end.Completed? {
      assert r.out == t.out + [Notice(FILE_SENT)] + Serve(files, inbox, t.end.next).out;
      assert r.out[..|t.out|] == t.out;
    } else {
      assert r.out == t.out;
    }
  }
}
