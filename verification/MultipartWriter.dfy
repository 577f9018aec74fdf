/**
 The two threads of a streaming multipart upload as the code runs them, each on its own: the
 writer's buffering loop and the uploader's receive loop. Their interleaving is the subject of
 `UploadProtocol`; here each loop is tied to what it sends or calls.
 */
module MultipartWriter {
  import opened Wrappers
  import opened ByteStrings
  import opened PartSchedule
  import opened UploadProtocol

  function DataMessages(parts: seq<Bytes>): seq<Msg> {
    seq(|parts|, i requires 0 <= i < |parts| => Data(parts[i]))
  }

  lemma DataMessagesConcat(a: seq<Bytes>, b: seq<Bytes>)
    ensures DataMessages(a + b) == DataMessages(a) + DataMessages(b)
  {
  }

  /** The channel as the writer sees it: sends succeed until the receiver has exited, and fail from then on. */
  class Link {
    const accepts: nat
    var messages: seq<Msg>

    constructor (accepts: nat)
      ensures this.accepts == accepts && messages == []
    {
      this.accepts := accepts;
      messages := [];
    }

    method Send(m: Msg) returns (ok: bool)
      modifies this
      ensures ok <==> |old(messages)| < accepts
      ensures messages == if ok then old(messages) + [m] else old(messages)
    {
      ok := |messages| < accepts;
      if ok {
        messages := messages + [m];
      }
    }
  }

  lemma OneMoreMessage(sent: seq<Bytes>, part: Bytes)
    ensures DataMessages(sent + [part]) == DataMessages(sent) + [Data(part)]
  {
  }

  lemma SentCount(sent: seq<Bytes>)
    ensures |DataMessages(sent)| == |sent|
  {
  }

  /** In the middle of a write: the parts sent and what is still buffered make up the cut of what was written. */
  ghost predicate Cutting(sent: seq<Bytes>, buffer: Bytes, partsSent: nat, written: Bytes) {
    partsSent == |sent| && sent + FullParts(buffer, partsSent) == FullParts(written, 0) &&
    Rest(buffer, partsSent) == Rest(written, 0)
  }

  lemma CuttingStarts(before: Bytes, buf: Bytes)
    ensures var sent := FullParts(before, 0); Cutting(sent, Rest(before, 0) + buf, |sent|, before + buf)
  {
    hide FullParts, Rest;
    CutResumes(before, buf, 0);
  }

  lemma CuttingGoesOn(sent: seq<Bytes>, buffer: Bytes, partsSent: nat, written: Bytes)
    requires Cutting(sent, buffer, partsSent, written) && |buffer| >= PartSize(partsSent)
    ensures Cutting(sent + [buffer[..PartSize(partsSent)]], buffer[PartSize(partsSent)..], partsSent + 1, written)
    ensures |sent| < |FullParts(written, 0)|
  {
    hide PartSize, FullParts, Rest;
    CutStep(buffer, partsSent);
    var part, later := buffer[..PartSize(partsSent)], FullParts(buffer[PartSize(partsSent)..], partsSent + 1);
    assert sent + ([part] + later) == (sent + [part]) + later;
  }

  lemma CuttingEnds(sent: seq<Bytes>, buffer: Bytes, partsSent: nat, written: Bytes)
    requires Cutting(sent, buffer, partsSent, written) && |buffer| < PartSize(partsSent)
    ensures sent == FullParts(written, 0) && buffer == Rest(written, 0) && partsSent == |sent|
  {
    hide PartSize, FullParts, Rest;
    CutNothing(buffer, partsSent);
    assert sent + [] == sent;
  }

  class StreamingMultipartWriter {
    const link: Link
    var buffer: Bytes
    var partsSent: nat
    var totalBytes: nat
    var open: bool
    ghost var written: Bytes
    ghost var intact: bool

    /** While no send has failed, the channel got the full parts of what was written, and the buffer holds the rest. */
    ghost predicate Valid()
      reads this, link
    {
      totalBytes == |written| &&
      (intact && open ==>
         link.messages == DataMessages(FullParts(written, 0)) && buffer == Rest(written, 0) &&
         partsSent == |FullParts(written, 0)|)
    }

    constructor (link: Link)
      requires link.messages == []
      ensures Valid() && open && intact && written == [] && this.link == link
    {
      this.link := link;
      buffer, partsSent, totalBytes, open := [], 0, 0, true;
      written, intact := [], true;
      new;
      CutNothing([], 0);
    }

    method Send(part: Bytes) returns (ok: bool)
      modifies link
      ensures ok <==> open && |old(link.messages)| < link.accepts
      ensures link.messages == if ok then old(link.messages) + [Data(part)] else old(link.messages)
    {
      if open {
        ok := link.Send(Data(part));
      } else {
        ok := false;
      }
    }

    /** Buffers the bytes and sends every part that is full by now; an error means the channel took no more. */
    method Write(buf: Bytes) returns (ok: bool)
      requires Valid()
      modifies this, link
      ensures Valid() && written == old(written) + buf && open == old(open)
      ensures ok ==> intact == old(intact)
      ensures !ok ==> !intact && (!open || |link.messages| >= link.accepts)
      ensures !ok && open && old(intact) ==> link.accepts < |FullParts(written, 0)|
    {
      hide PartSize, FullParts, Rest, Cutting, DataMessages;
      written := written + buf;
      ghost var sent := if intact && open then FullParts(old(written), 0) else [];
      if intact {
        CuttingStarts(old(written), buf);
      }
      buffer := buffer + buf;
      totalBytes := totalBytes + |buf|;
      while true
        invariant totalBytes == |written| && written == old(written) + buf && open == old(open) && intact == old(intact)
        invariant intact && open ==> link.messages == DataMessages(sent) && Cutting(sent, buffer, partsSent, written)
        decreases |buffer|
      {
        var partSize := PartSize(partsSent);
        if |buffer| < partSize {
          if intact && open {
            CuttingEnds(sent, buffer, partsSent, written);
          }
          break;
        }
        if intact && open {
          CuttingGoesOn(sent, buffer, partsSent, written);
        }
        var part := buffer[..partSize];
        buffer := buffer[partSize..];
        ok := Send(part);
        if !ok {
          SentCount(sent);
          intact := false;
          return;
        }
        OneMoreMessage(sent, part);
        sent := sent + [part];
        partsSent := partsSent + 1;
      }
      ok := true;
    }

    /**
     The first half of `finish`: the last part and the end signal, with send errors ignored. A
     channel that takes everything has then received the parts of the bytes written and one `Finish`.
     */
    method CloseChannel() returns (joinable: bool)
      requires Valid()
      modifies this, link
      ensures joinable == old(open) && !open && written == old(written) && intact == old(intact) &&
              totalBytes == |written|
      ensures joinable && intact && |PartsOf(written)| < link.accepts ==>
                link.messages == DataMessages(PartsOf(written)) + [Finish]
    {
      hide FullParts, Rest;
      PartsCases(written);
      var last := buffer;
      buffer := [];
      if last != [] || partsSent == 0 {
        var _ := Send(last);
        DataMessagesConcat(FullParts(written, 0), [last]);
        assert DataMessages([last]) == [Data(last)];
      }
      joinable := open;
      if open {
        open := false;
        var _ := link.Send(Finish);
      }
    }

    /** The second half: the uploader's own error, if it is there to be joined, or the total. */
    method Report(joinable: bool, joined: Result<(), string>) returns (r: Result<nat, string>)
      ensures r == if joinable && joined.Failure? then Failure(joined.error) else Success(totalBytes)
    {
      if joinable && joined.Failure? {
        return Failure(joined.error);
      }
      r := Success(totalBytes);
    }

    /** `finish`, given how the uploader ended: its error is reported, whatever became of the sends. */
    method FinishUpload(joined: Result<(), string>) returns (r: Result<nat, string>)
      requires Valid()
      modifies this, link
      ensures r == if old(open) && joined.Failure? then Failure(joined.error) else Success(|written|)
      ensures written == old(written) && !open
      ensures old(open) && intact && |PartsOf(written)| < link.accepts ==>
                link.messages == DataMessages(PartsOf(written)) + [Finish]
    {
      var joinable := CloseChannel();
      r := Report(joinable, joined);
    }

    /** Gives up the sender after an abort signal. */
    method Abort()
      requires Valid()
      modifies this, link
      ensures Valid() && !open && written == old(written)
      ensures link.messages ==
              if old(open) && |old(link.messages)| < link.accepts then old(link.messages) + [UploadProtocol.Abort]
              else old(link.messages)
    {
      if open {
        open := false;
        var _ := link.Send(UploadProtocol.Abort);
      }
    }
  }

  /** The backend: it may answer each call any way it likes, and every call is recorded. */
  class Sink {
    const onPart: (nat, Bytes) -> Result<string, string>
    const onComplete: seq<string> -> Result<(), string>
    var log: seq<Event>

    constructor (onPart: (nat, Bytes) -> Result<string, string>, onComplete: seq<string> -> Result<(), string>)
      ensures log == [] && this.onPart == onPart && this.onComplete == onComplete
    {
      this.onPart, this.onComplete := onPart, onComplete;
      log := [];
    }

    method SendPart(number: nat, part: Bytes) returns (r: Result<string, string>)
      modifies this
      ensures r == onPart(number, part)
      ensures log == old(log) + [if r.Success? then Sent(number, part, r.value) else SendFailed(number, part, r.error)]
    {
      r := onPart(number, part);
      log := log + [if r.Success? then Sent(number, part, r.value) else SendFailed(number, part, r.error)];
    }

    method CompleteUploadCall(tokens: seq<string>) returns (r: Result<(), string>)
      modifies this
      ensures r == onComplete(tokens)
      ensures log == old(log) + [if r.Success? then Completed(tokens) else CompleteFailed(tokens, r.error)]
    {
      r := onComplete(tokens);
      log := log + [if r.Success? then Completed(tokens) else CompleteFailed(tokens, r.error)];
    }

    method AbortCall()
      modifies this
      ensures log == old(log) + [Aborted]
    {
      log := log + [Aborted];
    }
  }

  /** The parts before the first message that is not data. */
  function LeadingParts(inbox: seq<Msg>): seq<Bytes> {
    if inbox == [] || !inbox[0].Data? then [] else [inbox[0].part] + LeadingParts(inbox[1..])
  }

  lemma {:induction false} LeadingPartsAre(inbox: seq<Msg>)
    ensures var n := |LeadingParts(inbox)|;
            n <= |inbox| && DataMessages(LeadingParts(inbox)) == inbox[..n] && (n < |inbox| ==> !inbox[n].Data?)
  {
    if inbox != [] && inbox[0].Data? {
      LeadingPartsAre(inbox[1..]);
      var later := LeadingParts(inbox[1..]);
      DataMessagesConcat([inbox[0].part], later);
      assert inbox[..|later| + 1] == [inbox[0]] + inbox[1..][..|later|];
    }
  }

  lemma LeadingHere(inbox: seq<Msg>, i: nat)
    requires i <= |LeadingParts(inbox)| && i < |inbox|
    ensures i < |LeadingParts(inbox)| <==> inbox[i].Data?
    ensures inbox[i].Data? ==> inbox[i].part == LeadingParts(inbox)[i]
  {
    var parts := LeadingParts(inbox);
    LeadingPartsAre(inbox);
    assert i < |parts| ==> DataMessages(parts)[i] == inbox[..|parts|][i];
  }

  /** The sink took the first `n` parts, with these tokens. */
  ghost predicate TookParts(sink: Sink, parts: seq<Bytes>, n: nat, tokens: seq<string>)
  {
    n <= |parts| && |tokens| == n && forall i | 0 <= i < n :: sink.onPart(i + 1, parts[i]) == Success(tokens[i])
  }

  /**
   The receive loop on the messages it is sent before the channel closes. Parts go to the sink in
   order until one fails or a control message, or the end of the channel, decides how it closes.
   */
  method RunUploader(sink: Sink, inbox: seq<Msg>) returns (r: Result<(), string>, ghost tokens: seq<string>)
    requires sink.log == []
    modifies sink
    ensures var parts := LeadingParts(inbox); var n := |tokens|;
            TookParts(sink, parts, n, tokens) &&
            if n < |parts| then
              sink.onPart(n + 1, parts[n]).Failure? && r == Failure(sink.onPart(n + 1, parts[n]).error) &&
              sink.log == Deliveries(parts[..n], tokens) + [SendFailed(n + 1, parts[n], r.error), Aborted]
            else if n < |inbox| && inbox[n].Finish? then
              r == sink.onComplete(tokens) &&
              sink.log == Deliveries(parts, tokens) +
              [if r.Success? then Completed(tokens) else CompleteFailed(tokens, r.error)]
            else
              r == Success(()) && sink.log == Deliveries(parts, tokens) + [Aborted]
  {
    var partNumber := 1;
    var received: seq<string> := [];
    var i := 0;
    ghost var parts := LeadingParts(inbox);
    LeadingPartsAre(inbox);
    while true
      invariant i <= |inbox| && i == |received| && partNumber == i + 1 && TookParts(sink, parts, i, received)
      invariant sink.log == Deliveries(parts[..i], received)
      decreases |inbox| - i
    {
      tokens := received;
      assert i == |parts| ==> parts[..i] == parts;
      if i >= |inbox| {
        sink.AbortCall();
        return Success(()), tokens;
      }
      LeadingHere(inbox, i);
      match inbox[i] {
        case Data(data) =>
          var answer := sink.SendPart(partNumber, data);
          match answer {
            case Success(token) =>
              DeliveriesAppend(parts[..i], received, data, token);
              assert parts[..i + 1] == parts[..i] + [data];
              received := received + [token];
              partNumber := partNumber + 1;
            case Failure(e) =>
              sink.AbortCall();
              return Failure(e), tokens;
          }
        case Finish =>
          r := sink.CompleteUploadCall(received);
          return;
        case Abort =>
          sink.AbortCall();
          return Success(()), tokens;
      }
      i := i + 1;
    }
  }

  /** On what a finishing writer sends, the receive loop's parts are the parts of the bytes written. */
  lemma {:induction false} LeadingPartsOf(parts: seq<Bytes>, m: Msg)
    requires !m.Data?
    ensures LeadingParts(DataMessages(parts) + [m]) == parts
  {
    var inbox := DataMessages(parts) + [m];
    if parts != [] {
      LeadingPartsOf(parts[1..], m);
      assert inbox[1..] == DataMessages(parts[1..]) + [m];
    }
  }

  lemma FullPartsFit(a: Bytes, b: Bytes)
    ensures |FullParts(a, 0)| <= |FullParts(a + b, 0)| <= |PartsOf(a + b)|
  {
    CutResumes(a, b, 0);
  }

  lemma {:induction false} ConcatPrefix(chunks: seq<Bytes>, i: nat)
    requires i <= |chunks|
    ensures Concat(chunks) == Concat(chunks[..i]) + Concat(chunks[i..])
  {
    if i > 0 {
      ConcatPrefix(chunks[1..], i - 1);
      assert chunks[..i][1..] == chunks[1..][..i - 1] && chunks[i..] == chunks[1..][i - 1..];
    }
  }

  /** The sink refused a part or the completion with this error. */
  ghost predicate Refusal(sink: Sink, parts: seq<Bytes>, tokens: seq<string>, error: string) {
    var n := |tokens|;
    if n < |parts| then sink.onPart(n + 1, parts[n]) == Failure(error) else sink.onComplete(tokens) == Failure(error)
  }

  /**
   A whole upload with both loops run one after the other: chunks are written, the channel is
   closed, the uploader handles what the channel holds, and `finish` reports. Ok means that the
   sink has completed exactly the parts of all bytes; an error is the one the sink gave.
   */
  method Upload(sink: Sink, chunks: seq<Bytes>) returns (r: Result<nat, string>, ghost tokens: seq<string>)
    requires sink.log == []
    modifies sink
    ensures var parts := PartsOf(Concat(chunks));
            TookParts(sink, parts, |tokens|, tokens) &&
            match r
            case Success(total) => CompleteUpload(sink.log, parts, tokens) && total == |Concat(chunks)|
            case Failure(e) => Refusal(sink, parts, tokens, e) && forall ts :: Completed(ts) !in sink.log
  {
    hide FullParts, Rest, PartSize, PartsOf, Concat;
    ghost var all := Concat(chunks);
    var link := new Link(|PartsOf(Concat(chunks))| + 1);
    var writer := new StreamingMultipartWriter(link);
    NothingYet(chunks);
    for i := 0 to |chunks|
      invariant fresh(link) && fresh(writer) && sink.log == [] && writer.link == link &&
                link.accepts == |PartsOf(all)| + 1
      invariant writer.Valid() && writer.open && writer.intact && writer.written == Concat(chunks[..i])
    {
      ConcatAppend(chunks[..i], chunks[i]);
      assert chunks[..i + 1] == chunks[..i] + [chunks[i]];
      ConcatPrefix(chunks, i + 1);
      FullPartsFit(Concat(chunks[..i + 1]), Concat(chunks[i + 1..]));
      var ok := writer.Write(chunks[i]);
    }
    assert chunks[..|chunks|] == chunks;
    var joinable := writer.CloseChannel();
    LeadingPartsOf(PartsOf(all), Finish);
    var joined;
    joined, tokens := RunUploader(sink, link.messages);
    assert |tokens| == |PartsOf(all)| ==> PartsOf(all)[..|tokens|] == PartsOf(all);
    r := writer.Report(joinable, joined);
  }

  lemma NothingYet(chunks: seq<Bytes>)
    ensures Concat(chunks[..0]) == []
  {
  }
}
