/** From the bytes on the wire to the handlers, through the real buffers. */
module EndToEnd {
  import opened BufferedReader
  import opened RequestLoop
  import opened Pipelining
  import opened HttpText
  import opened Connection

  /**
   A worker that has served any connections before hands over exactly the requests a client
   pipelines on the next one, in whatever non-empty pieces they arrive.
   */
  method ServePipelined(w: Worker, earlier: seq<seq<Event>>, hs: seq<Http>, events: seq<Event>,
                        decide: nat -> nat -> Outcome)
    returns (log: seq<Handled>, bad: bool)
    requires w.Valid() && w.reader.start == w.reader.end
    requires forall h :: h in hs ==> HttpText.Valid(h)
    requires forall e :: e in events ==> e.Chunk? && e.bytes != []
    requires Delivered(events) == Text(Messages(hs))
    requires forall i: nat :: i < |hs| ==> Smooth(decide(|earlier|)(i), MessageOf(hs[i]))
    modifies w, w.buf, w.reader, w.reader.buffer
    ensures log == Sent(hs) && !bad
  {
    var served := ServeConnections(w, earlier + [events], decide);
    PipelinedTextIsRecovered(hs, events, decide(|earlier|));
    assert (earlier + [events])[|earlier|] == events;
    log, bad := served[|earlier|].log, served[|earlier|].bad;
  }
}
