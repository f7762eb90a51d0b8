/** A document read by `skip` then `end`: whatever the chunks, the grammar of RFC 8259 within the reader's bounds. */
module Documents {
  import opened Octets
  import opened Grammar
  import opened Scanner
  import opened ScannerProofs
  import opened Utf8
  import opened Overlong
  import opened Streams

  /** Read a whole document and keep nothing of it. */
  method ReadDocument(source: Source, builds: Octets -> bool) returns (out: Outcome)
    requires !source.raised
    modifies source
    ensures out == Fail(ReadRaised) <==> source.raised
    ensures
      var d := old(source.unread);
      out != Fail(ReadRaised) ==>
        (out.Pass? <==> IsUtf8(d) && exists t :: IsDocument(d, t, MAX_STREAM_DEPTH, Admitted(builds)))
    ensures
      var d := old(source.unread);
      var s := ScanDocument(d, builds);
      out.Fail? && out != Fail(ReadRaised) && IsUtf8(d) ==>
        s.No? &&
        if s.why != NumberTooLong then out.why == s.why
        else RefusedAs(d, s.at, builds, out.why) || (out.why == MoreThanOneValue && Cuts(d, s.at, builds))
  {
    hide ScanValue, IsUtf8, IsDocument, Admitted, JsonStream.Faithful, RefusedAs, CutEnd, CanCut;
    var stream := new JsonStream(source, builds);
    ghost var d := stream.doc;
    DocumentIsGrammar(d, builds);
    out := stream.Skip();
    if out.Pass? {
      ghost var s := ScanValue(d, 0, MAX_STREAM_DEPTH, builds);
      if s.No? {
        CutDangles(d, s.at);
      }
      out := stream.End();
    }
  }
}
