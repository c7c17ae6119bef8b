/** A sender and the right edge of the window that its peer has advertised (section 3.7 of RFC 793). */
module Edge {
  import opened Integers
  import opened Wrapping
  import opened Sender

  /** The sender's window ends by `edge`, and at most one number past it has been sent. */
  predicate Keeps(s: SenderState, edge: nat) {
    && 1 <= edge && s.Base() + s.win <= edge && s.nextSeqno <= edge + 1
    && (!s.syn ==> s.win == 1 && s.nextSeqno == 0)
  }

  lemma FillKeepsEdge(s: SenderState, edge: nat)
    requires s.Valid() && Keeps(s, edge)
    ensures Keeps(s.FillWindow(), edge)
  {
    FillKeeps(s);
  }

  lemma KeepsMore(s: SenderState, edge: nat, edge': nat)
    requires Keeps(s, edge) && edge <= edge'
    ensures Keeps(s, edge')
  {
  }

  /** Any acknowledgement keeps the sender within the edge, unless its window then ends beyond it. */
  lemma AckKeepsExactly(s: SenderState, ackno: u32, window: u16, edge: nat)
    requires s.Valid() && s.syn && Keeps(s, edge)
    ensures var a := Unwrap(ackno, s.isn, s.nextSeqno);
            Keeps(s.AckReceived(ackno, window), edge)
            <==> a > s.nextSeqno || s.Acknowledge(a).Base() + window <= edge
    ensures var s' := s.AckReceived(ackno, window); Keeps(s', edge) <==> s'.Base() + s'.win <= edge
  {
    var a := Unwrap(ackno, s.isn, s.nextSeqno);
    if a <= s.nextSeqno {
      var t := Acked(s, a, window);
      AckedValid(s, a, window);
      AcknowledgeKeeps(s, a);
      FillKeeps(t);
      if Keeps(t, edge) {
        FillKeepsEdge(t, edge);
      }
    }
  }

  /** An outdated acknowledgement removes nothing. */
  lemma OutdatedRemovesNothing(s: SenderState, a: nat)
    requires s.Tiled() && a < s.Base()
    ensures s.Acknowledge(a) == s
  {
  }

  /** When an acknowledgement makes the sender pass the edge by more than a probe. */
  lemma AckExceedsIff(s: SenderState, ackno: u32, window: u16, edge: nat)
    requires s.Valid() && s.syn && Keeps(s, edge)
    ensures var a := Unwrap(ackno, s.isn, s.nextSeqno);
            s.AckReceived(ackno, window).nextSeqno > edge + 1
            <==> && a <= s.nextSeqno && s.nextSeqno + s.Available() > edge + 1
                 && s.Acknowledge(a).Base() + Max(window, 1) > edge + 1
  {
    AckSends(s, ackno, window);
  }
}
