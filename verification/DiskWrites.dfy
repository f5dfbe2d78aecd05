/** When an event changes what is on disk, and where: a block is written before its piece is checked. */
module DiskWrites {
  import opened Bytes
  import opened Torrents
  import opened OutputStore
  import opened DownloadState
  import opened DownloadInvariant
  import opened DownloadProgress

  /** A write inside the content changes it exactly when the bytes taken differ from those they replace. */
  lemma WriteChanges(content: bytes, at: nat, data: bytes, limit: nat)
    requires 0 < |data| && at + |data| <= |content|
    ensures var n := Min(limit, |data|);
            Written(content, at, data, limit) != content <==> data[..n] != content[at..at + n]
  {
    var n := Min(limit, |data|);
    var after := Written(content, at, data, limit);
    assert after[at..at + n] == data[..n];
    if data[..n] == content[at..at + n] {
      assert after == content;
    }
  }

  /** The event delivers a new block, and the disk takes bytes of it that differ from those it holds there. */
  ghost predicate Overwrites(cfg: Config, s: State, e: Event)
    requires Inv(cfg, s)
  {
    && Accepted(cfg, s, e).Some?
    && var Arrival(p, b, data) := Accepted(cfg, s, e).value;
       && IsBlock(cfg.torrent, p, b)
       && (BlockBounds(cfg.torrent, p, b); PieceBounds(cfg.torrent, p);
           var at, n := BlockStart(cfg.torrent, p, b), Min(e.written, |data|);
           at + n <= |s.disk| && data[..n] != s.disk[at..at + n])
  }

  /** The hash check and what follows it leave the disk as the write left it. */
  lemma DiskAfter(cfg: Config, s: State, e: Event)
    requires Inv(cfg, s) && Accepted(cfg, s, e).Some?
    ensures var Arrival(p, b, data) := Accepted(cfg, s, e).value;
            && IsBlock(cfg.torrent, p, b) && !s.completed[p] && 0 <= BlockStart(cfg.torrent, p, b)
            && |data| == BlockLength(cfg.torrent, p, b)
            && Step(cfg, s, e).disk == Written(s.disk, BlockStart(cfg.torrent, p, b), data, e.written)
  {
    var s2 := AcceptedStep(cfg, s, e);
    ReceiveShows(cfg, s, s2, e);
  }

  lemma AcceptedChanges(cfg: Config, s: State, e: Event)
    requires Inv(cfg, s) && Accepted(cfg, s, e).Some?
    ensures Step(cfg, s, e).disk != s.disk <==> Overwrites(cfg, s, e)
  {
    var Arrival(p, b, data) := Accepted(cfg, s, e).value;
    DiskAfter(cfg, s, e);
    BlockBounds(cfg.torrent, p, b);
    PieceBounds(cfg.torrent, p);
    WriteChanges(s.disk, BlockStart(cfg.torrent, p, b), data, e.written);
  }

  /**
    An event changes the disk exactly when it delivers a new block of which the disk takes bytes that differ from
    those it holds. Whether the piece hashes right plays no part; the piece is one that is not complete.
   */
  lemma DiskChangesExactlyWhen(cfg: Config, s: State, e: Event)
    requires Inv(cfg, s)
    ensures Step(cfg, s, e).disk != s.disk <==> Overwrites(cfg, s, e)
    ensures Overwrites(cfg, s, e) ==> !s.completed[Accepted(cfg, s, e).value.piece]
  {
    if Accepted(cfg, s, e).None? {
      NothingAccepted(cfg, s, e);
    } else {
      AcceptedChanges(cfg, s, e);
      DiskAfter(cfg, s, e);
    }
  }
}
