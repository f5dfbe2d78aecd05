/** What a download has completed is found again when it is started anew on the files it left. */
module Restart {
  import opened Bytes
  import opened Torrents
  import opened OutputStore
  import opened DownloadState
  import opened DownloadInvariant
  import opened DownloadRuns
  import opened Downloading

  /** The files as the targets of another start. */
  function Left(files: seq<OutputFile>): seq<Target> {
    seq(|files|, i requires 0 <= i < |files| => Regular(files[i].data))
  }

  /** Every piece can be read in full. */
  ghost predicate AllReadable(t: TorrentInfo, readable: seq<nat>) {
    |readable| == t.NumPieces() && forall p | 0 <= p < |readable| :: readable[p] >= PieceSize(t, p)
  }

  /** Byte `x` of the content is byte `k` of file `i`. */
  lemma {:induction false} HomeOf(lengths: seq<nat>, x: nat) returns (i: nat, k: nat)
    requires x < Sum(lengths)
    ensures i < |lengths| && k < lengths[i] && x == Sum(lengths[..i]) + k
    decreases |lengths|
  {
    var n := |lengths| - 1;
    if x < Sum(lengths[..n]) {
      i, k := HomeOf(lengths[..n], x);
      assert lengths[..n][..i] == lengths[..i];
    } else {
      i, k := n, x - Sum(lengths[..n]);
    }
  }

  /** Opened again, without being overwritten, the files hold what they held. */
  lemma SameContentAgain(files: seq<OutputFile>, content: bytes)
    requires Layout(files) && OpensTo(content, Sizes(files), Left(files), false)
    ensures content == Flat(files)
  {
    FlatLength(files);
    forall x: nat | x < |content|
      ensures content[x] == Flat(files)[x]
    {
      var i, k := HomeOf(Sizes(files), x);
      PlaceBySizes(files, i);
      assert OpensAt(content, Sum(Sizes(files)[..i]), Left(files)[i], false, k);
      assert Flat(files)[files[i].startOffset..files[i].startOffset + files[i].length][k] == Flat(files)[x];
    }
  }

  lemma CanBeOpenedAgain(files: seq<OutputFile>)
    requires Layout(files)
    ensures forall i | 0 <= i < |files| :: FitsIn(Left(files)[i], Sizes(files)[i], false)
  {
    forall i | 0 <= i < |files|
      ensures |files[i].data| == files[i].length
    {
      FilePlace(files, i);
    }
  }

  /** A scan of what a state has on disk finds every piece that is complete in it. */
  lemma ScanFindsCompleted(cfg: Config, s: State, readable: seq<nat>, scanned: nat)
    requires Inv(cfg, s) && AllReadable(cfg.torrent, readable) && scanned >= cfg.torrent.NumPieces()
    ensures CanStart(cfg, s.disk, readable)
    ensures forall p | 0 <= p < |s.completed| && s.completed[p] :: Start(cfg, s.disk, readable, scanned).completed[p]
    ensures IsComplete(cfg, s) ==> IsComplete(cfg, Start(cfg, s.disk, readable, scanned))
  {
    var s' := Start(cfg, s.disk, readable, scanned);
    forall p | 0 <= p < |s.completed| && s.completed[p]
      ensures s'.completed[p]
    {
      assert PieceVerifies(cfg, s.disk, p);
      assert FoundGood(cfg, s.disk, readable, scanned, p);
    }
    BytesCounted(cfg, s);
    BytesCounted(cfg, s');
  }

  /**
    A download is started again, without overwriting, on the files that another one has left in whatever state. It
    starts on the same content with every completed piece completed; when all were, it is over before it has
    handled anything, with the content as it was.
   */
  method StartAgain(before: Downloader, readable: seq<nat>, scanned: nat, actions: seq<Event>)
    returns (started: bool, complete: bool, downloader: Downloader, ghost events: seq<Event>)
    requires before.Valid() && Sizes(before.output.files) == Lengths(before.cfg.torrent)
    requires AllReadable(before.cfg.torrent, readable) && scanned >= before.cfg.torrent.NumPieces()
    ensures started && downloader.Valid()
    ensures CanStart(before.cfg, before.output.Contents(), readable)
    ensures downloader.Abs() == Reached(before.cfg, before.output.Contents(), readable, scanned, events)
    ensures forall p | 0 <= p < |before.piecesCompleted| && before.piecesCompleted[p] ::
              Start(before.cfg, before.output.Contents(), readable, scanned).completed[p]
    ensures (forall p | 0 <= p < |before.piecesCompleted| :: before.piecesCompleted[p]) ==>
              complete && events == [] && downloader.output.Contents() == before.output.Contents()
  {
    ghost var s := before.Abs();
    ghost var disk;
    var files := before.output.files;
    CanBeOpenedAgain(files);
    started, complete, downloader, disk, events :=
      StartDownload(before.cfg, Left(files), false, readable, scanned, actions);
    SameContentAgain(files, disk);
    ScanFindsCompleted(before.cfg, s, readable, scanned);
    BytesCounted(before.cfg, s);
  }
}
