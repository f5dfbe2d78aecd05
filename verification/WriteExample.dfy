/** A download in which wrong bytes reach the disk: a piece is checked after it has been written. */
module WriteExample {
  import opened Bytes
  import opened Torrents
  import opened DownloadState
  import opened DownloadInvariant
  import opened DownloadRuns
  import opened SmallDownload

  /** The payload of a Block message: block 0 of piece 0, and the byte 1. */
  const PAYLOAD: bytes := [0, 0, 0, 0, 0, 0, 0, 0, 1]

  /** A peer is asked for the block and sends it; the disk works. */
  function Sending(now: int): seq<Event> {
    [Requested(A, 0, 1, now), BlockArrived(A, PAYLOAD, 1, 1, {})]
  }

  lemma PayloadParts()
    ensures BytesToInt(PAYLOAD) == 0 && BytesToInt(PAYLOAD[4..]) == 0 && PAYLOAD[8..] == [1]
  {
  }

  ghost function Received(now: int): State {
    BothReady(true, []).(pieces := [PieceState([true], [true], 1, 1)], downloaded := 1, disk := [1])
  }

  /** The block is written and counted. */
  lemma Arrives(now: int)
    requires 0 <= BlockStart(TORRENT, 0, 0)
    ensures FindFirst([Asked(A, now)], Copy(0, 0, A)) == 0
    ensures forall cfg: Config | cfg.torrent == TORRENT ::
              Receive(cfg, BothReady(true, []), 0, 0, [1], 1) == Received(now)
  {
    assert [false][0 := true] == [true];
    assert Splice(DISK, 0, [1][..1]) == [1];
  }

  /** The check fails, and the piece starts again; its bytes stay. */
  lemma Resets(cfg: Config, now: int)
    requires Setting(cfg) && cfg.sha1([1]) != HASH && 0 <= PieceStart(TORRENT, 0)
    ensures Finish(cfg, Received(now), 0, 1) == BothReady(false, []).(disk := [1])
  {
    SettingIsValid(cfg);
    OnlyPiece([1]);
    assert seq(1, _ => false) == [false];
  }

  lemma Arrived(cfg: Config, now: int)
    requires Setting(cfg) && cfg.sha1([1]) != HASH && Typed(cfg, BothReady(true, [Asked(A, now)]))
    ensures Step(cfg, BothReady(true, [Asked(A, now)]), BlockArrived(A, PAYLOAD, 1, 1, {}))
         == BothReady(false, []).(disk := [1])
  {
    SettingIsValid(cfg);
    PayloadParts();
    Arrives(now);
    Resets(cfg, now);
    assert RemoveAt([Asked(A, now)], 0) == [];
    NothingToCancel(BothReady(false, []).(disk := [1]));
  }

  lemma NothingToCancel(s: State)
    requires s == BothReady(false, []).(disk := [1])
    ensures CancelDuplicates(s, 0, 0, A, {}) == s
  {
    var sel := Duplicate(0, 0, A);
    assert Cleared(s.pieces, [], sel)[0].requested == [false];
    assert Cleared(s.pieces, [], sel) == s.pieces;
  }

  /**
    From the start of this download, nine events write a block whose piece does not have the torrent's hash: it is
    on disk, and the piece is not complete.
   */
  lemma WrittenBeforeChecked(cfg: Config, now: int)
    requires Setting(cfg) && cfg.sha1([1]) != HASH
    ensures CanStart(cfg, DISK, [1])
    ensures var s := Reached(cfg, DISK, [1], 1, Opening() + Sending(now));
            s.disk == [1] != DISK && s.completed == [false] && !PieceVerifies(cfg, s.disk, 0)
  {
    SettingIsValid(cfg);
    OpeningReaches(cfg);
    var s0, s1, es := BothReady(false, []), BothReady(true, [Asked(A, now)]), Sending(now);
    assert [] + [Asked(A, now)] == [Asked(A, now)];
    AsksOn(cfg, s0, es, 0, A, now, s1);
    RunOn(cfg, s1, es, 1);
    Arrived(cfg, now);
    assert es[0..] == es && es[2..] == [];
    RunConcat(cfg, Start(cfg, DISK, [1], 1), Opening(), es);
    OnlyPiece([1]);
  }
}
