/** A download in which one peer is asked twice for the same block. */
module RepeatedExample {
  import opened DownloadState
  import opened RequestCounts
  import opened DownloadInvariant
  import opened DownloadRuns
  import opened SmallDownload

  /** Both peers are asked for the block, one chokes us, and the other is asked again. */
  function Repeating(now: int): seq<Event> {
    [Requested(A, 0, 1, now), Requested(B, 0, 1, now), Choked(B), Requested(A, 0, 1, now)]
  }

  /** The second peer chokes us: its request goes, the other stays, and the flag is clear. */
  lemma Chokes(now: int)
    ensures var s := StateWith(Piece(true), Ready(), [Asked(A, now), Asked(B, now)], true);
            OnChoked(s, B) == StateWith(Piece(false), Ready()[B := PeerView(true, true, [true])], [Asked(A, now)], true)
  {
    var q, sel := [Asked(A, now), Asked(B, now)], OfPeer(B);
    assert q[..1] == [Asked(A, now)] && [Asked(A, now)][..0] == [];
    assert Without([Asked(A, now)], sel) == [Asked(A, now)];
    assert sel.Hits(q[1]) && q[1].Block() == 0;
    assert Dropped(q, sel, 0, 0);
    assert Cleared(Piece(true), q, sel)[0].requested == [false];
    assert Cleared(Piece(true), q, sel) == Piece(false);
  }

  lemma FirstAsked(cfg: Config, now: int)
    requires Setting(cfg)
    requires Inv(cfg, BothReady(false, []))
    ensures var s := BothReady(true, [Asked(A, now)]);
            Inv(cfg, s)
            && Run(cfg, BothReady(false, []), Repeating(now)) == Run(cfg, s, Repeating(now)[1..])
  {
    var es, s := Repeating(now), BothReady(true, [Asked(A, now)]);
    assert [] + [Asked(A, now)] == [Asked(A, now)];
    AsksOn(cfg, BothReady(false, []), es, 0, A, now, s);
    assert es[0..] == es;
  }

  lemma SecondAsked(cfg: Config, now: int)
    requires Setting(cfg)
    requires Inv(cfg, BothReady(true, [Asked(A, now)]))
    ensures var s := BothReady(true, [Asked(A, now), Asked(B, now)]);
            Inv(cfg, s)
            && Run(cfg, BothReady(true, [Asked(A, now)]), Repeating(now)[1..])
               == Run(cfg, s, Repeating(now)[2..])
  {
    CountsOfOne(A, now);
    assert [Asked(A, now)] + [Asked(B, now)] == [Asked(A, now), Asked(B, now)];
    AsksOn(cfg, BothReady(true, [Asked(A, now)]), Repeating(now), 1, B, now,
           BothReady(true, [Asked(A, now), Asked(B, now)]));
  }

  ghost function OneChoking(requested: bool, pending: seq<BlockRequest>): State {
    StateWith(Piece(requested), Ready()[B := PeerView(true, true, [true])], pending, true)
  }

  lemma SecondChokes(cfg: Config, now: int)
    requires Setting(cfg)
    requires Inv(cfg, BothReady(true, [Asked(A, now), Asked(B, now)]))
    ensures var s, s' := BothReady(true, [Asked(A, now), Asked(B, now)]), OneChoking(false, [Asked(A, now)]);
            Inv(cfg, s') && Run(cfg, s, Repeating(now)[2..]) == Run(cfg, s', Repeating(now)[3..])
  {
    Chokes(now);
    RunOn(cfg, BothReady(true, [Asked(A, now), Asked(B, now)]), Repeating(now), 2);
  }

  lemma LastAsked(cfg: Config, now: int)
    requires Setting(cfg)
    requires Inv(cfg, OneChoking(false, [Asked(A, now)]))
    ensures Run(cfg, OneChoking(false, [Asked(A, now)]), Repeating(now)[3..]).pending
         == [Asked(A, now), Asked(A, now)]
  {
    CountsOfOne(A, now);
    assert [Asked(A, now)] + [Asked(A, now)] == [Asked(A, now), Asked(A, now)];
    AsksOn(cfg, OneChoking(false, [Asked(A, now)]), Repeating(now), 3, A, now,
           OneChoking(true, [Asked(A, now), Asked(A, now)]));
    assert Repeating(now)[4..] == [];
  }

  lemma RepeatingReaches(cfg: Config, now: int)
    requires Setting(cfg)
    requires Inv(cfg, BothReady(false, []))
    ensures Run(cfg, BothReady(false, []), Repeating(now)).pending == [Asked(A, now), Asked(A, now)]
  {
    FirstAsked(cfg, now);
    SecondAsked(cfg, now);
    SecondChokes(cfg, now);
    LastAsked(cfg, now);
  }

  lemma TwoCopies(now: int)
    ensures Count([Asked(A, now), Asked(A, now)], Copy(0, 0, A)) == 2
  {
    CountsOfOne(A, now);
    CountAppend([Asked(A, now)], Asked(A, now), Copy(0, 0, A));
    assert [Asked(A, now)] + [Asked(A, now)] == [Asked(A, now), Asked(A, now)];
  }

  /** From the start of this download, eleven events lead to two requests for one block at one peer. */
  lemma SamePeerAskedTwice(cfg: Config, now: int)
    requires Setting(cfg)
    ensures CanStart(cfg, DISK, [1])
    ensures Count(Reached(cfg, DISK, [1], 1, Opening() + Repeating(now)).pending, Copy(0, 0, A)) == 2
  {
    SettingIsValid(cfg);
    OpeningReaches(cfg);
    RepeatingReaches(cfg, now);
    RunConcat(cfg, Start(cfg, DISK, [1], 1), Opening(), Repeating(now));
    TwoCopies(now);
  }
}
