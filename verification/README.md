# Gush: a verified model of its protocol core

Gush is a BitTorrent client. This project models the parts of it that decide whether a download is
right, and proves what they keep.

* `Torrent.dfy`, `OutputFiles.dfy`, `DownloadState.dfy`, `Downloader.dfy` and the files of invariants and
  runs beside them: the download of pieces in blocks. `DownloadState` gives each event (a block, a choke, a
  round of requests, a cleanup, ...) as a function on states; the class `Downloader` does the same work in
  place, event by event, and its contracts tie each method to that function. What is proved of the functions
  over whole runs then holds of the object (`DownloadLoop`).
* `BlockEffects.dfy`, `Connections.dfy`, `PeerHistory.dfy`: everything that an accepted block does, when a
  connection ends, and what is believed of a peer. `Restart.dfy`: a download started again on its own files.
* `DiskWrites.dfy`, `WriteExample.dfy`: when an event changes the disk, and a run in which wrong bytes reach it.
  `Recovery.dfy`: any download, wherever it stands, can still be completed.
* `RepeatedRequests.dfy`, `RepeatedRuns.dfy`, `SoloRequests.dfy`, `RepeatedExample.dfy`: when a peer is asked twice
  for one block. `SmallDownload.dfy` is the download of one block that both examples are about.
* `Bencode.dfy`, `BencodeLaws.dfy`, `InfoDict.dfy`, `TorrentFile.dfy`: the bencode parser and encoder, the search
  for the info dictionary in a torrent file, and the loader. `TorrentExamples.dfy` holds two files that load and
  whose info dictionary is not hashed as it stands in the file.
* `ExtendedMessages.dfy`, `Metadata.dfy`: fetching metadata from peers, from the bytes they send;
  `MetadataExamples.dfy`: a peer that follows the protocol, and when it is passed over. `Base32.dfy`, `Escapes.dfy`,
  `Magnet.dfy`: magnet links.
* `PeerWire.dfy`: message framing and the polling receiver.
* `Dht.dfy`: the work list of the DHT search. `TrackerManager.dfy`, `TrackerRuns.dfy`,
  `TrackerHistory.dfy`: tracker back-off.

How the outside world enters the model: SHA1 is an arbitrary function, so no theorem depends on the absence
of collisions. A peer is a number; the order in which peers act, what they send and which sends fail are
arbitrary. A disk write takes an arbitrary number of bytes before its first error, and a read yields an
arbitrary number. A socket is the queue of bytes received and not yet read. The replies of DHT nodes and
trackers and the resolution of host names are arbitrary. Time is a parameter; the clock of the tracker
manager never goes back.

What is assumed: the torrent passed `validateTorrentInfo`; the output paths are distinct; a `Downloader` is
started once; piece indices and offsets fit their 32 bits (`Recovery.CompletableExactlyWhen` shows that
otherwise a new download cannot be completed); a bencode string length does not make the
position wrap.

## Where code and documentation disagree

The model follows the code.

* A piece's hash is checked after its last block has been written, not before writing as the feature list
  says. An event changes the disk exactly when it delivers a new block of which the disk takes bytes that differ
  from those it holds; the hash plays no part, and the piece is one that is not complete yet
  (`DiskWrites.DiskChangesExactlyWhen`). `WriteExample.WrittenBeforeChecked` is a run from the start after which
  the disk holds bytes that do not hash right. What does hold is that a piece counts as complete only when what
  is on disk hashes right (`DownloadRuns.CompletedPiecesVerify`).
* The request loop is meant never to ask one peer twice for the same block. It can: when another peer's copy
  of the request is given up, the block's shared flag is cleared and the guard is skipped.
  `RepeatedExample.SamePeerAskedTwice` is a run from the start of a download that does it.
  Over all runs, a peer has two requests for a block at some point exactly when some round reaches a missing
  block whose flag is clear and which its peer has in flight (`RepeatedRuns.AskedTwiceExactlyWhenRepeated`); no
  run has such a round in which the copies of a request are only given up together
  (`SoloRequests.NeverTwiceWhenGivenUpTogether`). At most two copies of a request are in flight all the same.
* In the choice of the next piece, completion is called primary and rarity secondary. The score puts
  completion first, whoever has the pieces, exactly when its lead is large enough for the number of peers: a
  tenth of a piece with 500 of them (`PieceSelection.CompletionOutranksRarity`). With one peer, a piece of which
  one block in sixteen is there and which nobody has is chosen before one with two in sixteen that the peer has
  (`PieceSelection.LessCompleteIsSelected`).
* `extractInfoDictBytes` is meant to return the original bytes of the info dictionary. It can return others in
  two ways. Text that looks like the key and a dictionary, in a comment before the key for instance, is taken
  for the info dictionary (`TorrentExamples.CommentTakenForInfo`). And the key is passed over when the value
  before it is a string that ends in neither `d` nor `e`; the dictionary is then re-encoded
  (`TorrentExamples.MissedInfoDict`). `TorrentFiles.LoadedBytesAreOriginalExactlyWhen` says, for every file,
  when the original bytes are returned.
* A peer answers metadata requests under the extension id that we announce (BEP 10). The client looks for the
  answers under the id that the peer announces, and passes over those of a conforming peer exactly when it
  announces another id than 1 (`MetadataExamples.ConformingPeerIsPassedOver`). An honest peer's metadata is
  recovered exactly when the two ids agree (`Metadata.MetadataDownloader.DownloadFromPeer`). The handshake that
  the client sends is not well-formed bencode either (`MetadataExamples.OurHandshakeIsMalformed`).
* The back-off comment starts at 30 seconds; the first failure already costs 60.
* A frame of length 1 whose payload is read leaves the payload of the caller's previous message in place
  (`PeerWire.StaleExactlyWithoutPayload`).

## Model

| member | source | states |
|---|---|---|
| DownloadRuns.CompletedPiecesVerify | src/downloader.cpp:671-770 | after any events from any resumed disk, whatever peers send and whatever disk errors occur, every piece p marked complete is right on disk: the bytes from p times the piece length on hash to the twenty bytes from 20p on of the torrent's hashes, so a complete download is right as a whole; it is complete exactly when the byte counter has reached the total |
| DownloadInvariant.HashesAreThePieces | src/downloader.cpp:1007-1011 | the hashes that the pieces are checked against, one after the other, are the torrent's |
| DownloadRuns.RequestsBounded | src/downloader.cpp:479-567 | in every reachable state: at most two requests per block in flight, no peer over its limit, none at a choking peer |
| DownloadRuns.CopiesBounded | src/downloader.cpp:527-566 | the coupled invariant of flags and requests bounds the copies of every block by two |
| DownloadRuns.StepKeeps | src/downloader.cpp:627-851 | every event keeps the whole invariant: hashes of completed pieces, counters, soundness and counts of the requests in flight, agreement of flags and requests |
| DownloadRuns.CompletedIffReceived | src/downloader.cpp:733-738 | a piece is complete if and only if all its blocks have been received |
| DownloadRuns.BytesCounted | src/downloader.cpp:1018-1031 | the byte counter lies between 0 and the total; complete, all pieces complete and counter at the total are the same thing |
| DownloadRuns.MarkedIsPending | src/downloader.cpp:527-566 | a block marked requested and not received has a request in flight |
| DownloadRuns.CleanupFrees | src/downloader.cpp:791-815 | a cleanup after every request has timed out leaves no request, and every missing block free to be requested |
| DownloadRuns.FirstWantedIsRequested | src/downloader.cpp:527-566 | the first block that a round wants does get a request, addressed to that peer and stamped with the time |
| DownloadRuns.MissingBlockIsRequestedAgain | src/downloader.cpp:479-567 | after such a cleanup any unchoking peer with an incomplete piece is asked for a missing block of it |
| DownloadRuns.RestoredInv | src/downloader.cpp:170-191 | the resume scan, stopped anywhere, establishes the invariant |
| BlockInvariant.ResetCounters | src/downloader.cpp:745-766 | after a failed hash the counter holds at least the piece, so the clamp at zero never acts, and the counters agree again |
| BlockInvariant.ReceiveVerifies | src/downloader.cpp:718-731 | writing a block of an incomplete piece, in full or in part, leaves every completed piece's hash right |
| BlockInvariant.BlockKeeps | src/downloader.cpp:671-773 | any Block message, matching or not, of right or wrong length, new or duplicate, keeps the invariant |
| DownloadInvariant.DropKeeps | src/downloader.cpp:791-851 | giving up any set of requests (of a choking peer, timed out, endgame duplicates) keeps the requests' invariant |
| DownloadInvariant.CleanupGivesUp | src/downloader.cpp:791-815 | a cleanup leaves every request that is at most 15000 ms old as often as it was and no other, and frees exactly the blocks of those it gives up |
| DownloadInvariant.ChokeGivesUp | src/downloader.cpp:817-831 | a choke leaves every request to another peer as often as it was and no other, and frees exactly the blocks of those it gives up |
| BlockEffects.RequestsAfterBlock | src/downloader.cpp:702-769 | after a new block: the request that it answers is gone, and so are all other peers' requests for it, and all requests for the piece if its check failed; every other request is there as often as before |
| BlockEffects.PeersAfterBlock | src/downloader.cpp:833-851 | a peer loses its connection exactly when it is another peer that had been asked for the block, the cancel to it fails, and the piece was not reset |
| BlockEffects.FlagsAfterBlock | src/downloader.cpp:740-851 | a block's flag is clear exactly when it was, or its piece was reset, or it is the block that arrived and another peer's request for it was given up |
| BlockEffects.PieceAfterBlock | src/downloader.cpp:733-767 | received is what was, and this block, but nothing of a piece whose check failed; the piece becomes complete exactly when the block was its last, the piece can be read and it hashes right |
| BlockEffects.DiskAfterBlock | src/downloader.cpp:717-718 | the disk has the bytes that it took at the block's place and what it had everywhere else |
| BlockEffects.AcceptedExactlyWhen | src/downloader.cpp:686-711 | a block that answers a request is accepted exactly when it has the length asked for and is new; otherwise that one request is gone, a wrong length frees the block, and nothing else changes |
| BlockEffects.StrayBlock | src/downloader.cpp:671-684 | a message that is too short, from a peer that is not connected, or that answers none of the sender's requests changes nothing |
| Connections.ConnectedExactlyWhen | src/downloader.cpp:479-851 | for every event: a peer is connected afterwards exactly when it has just connected, or was and neither disconnected, nor was wanted for one request more than could be sent, nor is one whose cancel failed |
| PeerHistory.BelievedExactlyWhen | src/downloader.cpp:627-668 | in every run a peer has a piece exactly when the last announcement heard of it since it last connected has the piece, and chokes us exactly when the last thing heard of that was not an unchoke |
| DownloadInvariant.RequestFromKeeps | src/downloader.cpp:527-566 | a round of requests keeps the invariant, endgame copies included |
| DownloadInvariant.ReceivedBytesBounds | src/downloader.cpp:925-928 | the bytes of received blocks are between 0 and the sum of the pieces, and reach it only when every piece is complete |
| DownloadProgress.AcceptedBlocksAreOnDisk | src/downloader.cpp:702-731 | after any run, every accepted and fully written block whose piece was not reset is on disk byte for byte at its place |
| DownloadProgress.WrittenBlock | src/downloader.cpp:930-962 | writing a block puts its bytes at its range and leaves every other block's bytes |
| DownloadProgress.NothingAccepted | src/downloader.cpp:686-711 | an event that delivers no new block leaves the disk and what counts as received |
| DownloadProgress.BlocksMakePiece | src/downloader.cpp:548-557 | a piece whose blocks all equal the true ones equals the true piece |
| DownloadProgress.HonestStep | src/downloader.cpp:702-767 | when the accepted bytes are the true ones no hash check fails and each accepted block lowers the number of missing blocks by one |
| DownloadProgress.HonestProgress | src/downloader.cpp:702-767 | over a run of true blocks, missing blocks at the end plus accepted blocks are the missing blocks at the start |
| DownloadProgress.HonestRunCompletes | src/downloader.cpp:702-767 | with true blocks the download completes exactly when as many blocks were accepted as were missing |
| DownloadProgress.EndgameExactly | src/downloader.cpp:314-323 | endgame is on exactly when at most 64 blocks are missing |
| DiskWrites.DiskChangesExactlyWhen | src/downloader.cpp:702-741 | for every event: the disk changes if and only if the event delivers a new block and the disk takes bytes of it that differ from those it holds; the piece is then one that is not complete, whether it will hash right or not |
| WriteExample.WrittenBeforeChecked | src/downloader.cpp:718-766 | for every hash function that gives neither byte the torrent's hash, nine events from the start of a download of one block leave a wrong byte on disk in a piece that is not complete |
| Recovery.EveryDownloadCanBeCompleted | src/downloader.cpp:671-815 | from every state that any events have led to, false blocks, failed writes and stale requests included, one peer that has everything and sends true blocks, with a disk that works, can complete the download |
| Recovery.CompletableExactlyWhen | src/downloader.cpp:671-684 | a download of which nothing was there before can be completed from every reachable state if and only if 32 bits hold the piece numbers and offsets and, unless there are no pieces, at least one request per peer may be made |
| Recovery.TruthHelps | src/downloader.cpp:717-767 | a true block leaves fewer incomplete pieces with a false block in them, or no more of them and one block less to come |
| Recovery.AnswerHelps | src/downloader.cpp:671-770 | so does the answer to the first request in flight, or else it takes a request away |
| Recovery.RoundHelps | src/downloader.cpp:479-567 | with nothing in flight, a round for an incomplete piece asks for a block of it that is missing and changes nothing that is to be done |
| RepeatedRequests.RoundAsksExactly | src/downloader.cpp:479-567 | a round of requests adds, for every block and every peer, exactly one request for each wanted block of the piece that it reaches with room left, and no other |
| RepeatedRequests.RepeatsExactlyWhenFlagClear | src/downloader.cpp:527-566 | a round asks a peer again for a block it has in flight if and only if the round reaches the block, the block is missing and its flag is clear |
| RepeatedRuns.TwiceExactlyWhenRepeated | src/downloader.cpp:479-851 | from any state in which no peer has two requests for a block, any event leads to one with two if and only if it is a round that reaches a missing block whose flag is clear and which its peer has in flight |
| RepeatedRuns.AskedTwiceExactlyWhenRepeated | src/downloader.cpp:479-851 | over all runs from the start, a peer at some point has two requests for a block if and only if some round is such a round |
| SoloRequests.NeverTwiceWhenGivenUpTogether | src/downloader.cpp:690-699 | over all runs from the start in which no event gives up a request while a copy of it stays in flight, no peer ever has two requests for one block |
| SoloRequests.SoloStep | src/downloader.cpp:479-851 | every such event keeps: a clear flag means nothing in flight, and no peer has two requests for a block |
| RepeatedExample.SamePeerAskedTwice | src/downloader.cpp:817-831 | for every hash function that does not give the byte on disk the torrent's hash: from the start of a download of one block, eleven events lead to two requests for the block at one peer |
| PieceSelection.CompletionOutranksRarity | src/downloader.cpp:595-607 | with at most a given number of peers, completion decides the score, whoever has the pieces, if and only if its lead, times 100, and the rarity of a piece that all of them have exceed 10000 |
| PieceSelection.LessCompleteIsSelected | src/downloader.cpp:569-609 | with two partial pieces of 16 blocks and one peer, that has only the more complete one, the only possible choice is the less complete one |
| PieceSelection.LeadThatDecides | src/downloader.cpp:595-607 | the lead needed with 1, 500 and 1001 peers, in thousandths |
| Downloading.Downloader.constructor | src/downloader.cpp:39-50 | a new object is the state of a scan that has verified nothing |
| Downloading.StartDownload | src/downloader.cpp:57-91 | from the targets on disk to the end: starts exactly when every target can be used; the content then is the targets' old bytes, each at its file's place, and zeros; unless the scan was stopped or found everything, the actions are handled one by one, in order; the object is in the state that this run reaches from the opened files, and a complete download has every piece right on disk |
| Restart.StartAgain | src/downloader.cpp:57-191 | a download that is started again, without overwriting, on the files that another one left in any state starts on the same content with every completed piece completed; if all were, it is complete without handling anything, the content as it was |
| Restart.SameContentAgain | src/downloader.cpp:31-36 | files opened again without overwriting hold what they held |
| Restart.ScanFindsCompleted | src/downloader.cpp:170-191 | a whole scan of what a state has on disk finds every piece that is complete in it |
| Downloading.OpenDownload | src/downloader.cpp:57-80 | the opened content is as long as the torrent says, and is the targets' old bytes, each at its file's place, and zeros |
| Downloading.Downloader.DownloadLoop | src/downloader.cpp:228-391 | handling any actions in place is a run of the event functions with one event for each action, in order: the action itself, or for a round of requests a round to the same peer with the same sends and time; complete exactly when every piece is, and then every piece on disk hashes right |
| Downloading.Downloader.Perform | src/downloader.cpp:627-789 | each action does exactly the step of the event that handles it, and keeps the invariant |
| Downloading.Downloader.RestoreCompletedPieces | src/downloader.cpp:170-191 | the scan marks exactly the pieces that read back and hash right, with their blocks and bytes, and establishes the invariant |
| Downloading.Downloader.WritePiece | src/downloader.cpp:930-962 | the flat content changes by the written prefix at `index*L+offset` and nowhere else |
| Downloading.Downloader.ReadPieceFromDisk | src/downloader.cpp:964-999 | returns exactly the piece's bytes of the flat content, and fails exactly when the disk yields fewer |
| Downloading.Downloader.VerifyPiece | src/downloader.cpp:1001-1012 | true exactly when the piece p can be read and the bytes from p times the piece length on hash to the twenty bytes from 20p on of the torrent's hashes |
| Downloading.Downloader.SelectNextPiece | src/downloader.cpp:569-625 | the first partial piece of highest score; with no partial piece, the first incomplete piece that the fewest peers have; none only when all are complete |
| Downloading.SelectionFindsIncomplete | src/downloader.cpp:493-525 | while a peer has an incomplete piece the selection names an incomplete one |
| Downloading.Downloader.MayDuplicate | src/downloader.cpp:530-546 | a block in flight is asked for again only in endgame, not from a peer that has it pending, and below two copies |
| Downloading.Downloader.RequestBlocksFromPeer | src/downloader.cpp:479-567 | a round for the selected piece, or for the first needed one if the peer lacks it, stops at the peer's limit or at a failed send |
| Downloading.Downloader.UpdateEndgame | src/downloader.cpp:314-323 | endgame is on exactly when at most 64 blocks are missing |
| Downloading.Downloader.EraseRequests | src/downloader.cpp:791-831 | erasing while iterating removes exactly the requests hit, in order, and clears exactly their blocks' flags |
| Downloading.Downloader.HandleChoke | src/downloader.cpp:640-645 | a choking peer's requests are given up and their blocks freed |
| Downloading.Downloader.CleanupTimedOutRequests | src/downloader.cpp:791-815 | exactly the requests older than 15000 ms are given up |
| Downloading.Downloader.CancelDuplicateRequests | src/downloader.cpp:833-851 | exactly the other peers' requests for the block are given up; peers to which the cancel fails are disconnected |
| Downloading.Downloader.HandleBlock | src/downloader.cpp:671-773 | every branch of a Block message in place: short payload, no matching request, wrong length, duplicate, accepted, hash passed or failed; what an accepted block does is in the rows of `BlockEffects` |
| Downloading.Downloader.RejectBlock | src/downloader.cpp:690-700 | a wrong length drops exactly that request and clears exactly its block's flag |
| Downloading.Downloader.ChoosePiece | src/downloader.cpp:493-520 | a piece that the peer has and that is needed: the selected one, or else the first |
| OutputStore.OutputFiles.Open | src/downloader.cpp:99-168 | succeeds exactly when every target is absent or a regular file that is no longer than expected or overwritten; then byte k of file i, at the sum of the lengths before it plus k of the content, is byte k of its target if this is a regular file that is not overwritten and has one, and zero otherwise |
| OutputStore.OutputFiles.Write | src/downloader.cpp:930-962 | over any files, empty ones included, writing is a splice on the flat content, up to the first disk error or the end |
| OutputStore.OutputFiles.Read | src/downloader.cpp:964-999 | reading is a slice of the flat content; it fails exactly at a disk error or past the end |
| OutputStore.FilePlace | src/downloader.cpp:131-152 | each file shows exactly its range of the flat content |
| OutputStore.FlatPatched | src/downloader.cpp:938-958 | a write inside one file is the same write inside the flat content, and keeps the layout |
| Torrents.ValidateTorrentInfo | src/torrent.cpp:25-63 | accepts exactly the valid torrents, and names the first thing wrong with any other |
| Torrents.FailedIsNotValid | src/torrent.cpp:25-63 | a torrent that any check is reported against is not valid |
| Torrents.SumFileLengths | src/torrent.cpp:36-49 | the guarded 64-bit loop finds the exact sum, or the first bad or overflowing entry, without itself overflowing |
| Torrents.CeilingIsCover | src/torrent.cpp:51-62 | the piece count is the ceiling of total over piece length if and only if the pieces just cover the total |
| Torrents.TotalLength | src/torrent.cpp:10-19 | the 64-bit sum of a valid torrent is the mathematical one |
| Torrents.PieceBounds | src/downloader.cpp:925-928 | every piece is non-empty and inside the content |
| Torrents.BlockBounds | src/downloader.cpp:548-557 | every block is non-empty, at most 16384 bytes and inside its piece |
| Torrents.BlocksDisjoint | src/downloader.cpp:548-557 | different blocks, of one piece or two, share no byte |
| Torrents.BlocksTile | src/downloader.cpp:919-928 | every byte of the content is in exactly one block |
| Torrents.BlockSum | src/downloader.cpp:919-923 | the block lengths of a piece add up to the piece |
| Torrents.PiecesSumToTotal | src/downloader.cpp:925-928 | the piece sizes add up to the total |
| BencodeLaws.ParseEncoded | src/bencode.cpp:11-121 | for every value and whatever follows, parsing an encoding gives the value back and stops right after it |
| BencodeLaws.EncodePrefixFree | src/bencode.cpp:94-121 | if one value's encoding begins another's the values are equal |
| BencodeLaws.ParsedIsValid | src/bencode.cpp:11-81 | whatever the input, a parsed value has 64-bit integers and dictionaries with their keys in order |
| BencodeLaws.ReparseIsStable | src/bencode.cpp:11-121 | for every accepted input, encoding the value and parsing again gives the same value |
| BencodeLaws.ParseLocal | src/bencode.cpp:11-81 | a successful result depends only on the bytes used: changing or extending the rest changes nothing |
| BencodeLaws.InsertSorted | src/bencode.cpp:55-77 | assigning to a key keeps the keys in strict order |
| BencodeLaws.InsertLookup | src/bencode.cpp:123-147 | assigning to a key changes what is found under that key and no other |
| BencodeLaws.FormsOfValues | tests/test_bencode.cpp:138-174 | what the tests expect the encodings of integers, strings, lists and dictionaries to be |
| BencodeLaws.NumberIsRead | src/bencode.cpp:19-33 | spaces, a sign and leading zeros may come before a number and anything but a digit after it; it is read as its value if that fits 64 bits |
| BencodeLaws.NoNumberIsRead | src/bencode.cpp:19-33 | without a digit after spaces and a sign no number is read |
| Bencode.Parse | src/bencode.cpp:11-81 | a successful parse uses at least one byte and no more than there are |
| Bencode.ParseImpl | src/bencode.cpp:11-81 | the loops over a moving position compute the recursive reading of the rest of the data, errors included |
| InfoDict.ExtractInfoDictBytes | src/torrent.cpp:87-112 | returns the span at the first acceptable occurrence of the key, and the re-encoding exactly when there is none |
| InfoDict.FindKey | src/torrent.cpp:90-90 | the first occurrence of the key from a position on |
| InfoDict.KeyPositionAfter | src/torrent.cpp:91-94 | right behind an encoded value the key is passed over if and only if the value is a string that ends in neither `d` nor `e` |
| InfoDict.KeyPositionFirst | src/torrent.cpp:91-94 | at the start of a dictionary, or of the file, the key is not passed over |
| InfoDict.SpanAt | src/torrent.cpp:91-107 | one occurrence of the key is accepted exactly when it is at the start or behind a `d` or an `e` and is followed by a dictionary with `pieces` and `piece length` |
| InfoDict.ExtractIsUnique | src/torrent.cpp:87-112 | that description determines the result |
| InfoDict.SpanIsExact | src/torrent.cpp:95-107 | on any content, a returned span is consumed exactly by the parser and is a dictionary with the mandatory keys |
| InfoDict.OriginalBytesExactlyWhen | src/torrent.cpp:87-112 | for a value anywhere in any content, its original bytes are returned if and only if its own key is the first acceptable one, or another acceptable key comes first with the same bytes behind it, or no key is acceptable and the bytes are canonical |
| InfoDict.CanonicalFileExactlyWhen | src/torrent.cpp:87-112 | the same for every encoded file, however often the key text occurs in it |
| InfoDict.CanonicalFile | src/torrent.cpp:87-112 | from an encoded file with one occurrence of the key the encoding of the info dictionary is returned, by span or fallback |
| TorrentFiles.LoadTorrent | src/torrent.cpp:114-251 | a loaded file parses to a dictionary that describes the torrent, which is valid, and what is hashed is what the extraction returns for its info dictionary; a rejected file has the fault that is reported, and none that is checked before |
| TorrentFiles.RejectedIsNotAccepted | src/torrent.cpp:114-251 | no torrent can be loaded from a file that has a reported fault |
| TorrentFiles.ReadTorrent | src/torrent.cpp:172-242 | returns a torrent that the info dictionary describes, field by field with its type, or the error of the first check that fails, all checks before it passed |
| TorrentFiles.DescribedOnce | src/torrent.cpp:172-242 | an info dictionary describes at most one torrent |
| TorrentFiles.RefusedIsNotDescribed | src/torrent.cpp:172-242 | a refused info dictionary describes no torrent, and is refused with one error only |
| TorrentFiles.ReadFiles | src/torrent.cpp:202-233 | the entries in order, or the error of the first bad one |
| TorrentFiles.ReadPath | src/torrent.cpp:216-230 | fails exactly when a component is not a string or empty; the path, split at its slashes, is the components in order if and only if no component has a slash itself |
| TorrentFiles.LoadedPathsSplit | src/torrent.cpp:197-233 | the files of every loaded torrent are those listed, in order, and each path splits at its slashes into the listed components if and only if none of them has a slash |
| TorrentFiles.InfoPlaced | src/torrent.cpp:166-170 | in every file with an info dictionary, parsing at the position found by a walk over the root entries gives that dictionary, the last one under the key |
| TorrentFiles.LoadedBytesAreOriginalExactlyWhen | src/torrent.cpp:87-112 | for every file with an info dictionary, when the hashed bytes are the original ones |
| TorrentFiles.LoadedNumbersAreExact | src/torrent.cpp:172-242 | piece length and file lengths of every loaded torrent are the numbers in the file |
| TorrentExamples.MissedInfoDict | src/torrent.cpp:91-94 | a file that loads and whose info dictionary comes back changed, because its key follows a string |
| TorrentExamples.CommentTakenForInfo | src/torrent.cpp:96-105 | for every dictionary with the mandatory keys, a canonical file that loads and for which that dictionary, shown in a comment, is returned in place of the info dictionary |
| ExtendedMessages.ReadExtendedMessage | src/metadata.cpp:55-94 | the next message of one extension within 4096 frames of a byte stream; keep-alives, other messages and other extensions are passed over, an absurd length, a frame without extension id or the end of the stream fail |
| ExtendedMessages.NextAfter | src/metadata.cpp:55-94 | a message of the extension behind fewer than 4096 others is found, with the stream right after it |
| ExtendedMessages.SearchEnds | src/metadata.cpp:55-94 | a message of extensions without an extension id ends the search, whatever comes after it |
| ExtendedMessages.NothingFound | src/metadata.cpp:55-94 | a stream without a message of the extension yields none |
| Metadata.MetadataDownloader.ReadHandshake | src/metadata.cpp:405-439 | size, piece count, list of pieces and extension id after any handshake, in 32-bit arithmetic; succeeds exactly when the handshake parses, the count is not negative and size and id are positive |
| Metadata.MetadataDownloader.ExchangeExtensions | src/metadata.cpp:378-440 | the same for the first extension handshake in the peer's stream; without one, or if ours cannot be sent, it fails and changes nothing |
| Metadata.MetadataDownloader.ReadPiece | src/metadata.cpp:465-505 | stores what the next reply carries; fails, changing nothing, on anything but a data message |
| Metadata.DataExactlyWhen | src/metadata.cpp:476-490 | a reply counts as data exactly when it starts with a dictionary whose `msg_type` is 1 in 32-bit arithmetic |
| Metadata.MetadataDownloader.RequestPieces | src/metadata.cpp:442-505 | succeeds exactly when every request is answered by a data message, and then every piece is what its reply carries, or what it was when the reply carries nothing |
| Metadata.MetadataDownloader.RequestMetadata | src/metadata.cpp:442-532 | succeeds exactly when every reply is a data message and the joined pieces have the announced size and the magnet's hash; then stores them |
| Metadata.MetadataDownloader.DownloadFromPeer | src/metadata.cpp:280-331 | whatever earlier peers left behind, an honest peer's metadata is recovered, byte for byte, if and only if the peer answers under the id that the client looks for |
| Metadata.MetadataDownloader.Start | src/metadata.cpp:253-266 | over any peers: completion implies the right hash; one honest peer with agreeing ids suffices; honest peers with other ids do not |
| Metadata.HonestAttempt | src/metadata.cpp:442-532 | what is read of an honest peer's messages joins to the metadata when the ids agree, and is nothing otherwise |
| Metadata.HonestReplies | src/metadata.cpp:442-532 | any encoded dictionaries of type 1 followed by the chunks, raw bytes arbitrary, join to the original |
| MetadataExamples.ConformingPeerIsPassedOver | src/metadata.cpp:465-469 | for any metadata of one piece and any id, a peer that announces the id and answers under the one announced to it is honest, and is passed over if and only if the two ids differ |
| MetadataExamples.OurHandshakeIsMalformed | src/metadata.cpp:381-381 | the handshake that is sent does not parse |
| Metadata.PieceCountBounds | src/metadata.cpp:412-420 | the piece count of a size is its ceiling, for every size that does not overflow |
| Base32.Base32ToRaw | src/magnet.cpp:53-93 | the wrapping 32-bit accumulator computes what unbounded arithmetic does: k digits of value V give floor(5k/8) bytes of value V >> (5k mod 8) |
| Base32.HashDecodes | src/magnet.cpp:53-93 | 32 digits decode to the 20 bytes of the number they write |
| Base32.HashInjective | src/magnet.cpp:53-93 | base 32 hashes that decode alike are the same text |
| Base32.DigitAt | src/magnet.cpp:53-93 | the k-th character of the alphabet stands for k |
| Base32.OtherDigits | src/magnet.cpp:53-93 | lower-case letters have the values of upper-case ones, and no other character has a value |
| Base32.DigitsJoin | src/magnet.cpp:53-93 | characters without a value are passed over, and the first padding character ends the text |
| Escapes.ToHex | src/utils.cpp:52-58 | two lower-case digits per byte |
| Escapes.FromHex | src/utils.cpp:60-80 | pairs of digits as bytes; nothing for odd lengths or other characters |
| Escapes.UnhexAt | src/utils.cpp:60-80 | byte i is sixteen times digit 2i plus digit 2i+1, of either case; one other character spoils all |
| Escapes.HexRoundTrip | src/utils.cpp:52-80 | decoding gives back any bytes |
| Escapes.HexAt | src/utils.cpp:52-58 | digits 2i and 2i+1 are the lower-case digits of the high and the low half of byte i |
| Escapes.UrlEncode | src/utils.cpp:82-93 | the loop escapes exactly the bytes that are not unreserved |
| Escapes.UrlDecode | src/magnet.cpp:9-27 | the loop decodes plus signs and escapes as reading a hexadecimal number from two characters does; a malformed escape loses its percent sign, one cut off at the end keeps it |
| Escapes.OddEscapes | src/magnet.cpp:9-27 | an escape may have digits of either case, one digit only, or a space or a sign before its digit |
| Escapes.NoEscapes | src/magnet.cpp:9-27 | without a number the percent sign is dropped, at the end of the text it is kept; a plus sign is a space |
| Escapes.UrlRoundTrip | src/utils.cpp:82-93 | escaped text has neither `&` nor `=` and decodes to any original bytes |
| Escapes.EscapeIs | src/utils.cpp:82-93 | letters, digits and `-_.~` stay; any other byte is a percent sign and two upper-case digits |
| Escapes.EscapedJoins | src/utils.cpp:82-93 | text is escaped character by character |
| Magnet.ParseMagnetLink | src/magnet.cpp:95-165 | the scanning loop applies the parameters in order, each cut at the first `=` and the next `&` |
| Magnet.GenerateMagnetLink | src/magnet.cpp:167-182 | prints hash, name if there is one, and the trackers in order |
| Magnet.MagnetRoundTrip | src/magnet.cpp:95-182 | for every 20-byte hash, every name and every tracker list, empty strings included, a printed link parses to what was printed |
| Magnet.ScanParam | src/magnet.cpp:107-127 | a printed parameter is cut out whole and scanning goes on after it |
| Magnet.LinkIsRead | src/magnet.cpp:95-165 | a link with any hash and any parameters after it is read as the parameters applied to the hash in order |
| Magnet.EveryParameterIsRead | src/magnet.cpp:129-165 | name, size, tracker and source, whatever their texts, are each read into their own field beside a hexadecimal hash |
| Magnet.OtherParameters | src/magnet.cpp:129-165 | a topic that is no hash is kept as it is; a bad hash, a bad size and unknown parameters are passed over |
| Magnet.Base32LinkIsRead | src/magnet.cpp:129-150 | a base 32 hash is read as the 20 bytes of the number that its digits write, and shown in hexadecimal |
| PeerWire.PeerConnection.SendMessage | src/peer.cpp:285-310 | a connected peer's stream grows by as much of the message's frame as the socket takes; succeeds exactly when it takes all, and ends the connection otherwise |
| PeerWire.PeerConnection.ReceiveMessageNonBlocking | src/peer.cpp:480-589 | reading in place is one poll, in every branch: too little, absurd length, partial frame, keep-alive, message; of all messages received so far the last with id 0 or 1 tells whether the peer chokes us, the last with id 2 or 3 whether it is interested, and the bitfield is what they make of it |
| PeerWire.PeerConnection.UpdateBitfield | src/peer.cpp:667-678 | the nested loops set piece p exactly when bit 7 - p%8 of byte p/8 is set |
| PeerWire.PeerConnection.HasPiece | src/peer.cpp:680-683 | true exactly when one of the messages received on the connection announced the piece and no later bitfield replaced that |
| PeerWire.WireDecodes | src/peer.cpp:285-310 | receiving inverts sending for every message whose length is right and allowed |
| PeerWire.FrameEncodes | src/peer.cpp:504-550 | a frame read off a stream is the bytes that sending it would have put there |
| PeerWire.CreatedMessagesDecode | src/peer.cpp:50-113 | every message the client creates is read back unchanged |
| PeerWire.CreatedBytes | src/peer.cpp:50-113 | the bytes on the wire of every message the client creates |
| PeerWire.RequestReadsBack | src/peer.cpp:87-113 | piece, offset and length are read back from a request or cancel |
| PeerWire.FramesOfWires | src/peer.cpp:480-550 | a stream of frames has one reading |
| PeerWire.PollTakesOneFrame | src/peer.cpp:480-550 | a poll consumes nothing or exactly one whole frame |
| PeerWire.FramesInOrder | src/peer.cpp:480-589 | for every schedule of arriving chunks and polls: frames returned, then frames to come, are the frames of the stream |
| PeerWire.ScheduleIndependent | src/peer.cpp:480-589 | after any complete schedule the frames and the choke and interest state are those of the stream, and the bitfield and payloads too when no payload that is read is missing; disconnected exactly by an absurd length |
| PeerWire.SchedulesAgree | src/peer.cpp:480-589 | two complete schedules of one stream agree |
| PeerWire.StaleExactlyWithoutPayload | src/peer.cpp:543-549 | what is read depends on the caller's old message if and only if the frame has length 1 and an id whose payload is read |
| PeerWire.StaleBitfield | src/peer.cpp:573-575 | one frame, two callers' messages, two bitfields |
| PeerWire.HadExactlyWhenAnnounced | src/peer.cpp:565-575 | a piece is had if and only if it was announced and no later bitfield replaced that |
| PeerWire.ChokesExactlyWhen | src/peer.cpp:552-564 | a peer chokes us if and only if the last message with id 0 or 1 has id 0, or there is none and it did before; it is interested if and only if the last with id 2 or 3 has id 2, or there is none and it was |
| Bytes.IntRoundTrip | src/utils.cpp:95-118 | a 32-bit word is read back from its four bytes |
| Bytes.BytesRoundTrip | src/utils.cpp:95-118 | four bytes are those of the word they are read as |
| Bytes.WordOrder | src/utils.cpp:95-118 | one word is less than another exactly when its bytes come first in lexicographic order |
| Dht.DiscoverDhtPeers | src/dht.cpp:157-207 | queries go out in order of discovery, at most `maxQueries`; the peers are the first `maxPeers` different ones in the replies; no query is sent once there are enough peers; below both limits every known node was queried; nothing for bad arguments |
| Dht.QueriesAreDistinct | src/dht.cpp:123-139 | no node is queried twice |
| Dht.QueriedAreReachable | src/dht.cpp:186-204 | every queried node is a seed or was named by the reply of a node queried before it |
| Dht.SearchIsSound | src/dht.cpp:141-153 | the peers are distinct, within the limit, have a port, and each was named by a queried node |
| Dht.SearchIsComplete | src/dht.cpp:186-206 | a search that stops below both limits has queried exactly the nodes reachable from the seeds and returns exactly their peers, each once |
| Dht.EnqueueCompactNodes | src/dht.cpp:123-139 | appends exactly the usable nodes not known before, in order |
| Dht.AppendPeers | src/dht.cpp:141-153 | appends exactly the new usable peers, in order, up to the limit |
| Dht.ParseCompactPeers | src/tracker.cpp:80-105 | the loop cuts the text into its whole six-byte entries |
| Dht.NodeListed | src/dht.cpp:125-137 | an address is taken from a node list exactly when it is usable and stands in a whole entry |
| Dht.PeerAt | src/tracker.cpp:84-102 | entry k is bytes 6k to 6k+6 |
| Dht.ReplyNamesPeer | src/dht.cpp:141-153 | a reply names a peer exactly when a string of the list under `values` in the dictionary under `r` has it, with a port, in a whole entry |
| Dht.ReplyNamesNode | src/dht.cpp:123-139 | a reply names a node exactly when the string under `nodes` in the dictionary under `r` has it, with host and port, at the end of a whole entry |
| Trackers.TrackerManager.AddTracker | src/tracker_manager.cpp:9-17 | adds a new, non-empty URL once |
| Trackers.TrackerManager.DueTrackers | src/tracker_manager.cpp:33-40 | the URLs whose back-off has passed, before they are sorted |
| Trackers.TrackerManager.Contact | src/tracker_manager.cpp:62-96 | tries due trackers in order, none twice, at most `maxAttempts`, up to the first success; every tracker's new state, and the preferred one |
| Trackers.TrackerManager.ReportSuccess | src/tracker_manager.cpp:98-109 | resets the failures of that tracker, makes it due at once and preferred, and leaves the others |
| Trackers.TrackerManager.ReportFailure | src/tracker_manager.cpp:111-119 | counts the failure of that tracker, sets its back-off, and leaves the others |
| Trackers.DueMembers | src/tracker_manager.cpp:32-60 | a URL is due exactly when its tracker's back-off has passed, and is listed once |
| TrackerRuns.BackoffTable | src/tracker_manager.cpp:25-30 | 60, 120, 240, 480, 960 seconds after the first five failures, then 1800 |
| TrackerRuns.FailingTrackerIsSpared | src/tracker_manager.cpp:62-119 | in any run a tracker that always fails is tried at most 5 + floor(T/1800) times in the first T seconds from its first try |
| TrackerRuns.BoundIsAttained | src/tracker_manager.cpp:62-119 | for every number of half hours, none included, some run makes that many attempts |
| TrackerRuns.EveryTrackerReturns | src/tracker_manager.cpp:111-119 | in every run no tracker is held back for more than 1800 seconds from now |
| TrackerRuns.SuccessIsTriedFirst | src/tracker_manager.cpp:98-109 | after a contact that ended with a success, and any trackers added since, that tracker is due whenever trackers are contacted next, and comes first |
| TrackerHistory.EveryTrackerIsRecorded | src/tracker_manager.cpp:62-119 | in every run what is stored of a tracker follows from its answers: the failures are those since its last success, interval and peer count are those of that success, and it may be tried again at the end of the last attempt plus the back-off of the failures |

## Left out

- SHA1 itself: an arbitrary function stands for it.
- Sockets, `select`, timeouts, `curl`, `getaddrinfo`: byte queues, counts and arbitrary answers stand for them; a connection closed by the other side shows as a disconnect event.
- Files below the byte level: stdio buffering, other `fopen` and `ftruncate` failures than those of targets that are not regular files, directory creation, and collisions of sanitised paths.
- Threads, signals and a second `start()` after `stop()`: one thread, one run; a failing disk is modelled, an interrupted process is not.
- Widths of piece indices and offsets: `Option` stands for the `UINT32_MAX` sentinel, and `pieceStart + pieceLength` is not checked against 64 bits near their end.
- Peer speed averages, sorting by speed, health checks, blacklists and the per-round snapshot of request counts: peers act in any order.
- Downloading.Downloader.DownloadLoop: the actions, and what the peers and the disk do in them, are given, so waiting, announcing, connecting and progress display in the loop are not modelled.
- Recovery.EveryDownloadCanBeCompleted: some choice of pieces and order of events completes the download; that the client's own choices do is not claimed.
- Downloading.Downloader.HandleAnnounced: takes the whole bitfield that `PeerWire` derives; the two are not composed into one object.
- PeerWire.PeerConnection.ReceiveMessageNonBlocking: what Extended messages do (peer exchange) is left out; it changes neither choke state nor bitfield.
- The blocking receiver, `readBlock` and the handshake.
- Bencode.ParseImpl: a string length near 2^64, for which the source's position would wrap, counts as exceeding the data.
- ExtendedMessages.ReadExtendedMessage: a message that ends before its extension id fails, where the source would wait for 4 GiB more; a stream that falls silent and one that ends are the same.
- The metadata of a peer that sends other messages under the id that the client looks for: nothing is claimed of its recovery.
- Dht.DiscoverDhtPeers: nodes and peers are identified by their six address bytes, of which the source's textual key is a printed form; transactions, timeouts and the check of replies are inside the arbitrary answer.
- Trackers.TrackerManager.Contact: the order of the due trackers is any with the preferred one first, because the source's comparator does not order the preferred entry against itself; tie-breaking by failures and age is not modelled.
- The "stopped" announces, which bypass the tracker manager.
- HTTP and UDP tracker exchange, tracker lists, command line, logging and formatting.
- TorrentFiles.LoadTorrent: the announce lists, comment and creator, which nothing here depends on.
