/** Torrent metadata: validation, and the division of the content into pieces and blocks. */
module Torrents {
  import opened Bytes

  const HASH_SIZE := 20
  const BLOCK_SIZE := 16384

  datatype FileEntry = FileEntry(path: string, length: int64)

  datatype TorrentInfo = TorrentInfo(
    name: string,
    pieceLength: int64,
    pieces: bytes,
    fileLength: int64,
    files: seq<FileEntry>)
  {
    predicate IsMultiFile() {
      files != []
    }

    function NumPieces(): nat {
      |pieces| / HASH_SIZE
    }

    /** The content length as a mathematical integer. */
    function Total(): int {
      if IsMultiFile() then SumLengths(files) else fileLength
    }
  }

  datatype ValidationError =
    EmptyName | BadPieceLength | RaggedHashes | EmptyPath | NegativeLength | TotalOverflow | PieceCountMismatch

  function SumLengths(files: seq<FileEntry>): int {
    if files == [] then 0 else SumLengths(files[..|files| - 1]) + files[|files| - 1].length
  }

  predicate GoodEntry(entry: FileEntry) {
    entry.path != "" && entry.length >= 0
  }

  ghost predicate GoodLengths(t: TorrentInfo) {
    if t.IsMultiFile() then
      (forall entry | entry in t.files :: GoodEntry(entry)) && SumLengths(t.files) <= INT64_MAX
    else
      0 <= t.fileLength
  }

  /** The piece count is the content length divided by the piece length, rounded up. */
  predicate PiecesCover(t: TorrentInfo) {
    (t.NumPieces() - 1) * t.pieceLength < t.Total() <= t.NumPieces() * t.pieceLength
  }

  /** What a torrent must satisfy to be downloaded. */
  ghost predicate Valid(t: TorrentInfo) {
    && t.name != ""
    && t.pieceLength > 0
    && |t.pieces| % HASH_SIZE == 0
    && GoodLengths(t)
    && PiecesCover(t)
  }

  /** Entry `i` is the first bad one, and `e` is what is wrong with it. */
  ghost predicate BadEntry(files: seq<FileEntry>, i: nat, e: ValidationError)
    requires i < |files|
  {
    && (forall j | 0 <= j < i :: GoodEntry(files[j]))
    && SumLengths(files[..i]) <= INT64_MAX
    && match e
       case EmptyPath => files[i].path == ""
       case NegativeLength => files[i].path != "" && files[i].length < 0
       case TotalOverflow => GoodEntry(files[i]) && SumLengths(files[..i + 1]) > INT64_MAX
       case _ => false
  }

  /** The torrent passes every check made before the one that reports `e`, and fails that one. */
  ghost predicate Fails(t: TorrentInfo, e: ValidationError) {
    match e
    case EmptyName => t.name == ""
    case BadPieceLength => t.name != "" && t.pieceLength <= 0
    case RaggedHashes => t.name != "" && t.pieceLength > 0 && |t.pieces| % HASH_SIZE != 0
    case PieceCountMismatch =>
      t.name != "" && t.pieceLength > 0 && |t.pieces| % HASH_SIZE == 0 && GoodLengths(t) && !PiecesCover(t)
    case _ =>
      && t.name != "" && t.pieceLength > 0 && |t.pieces| % HASH_SIZE == 0
      && if t.IsMultiFile() then exists i :: 0 <= i < |t.files| && BadEntry(t.files, i, e)
         else e == NegativeLength && t.fileLength < 0
  }

  /** A torrent that fails a check is not valid. */
  lemma FailedIsNotValid(t: TorrentInfo, e: ValidationError)
    requires Fails(t, e)
    ensures !Valid(t)
  {
    if t.IsMultiFile() && !(e in {EmptyName, BadPieceLength, RaggedHashes, PieceCountMismatch}) && GoodLengths(t) {
      var i :| 0 <= i < |t.files| && BadEntry(t.files, i, e);
      PrefixSum(t.files, i + 1);
    }
  }

  lemma {:induction false} PrefixSum(files: seq<FileEntry>, i: nat)
    requires i <= |files|
    requires forall j | 0 <= j < |files| :: files[j].length >= 0
    ensures 0 <= SumLengths(files[..i]) <= SumLengths(files)
  {
    if i == |files| {
      assert files[..i] == files;
      if i > 0 {
        PrefixSum(files[..i - 1], i - 1);
        assert files[..i - 1][..i - 1] == files[..i - 1];
      }
    } else {
      PrefixSum(files[..|files| - 1], i);
      assert files[..|files| - 1][..i] == files[..i];
    }
  }

  /** The one prefix of the file list whose sum overflows makes the whole list overflow. */
  lemma PrefixSumStep(files: seq<FileEntry>, i: nat)
    requires i < |files|
    ensures SumLengths(files[..i + 1]) == SumLengths(files[..i]) + files[i].length
  {
    assert files[..i + 1][..i] == files[..i];
  }

  /** The loop over the file list: 64-bit additions guarded so that none overflows. */
  method SumFileLengths(files: seq<FileEntry>) returns (total: int64, error: Option<ValidationError>)
    ensures error.None? <==> (forall entry | entry in files :: GoodEntry(entry)) && SumLengths(files) <= INT64_MAX
    ensures error.None? ==> 0 <= total == SumLengths(files)
    ensures error.Some? ==> exists i :: 0 <= i < |files| && BadEntry(files, i, error.value)
  {
    total := 0;
    for i := 0 to |files|
      invariant forall j | 0 <= j < i :: GoodEntry(files[j])
      invariant 0 <= total == SumLengths(files[..i])
    {
      var entry := files[i];
      assert entry in files;
      PrefixSumStep(files, i);
      if entry.path == "" {
        assert BadEntry(files, i, EmptyPath);
        return total, Some(EmptyPath);
      }
      if entry.length < 0 {
        assert BadEntry(files, i, NegativeLength);
        return total, Some(NegativeLength);
      }
      if entry.length > INT64_MAX - total {
        assert BadEntry(files, i, TotalOverflow);
        if forall j | 0 <= j < |files| :: GoodEntry(files[j]) {
          PrefixSum(files, i + 1);
        }
        return total, Some(TotalOverflow);
      }
      total := total + entry.length;
    }
    assert files[..|files|] == files;
    return total, None;
  }

  /**
    Validation accepts exactly the valid torrents and names the first check that fails. The
    running total stays within 64 bits, whatever lengths the torrent declares.
   */
  method ValidateTorrentInfo(t: TorrentInfo) returns (r: Option<ValidationError>)
    ensures r.None? <==> Valid(t)
    ensures r.Some? ==> Fails(t, r.value)
  {
    if t.name == "" {
      return Some(EmptyName);
    }
    if t.pieceLength <= 0 {
      return Some(BadPieceLength);
    }
    if |t.pieces| % HASH_SIZE != 0 {
      return Some(RaggedHashes);
    }
    var total: int64 := t.fileLength;
    if t.IsMultiFile() {
      var sum, error := SumFileLengths(t.files);
      if error.Some? {
        return error;
      }
      total := sum;
    } else if t.fileLength < 0 {
      return Some(NegativeLength);
    }
    var expectedPieces := if total == 0 then 0 else 1 + (total - 1) / t.pieceLength;
    CeilingIsCover(total, t.pieceLength, t.NumPieces());
    return if t.NumPieces() != expectedPieces then Some(PieceCountMismatch) else None;
  }

  lemma CeilingIsCover(total: nat, pieceLength: int, n: nat)
    requires pieceLength > 0
    ensures n == (if total == 0 then 0 else 1 + (total - 1) / pieceLength)
            <==> (n - 1) * pieceLength < total <= n * pieceLength
  {
    if total > 0 {
      var q := (total - 1) / pieceLength;
      assert q * pieceLength <= total - 1 < (q + 1) * pieceLength;
      if n > q + 1 {
        MulMonotone(q + 1, n - 1, pieceLength);
      } else if n < q + 1 {
        MulMonotone(n, q, pieceLength);
      }
    } else if n > 0 {
      MulMonotone(0, n - 1, pieceLength);
    }
  }

  lemma MulMonotone(a: int, b: int, m: int)
    requires a <= b && m >= 0
    ensures a * m <= b * m
  {
  }

  /** The content length of a valid torrent, summed in 64-bit arithmetic without overflow. */
  method TotalLength(t: TorrentInfo) returns (total: int64)
    requires GoodLengths(t)
    ensures total == t.Total() >= 0
  {
    if !t.IsMultiFile() {
      return t.fileLength;
    }
    total := 0;
    assert forall j | 0 <= j < |t.files| :: t.files[j] in t.files && GoodEntry(t.files[j]);
    for i := 0 to |t.files|
      invariant 0 <= total == SumLengths(t.files[..i])
    {
      PrefixSumStep(t.files, i);
      PrefixSum(t.files, i + 1);
      total := total + t.files[i].length;
    }
    assert t.files[..|t.files|] == t.files;
  }

  // ----- Pieces and blocks

  function PieceStart(t: TorrentInfo, p: nat): int {
    p * t.pieceLength
  }

  /** Every piece is `pieceLength` long except possibly the last. */
  function PieceSize(t: TorrentInfo, p: nat): int {
    Min(t.pieceLength, t.Total() - PieceStart(t, p))
  }

  function Blocks(t: TorrentInfo, p: nat): int {
    (PieceSize(t, p) + BLOCK_SIZE - 1) / BLOCK_SIZE
  }

  function BlockLength(t: TorrentInfo, p: nat, b: nat): int {
    Min(BLOCK_SIZE, PieceSize(t, p) - b * BLOCK_SIZE)
  }

  function BlockStart(t: TorrentInfo, p: nat, b: nat): int {
    PieceStart(t, p) + b * BLOCK_SIZE
  }

  ghost predicate IsBlock(t: TorrentInfo, p: nat, b: nat) {
    p < t.NumPieces() && b < Blocks(t, p)
  }

  /** Byte `x` of the content belongs to block `b` of piece `p`. */
  ghost predicate InBlock(t: TorrentInfo, p: nat, b: nat, x: nat) {
    && IsBlock(t, p, b)
    && var at := p * t.pieceLength + b * 16384;
       at <= x < at + Min(16384, Min(t.pieceLength, t.Total() - p * t.pieceLength) - b * 16384)
  }

  lemma TotalNonNegative(t: TorrentInfo)
    requires GoodLengths(t)
    ensures 0 <= t.Total()
  {
    if t.IsMultiFile() {
      forall j | 0 <= j < |t.files| ensures t.files[j].length >= 0 {
        assert t.files[j] in t.files;
      }
      PrefixSum(t.files, 0);
    }
  }

  /** A piece is non-empty and lies inside the content. */
  lemma PieceBounds(t: TorrentInfo, p: nat)
    requires Valid(t) && p < t.NumPieces()
    ensures 0 <= PieceStart(t, p) && 0 < PieceSize(t, p)
    ensures PieceStart(t, p) + PieceSize(t, p) <= t.Total()
  {
    MulMonotone(0, p, t.pieceLength);
    MulMonotone(p, t.NumPieces() - 1, t.pieceLength);
  }

  /** A block is non-empty and lies inside its piece. */
  lemma BlockBounds(t: TorrentInfo, p: nat, b: nat)
    requires Valid(t) && IsBlock(t, p, b)
    ensures 0 < BlockLength(t, p, b) <= 16384 && BlockStart(t, p, b) == p * t.pieceLength + b * 16384
    ensures PieceStart(t, p) <= BlockStart(t, p, b)
    ensures BlockStart(t, p, b) + BlockLength(t, p, b) <= PieceStart(t, p) + PieceSize(t, p) <= t.Total()
  {
    PieceBounds(t, p);
  }

  /** Different pieces occupy different bytes. */
  lemma PiecesDisjoint(t: TorrentInfo, p: nat, q: nat)
    requires Valid(t) && p < q < t.NumPieces()
    ensures PieceStart(t, p) + PieceSize(t, p) <= PieceStart(t, q)
  {
    MulMonotone(p + 1, q, t.pieceLength);
  }

  /** Every byte of the content is in exactly one block. */
  lemma BlocksTile(t: TorrentInfo, x: nat)
    requires Valid(t) && x < t.Total()
    ensures exists p, b :: InBlock(t, p, b, x)
    ensures forall p, b, q, c | InBlock(t, p, b, x) && InBlock(t, q, c, x) :: p == q && b == c
  {
    SomeBlock(t, x);
    forall p, b, q, c | InBlock(t, p, b, x) && InBlock(t, q, c, x)
      ensures p == q && b == c
    {
      OneBlock(t, p, b, q, c, x);
    }
  }

  lemma SomeBlock(t: TorrentInfo, x: nat)
    requires Valid(t) && x < t.Total()
    ensures exists p, b :: InBlock(t, p, b, x)
  {
    var p := Quotient(x, t.pieceLength);
    HomePiece(t, x, p);
    var b := Quotient(x - PieceStart(t, p), BLOCK_SIZE);
    HomeBlock(t, x, p, b);
  }

  lemma {:induction false} Quotient(x: nat, d: int) returns (q: nat)
    requires d > 0
    ensures q * d <= x < q * d + d
    decreases x
  {
    if x < d {
      q := 0;
    } else {
      q := Quotient(x - d, d);
      q := q + 1;
    }
  }

  lemma OneBlock(t: TorrentInfo, p: nat, b: nat, q: nat, c: nat, x: nat)
    requires Valid(t) && InBlock(t, p, b, x) && InBlock(t, q, c, x)
    ensures p == q && b == c
  {
    BlocksDisjoint(t, p, b, q, c);
  }

  /** Different blocks occupy different bytes. */
  lemma BlocksDisjoint(t: TorrentInfo, p: nat, b: nat, q: nat, c: nat)
    requires Valid(t) && IsBlock(t, p, b) && IsBlock(t, q, c)
    ensures (p == q && b == c)
         || BlockStart(t, p, b) + BlockLength(t, p, b) <= BlockStart(t, q, c)
         || BlockStart(t, q, c) + BlockLength(t, q, c) <= BlockStart(t, p, b)
  {
    BlockBounds(t, p, b);
    BlockBounds(t, q, c);
    if p < q {
      PiecesDisjoint(t, p, q);
    } else if q < p {
      PiecesDisjoint(t, q, p);
    }
  }

  lemma HomePiece(t: TorrentInfo, x: nat, p: nat)
    requires Valid(t) && x < t.Total()
    requires p * t.pieceLength <= x < p * t.pieceLength + t.pieceLength
    ensures p < t.NumPieces() && PieceStart(t, p) <= x < PieceStart(t, p) + PieceSize(t, p)
  {
    if p >= t.NumPieces() {
      MulMonotone(t.NumPieces(), p, t.pieceLength);
    }
  }

  lemma HomeBlock(t: TorrentInfo, x: nat, p: nat, b: nat)
    requires Valid(t) && p < t.NumPieces() && PieceStart(t, p) <= x < PieceStart(t, p) + PieceSize(t, p)
    requires b * BLOCK_SIZE <= x - PieceStart(t, p) < b * BLOCK_SIZE + BLOCK_SIZE
    ensures InBlock(t, p, b, x)
  {
    PieceBounds(t, p);
  }

  ghost function SumBlocks(t: TorrentInfo, p: nat, n: nat): int {
    if n == 0 then 0 else SumBlocks(t, p, n - 1) + BlockLength(t, p, n - 1)
  }

  ghost function SumPieces(t: TorrentInfo, n: nat): int {
    if n == 0 then 0 else SumPieces(t, n - 1) + PieceSize(t, n - 1)
  }

  /** The block lengths of a piece add up to the piece. */
  lemma {:induction false} BlockSum(t: TorrentInfo, p: nat, n: nat)
    requires Valid(t) && p < t.NumPieces() && n <= Blocks(t, p)
    ensures SumBlocks(t, p, n) == Min(n * BLOCK_SIZE, PieceSize(t, p))
  {
    PieceBounds(t, p);
    if n > 0 {
      BlockSum(t, p, n - 1);
    }
  }

  /** The piece sizes add up to the content. */
  lemma {:induction false} PieceSum(t: TorrentInfo, n: nat)
    requires Valid(t) && n <= t.NumPieces()
    ensures SumPieces(t, n) == Min(PieceStart(t, n), t.Total())
  {
    if n == 0 {
      TotalNonNegative(t);
    } else {
      PieceSum(t, n - 1);
      PieceBounds(t, n - 1);
      NextPiece(t, n - 1);
    }
  }

  lemma NextPiece(t: TorrentInfo, p: nat)
    ensures PieceStart(t, p + 1) == PieceStart(t, p) + t.pieceLength
  {
  }

  lemma PiecesSumToTotal(t: TorrentInfo)
    requires Valid(t)
    ensures SumPieces(t, t.NumPieces()) == t.Total()
  {
    PieceSum(t, t.NumPieces());
  }

  lemma WholePieceSum(t: TorrentInfo, p: nat)
    requires Valid(t) && p < t.NumPieces()
    ensures 0 < Blocks(t, p) && SumBlocks(t, p, Blocks(t, p)) == PieceSize(t, p)
  {
    PieceBounds(t, p);
    BlockSum(t, p, Blocks(t, p));
  }
}
