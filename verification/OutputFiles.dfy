/**
  The output files of a download. Pieces and blocks are addressed by their offset in the whole
  content, so reads and writes may straddle any number of files, some of them empty.
 */
module OutputStore {
  import opened Bytes

  /** An open file of `length` bytes whose first byte is byte `startOffset` of the content. */
  datatype OutputFile = OutputFile(startOffset: nat, length: nat, data: bytes)

  /** The content as one flat byte string. */
  ghost function Flat(files: seq<OutputFile>): bytes {
    if files == [] then [] else Flat(files[..|files| - 1]) + files[|files| - 1].data
  }

  /** The files are laid out one after the other, each resized to its length. */
  ghost predicate Layout(files: seq<OutputFile>) {
    files == [] ||
    var init, last := files[..|files| - 1], files[|files| - 1];
    Layout(init) && last.startOffset == |Flat(init)| && |last.data| == last.length
  }

  /** What a write of `data` at `at` leaves when the disk takes only the first `limit` bytes. */
  ghost function Written(content: bytes, at: nat, data: bytes, limit: nat): (r: bytes)
    ensures |r| == |content|
  {
    if at >= |content| then content
    else Splice(content, at, data[..Min(Min(limit, |data|), |content| - at)])
  }

  /** A file brought to `length` bytes: cut off, or extended with zeros. */
  function Resized(data: bytes, length: nat): (r: bytes)
    ensures |r| == length
  {
    if length <= |data| then data[..length] else data + seq(length - |data|, _ => 0)
  }

  /** Where file `i` lies in the flat content. */
  lemma {:induction false} FilePlace(files: seq<OutputFile>, i: nat)
    requires Layout(files) && i < |files|
    ensures files[i].startOffset == |Flat(files[..i])| && |files[i].data| == files[i].length
    ensures |Flat(files[..i + 1])| == files[i].startOffset + files[i].length <= |Flat(files)|
    ensures Flat(files)[files[i].startOffset..files[i].startOffset + files[i].length] == files[i].data
  {
    var init := files[..|files| - 1];
    if i == |files| - 1 {
      assert files[..i + 1] == files;
    } else {
      FilePlace(init, i);
      assert init[..i] == files[..i] && init[..i + 1] == files[..i + 1];
    }
  }

  /** File `i` with `chunk` written at `within`. */
  ghost function Patched(files: seq<OutputFile>, i: nat, within: nat, chunk: bytes): seq<OutputFile>
    requires i < |files| && within + |chunk| <= |files[i].data|
  {
    files[i := files[i].(data := Splice(files[i].data, within, chunk))]
  }

  /** Writing inside one file is writing inside the flat content. */
  lemma {:induction false} FlatPatched(files: seq<OutputFile>, i: nat, within: nat, chunk: bytes)
    requires Layout(files) && i < |files| && within + |chunk| <= |files[i].data|
    ensures files[i].startOffset + within + |chunk| <= |Flat(files)|
    ensures Layout(Patched(files, i, within, chunk))
    ensures Flat(Patched(files, i, within, chunk)) == Splice(Flat(files), files[i].startOffset + within, chunk)
  {
    if i == |files| - 1 {
      PatchedLast(files, within, chunk);
    } else {
      FlatPatched(files[..|files| - 1], i, within, chunk);
      PatchedInit(files, i, within, chunk);
    }
  }

  lemma PatchedLast(files: seq<OutputFile>, within: nat, chunk: bytes)
    requires files != [] && Layout(files) && within + |chunk| <= |files[|files| - 1].data|
    ensures var i := |files| - 1;
            && files[i].startOffset + within + |chunk| <= |Flat(files)|
            && Layout(Patched(files, i, within, chunk))
            && Flat(Patched(files, i, within, chunk)) == Splice(Flat(files), files[i].startOffset + within, chunk)
  {
    var i := |files| - 1;
    assert Patched(files, i, within, chunk)[..i] == files[..i];
    SpliceRight(Flat(files[..i]), files[i].data, within, chunk);
  }

  lemma PatchedInit(files: seq<OutputFile>, i: nat, within: nat, chunk: bytes)
    requires Layout(files) && i + 1 < |files| && within + |chunk| <= |files[i].data|
    requires var init := files[..|files| - 1];
             && files[i].startOffset + within + |chunk| <= |Flat(init)| && Layout(Patched(init, i, within, chunk))
             && Flat(Patched(init, i, within, chunk)) == Splice(Flat(init), files[i].startOffset + within, chunk)
    ensures files[i].startOffset + within + |chunk| <= |Flat(files)|
    ensures Layout(Patched(files, i, within, chunk))
    ensures Flat(Patched(files, i, within, chunk)) == Splice(Flat(files), files[i].startOffset + within, chunk)
  {
    var n := |files| - 1;
    var patched := Patched(files, i, within, chunk);
    assert patched[..n] == Patched(files[..n], i, within, chunk) && patched[n] == files[n];
    assert Flat(patched) == Flat(patched[..n]) + files[n].data;
    SpliceLeft(Flat(files[..n]), files[n].data, files[i].startOffset + within, chunk);
  }

  lemma SpliceRight(a: bytes, b: bytes, within: nat, chunk: bytes)
    requires within + |chunk| <= |b|
    ensures Splice(a + b, |a| + within, chunk) == a + Splice(b, within, chunk)
  {
  }

  lemma SpliceLeft(a: bytes, b: bytes, at: nat, chunk: bytes)
    requires at + |chunk| <= |a|
    ensures Splice(a + b, at, chunk) == Splice(a, at, chunk) + b
  {
  }

  /** One more chunk of a write under way. */
  lemma WrittenExtend(s: bytes, at: nat, data: bytes, pos: nat, n: nat)
    requires pos + n <= |data| && at + pos + n <= |s| && at < |s|
    ensures Splice(Written(s, at, data, pos), at + pos, data[pos..pos + n]) == Written(s, at, data, pos + n)
  {
    assert Written(s, at, data, pos) == Splice(s, at, data[..pos]);
    assert Written(s, at, data, pos + n) == Splice(s, at, data[..pos + n]);
    SpliceTwice(s, at, data[..pos], data[pos..pos + n]);
    assert data[..pos] + data[pos..pos + n] == data[..pos + n];
  }

  lemma SpliceTwice(s: bytes, at: nat, a: bytes, b: bytes)
    requires at + |a| + |b| <= |s|
    ensures Splice(Splice(s, at, a), at + |a|, b) == Splice(s, at, a + b)
  {
  }

  /** The content after `pos` bytes, with `n` more written, is the content after `pos + n` bytes. */
  ghost predicate Extends(progress: nat -> bytes, at: nat, data: bytes, pos: nat, n: nat) {
    0 < n && pos + n <= |data| && at + pos + n <= |progress(pos)| ==>
      progress(pos + n) == Splice(progress(pos), at + pos, data[pos..pos + n])
  }

  lemma WrittenGrows(s: bytes, at: nat, data: bytes, pos: nat, n: nat, progress: nat -> bytes)
    requires progress(pos) == Written(s, at, data, pos) && progress(pos + n) == Written(s, at, data, pos + n)
    ensures Extends(progress, at, data, pos, n)
  {
    if 0 < n && pos + n <= |data| && at + pos + n <= |s| {
      WrittenExtend(s, at, data, pos, n);
    }
  }

  /** A write is over when it has reached the end of the data or of the content. */
  lemma WrittenEnd(s: bytes, at: nat, data: bytes, pos: nat, limit: nat)
    requires pos <= Min(limit, |data|) && (pos == |data| || pos == limit || at + pos >= |s|)
    ensures Written(s, at, data, pos) == Written(s, at, data, limit)
  {
  }

  lemma WrittenNothing(s: bytes, at: nat, data: bytes)
    ensures Written(s, at, data, 0) == s
  {
  }

  /** The `n` bytes of the content at `at`; nothing outside the content. */
  ghost function Visible(content: bytes, at: nat, n: nat): bytes {
    if at + n <= |content| then content[at..at + n] else []
  }

  /** Offset `at` of the content is not before file `fi`. */
  ghost predicate NotBefore(files: seq<OutputFile>, fi: nat, at: nat) {
    if fi < |files| then files[fi].startOffset <= at else |Flat(files)| <= at
  }

  lemma FirstFile(files: seq<OutputFile>)
    requires Layout(files)
    ensures NotBefore(files, 0, 0)
  {
    if files != [] {
      FilePlace(files, 0);
      assert files[..0] == [];
    }
  }

  /** A file ends where the next one starts. */
  lemma NextFile(files: seq<OutputFile>, fi: nat)
    requires Layout(files) && fi < |files|
    ensures files[fi].startOffset + files[fi].length <= |Flat(files)| && |files[fi].data| == files[fi].length
    ensures NotBefore(files, fi + 1, files[fi].startOffset + files[fi].length)
  {
    FilePlace(files, fi);
    if fi + 1 < |files| {
      FilePlace(files, fi + 1);
    } else {
      assert files[..fi + 1] == files;
    }
  }

  lemma SliceOfSlice(s: bytes, at: nat, length: nat, within: nat, n: nat)
    requires at + length <= |s| && within + n <= length
    ensures s[at..at + length][within..within + n] == s[at + within..at + within + n]
  {
    var part := s[at..at + length];
    assert forall k | within <= k < within + n :: part[k] == s[at + k];
    assert |part[within..within + n]| == n;
  }

  lemma FileSlice(files: seq<OutputFile>, i: nat, within: nat, n: nat)
    requires Layout(files) && i < |files| && within + n <= files[i].length
    ensures |files[i].data| == files[i].length
    ensures Visible(Flat(files), files[i].startOffset + within, n) == files[i].data[within..within + n]
  {
    FilePlace(files, i);
    VisibleSlice(Flat(files), files[i].startOffset, files[i].data, within, n);
  }

  lemma VisibleSlice(content: bytes, start: nat, data: bytes, within: nat, n: nat)
    requires start + |data| <= |content| && content[start..start + |data|] == data && within + n <= |data|
    ensures Visible(content, start + within, n) == data[within..within + n]
  {
    SliceOfSlice(content, start, |data|, within, n);
  }

  lemma ReadExtend(content: bytes, at: nat, pos: nat, n: nat)
    requires at + pos + n <= |content|
    ensures Visible(content, at, pos) + Visible(content, at + pos, n) == Visible(content, at, pos + n)
  {
  }

  lemma OneMoreFile(files: seq<OutputFile>, f: OutputFile, lengths: seq<nat>, i: nat)
    requires Layout(files) && f.startOffset == |Flat(files)| && |f.data| == f.length
    requires i < |lengths| && lengths[i] == f.length
    ensures Layout(files + [f]) && |Flat(files + [f])| == |Flat(files)| + f.length
    ensures Sum(lengths[..i + 1]) == Sum(lengths[..i]) + f.length
  {
    assert (files + [f])[..|files|] == files && lengths[..i + 1][..i] == lengths[..i];
  }

  /** What an output path names before a download. */
  datatype Target = Absent | Regular(data: bytes) | Special

  /** The target can be used: absent, or a regular file that is overwritten or no longer than the torrent says. */
  predicate FitsIn(target: Target, length: nat, overwrite: bool) {
    match target
    case Absent => true
    case Regular(data) => overwrite || |data| <= length
    case Special => false
  }

  /** The contents a file starts with. */
  function Kept(target: Target, length: nat, overwrite: bool): bytes {
    Resized(if overwrite || !target.Regular? then [] else target.data, length)
  }

  function Sum(lengths: seq<nat>): nat {
    if lengths == [] then 0 else Sum(lengths[..|lengths| - 1]) + lengths[|lengths| - 1]
  }

  /** The lengths of the files. */
  function Sizes(files: seq<OutputFile>): seq<nat> {
    seq(|files|, i requires 0 <= i < |files| => files[i].length)
  }

  /**
    The content starts with the files' old bytes: byte `k` of the `i`-th file is that of its target if this is a
    regular file that is not overwritten and has such a byte, and zero otherwise.
   */
  ghost predicate OpensTo(content: bytes, lengths: seq<nat>, targets: seq<Target>, overwrite: bool)
    requires |lengths| == |targets|
  {
    && |content| == Sum(lengths)
    && forall i: nat, k: nat | i < |lengths| && k < lengths[i] ::
         OpensAt(content, Sum(lengths[..i]), targets[i], overwrite, k)
  }

  /** Byte `k` of a file that starts at `at`. */
  ghost predicate OpensAt(content: bytes, at: nat, target: Target, overwrite: bool, k: nat) {
    && at + k < |content|
    && content[at + k] == if !overwrite && target.Regular? && k < |target.data| then target.data[k] else 0
  }

  lemma {:induction false} SumOfPrefix(lengths: seq<nat>, i: nat)
    requires i < |lengths|
    ensures Sum(lengths[..i]) + lengths[i] <= Sum(lengths)
    decreases |lengths|
  {
    var init := lengths[..|lengths| - 1];
    if i == |lengths| - 1 {
      assert lengths[..i] == init;
    } else {
      SumOfPrefix(init, i);
      assert init[..i] == lengths[..i];
    }
  }

  lemma {:induction false} FlatLength(files: seq<OutputFile>)
    requires Layout(files)
    ensures |Flat(files)| == Sum(Sizes(files))
  {
    if files != [] {
      var init := files[..|files| - 1];
      FlatLength(init);
      assert Sizes(files)[..|files| - 1] == Sizes(init);
    }
  }

  /** Where a file lies follows from the lengths alone. */
  lemma PlaceBySizes(files: seq<OutputFile>, i: nat)
    requires Layout(files) && i < |files|
    ensures files[i].startOffset == Sum(Sizes(files)[..i]) && |files[i].data| == files[i].length
    ensures files[i].startOffset + files[i].length <= |Flat(files)|
    ensures Flat(files)[files[i].startOffset..files[i].startOffset + files[i].length] == files[i].data
  {
    FilePlace(files, i);
    PrefixLaidOut(files, i);
    FlatLength(files[..i]);
    assert Sizes(files[..i]) == Sizes(files)[..i];
  }

  lemma {:induction false} PrefixLaidOut(files: seq<OutputFile>, i: nat)
    requires Layout(files) && i <= |files|
    ensures Layout(files[..i])
  {
    if i < |files| {
      PrefixLaidOut(files[..|files| - 1], i);
      assert files[..|files| - 1][..i] == files[..i];
    } else {
      assert files[..i] == files;
    }
  }

  /** Files with the contents they start with. */
  lemma OpenedContent(files: seq<OutputFile>, lengths: seq<nat>, targets: seq<Target>, overwrite: bool)
    requires |files| == |lengths| == |targets| && Layout(files) && Sizes(files) == lengths
    requires forall i | 0 <= i < |files| :: files[i].data == Kept(targets[i], lengths[i], overwrite)
    ensures OpensTo(Flat(files), lengths, targets, overwrite)
  {
    FlatLength(files);
    forall i: nat, k: nat | i < |lengths| && k < lengths[i]
      ensures OpensAt(Flat(files), Sum(lengths[..i]), targets[i], overwrite, k)
    {
      PlaceBySizes(files, i);
      assert files[i].length == Sizes(files)[i];
      PlacedBytes(Flat(files), files[i].startOffset, files[i].data, targets[i], overwrite, k);
    }
  }

  lemma PlacedBytes(content: bytes, at: nat, data: bytes, target: Target, overwrite: bool, k: nat)
    requires k < |data| && data == Kept(target, |data|, overwrite)
    requires at + |data| <= |content| && content[at..at + |data|] == data
    ensures OpensAt(content, at, target, overwrite, k)
  {
    assert content[at..at + |data|][k] == content[at + k];
  }

  /** The first `i` files are open: laid out one after the other, with the contents they start with. */
  ghost predicate Opened(files: seq<OutputFile>, offset: nat, lengths: seq<nat>, targets: seq<Target>,
                         overwrite: bool, i: nat)
    requires i <= |lengths| == |targets|
  {
    && |files| == i && Layout(files)
    && offset == |Flat(files)| == Sum(lengths[..i])
    && (forall j | 0 <= j < i :: files[j].length == lengths[j])
    && (forall j | 0 <= j < i :: FitsIn(targets[j], lengths[j], overwrite))
    && forall j | 0 <= j < i :: files[j].data == Kept(targets[j], lengths[j], overwrite)
  }

  lemma OneMoreOpened(files: seq<OutputFile>, f: OutputFile, lengths: seq<nat>, targets: seq<Target>,
                      overwrite: bool, i: nat)
    requires i < |lengths| == |targets| && Opened(files, f.startOffset, lengths, targets, overwrite, i)
    requires f.length == lengths[i] && f.data == Kept(targets[i], lengths[i], overwrite)
    requires FitsIn(targets[i], lengths[i], overwrite)
    ensures Opened(files + [f], f.startOffset + f.length, lengths, targets, overwrite, i + 1)
  {
    OneMoreFile(files, f, lengths, i);
  }

  class OutputFiles {
    var files: seq<OutputFile>

    ghost predicate Valid()
      reads this
    {
      Layout(files)
    }

    ghost function Contents(): bytes
      reads this
    {
      Flat(files)
    }

    constructor ()
      ensures Valid() && files == []
    {
      files := [];
    }

    /**
      Opens one file per length. Without `overwrite`, an existing file longer than its length fails the whole
      operation before anything is changed; otherwise existing contents are kept. A target that is not a regular
      file fails it in any case.
     */
    method Open(lengths: seq<nat>, targets: seq<Target>, overwrite: bool) returns (ok: bool)
      requires |targets| == |lengths|
      modifies this
      ensures Valid()
      ensures ok <==> forall i | 0 <= i < |lengths| :: FitsIn(targets[i], lengths[i], overwrite)
      ensures !ok ==> files == []
      ensures ok <==> forall i | 0 <= i < |lengths| ::
                !targets[i].Special? && (targets[i].Regular? && !overwrite ==> |targets[i].data| <= lengths[i])
      ensures ok ==> Sizes(files) == lengths && OpensTo(Contents(), lengths, targets, overwrite)
    {
      files := [];
      if !overwrite {
        var safe := Preflight(lengths, targets);
        if !safe {
          return false;
        }
      }
      var runningOffset := 0;
      for i := 0 to |lengths|
        invariant Opened(files, runningOffset, lengths, targets, overwrite, i)
      {
        if targets[i].Special? {
          files := [];
          return false;
        }
        var f := OutputFile(runningOffset, lengths[i], Kept(targets[i], lengths[i], overwrite));
        OneMoreOpened(files, f, lengths, targets, overwrite, i);
        files := files + [f];
        runningOffset := runningOffset + lengths[i];
      }
      assert lengths[..|lengths|] == lengths;
      OpenedContent(files, lengths, targets, overwrite);
      ok := true;
    }

    method Preflight(lengths: seq<nat>, targets: seq<Target>) returns (safe: bool)
      requires |targets| == |lengths|
      ensures safe <==> forall i | 0 <= i < |lengths| :: FitsIn(targets[i], lengths[i], false)
    {
      for i := 0 to |lengths|
        invariant forall j | 0 <= j < i :: FitsIn(targets[j], lengths[j], false)
      {
        if !FitsIn(targets[i], lengths[i], false) {
          return false;
        }
      }
      safe := true;
    }

    /**
      Writes `data` at offset `at` of the content. The disk takes `limit` bytes before the first
      error, which ends the write.
     */
    method Write(at: nat, data: bytes, limit: nat)
      requires Valid()
      modifies this
      ensures Valid()
      ensures Contents() == Written(old(Contents()), at, data, limit) && Sizes(files) == old(Sizes(files))
    {
      ghost var before := Contents();
      ghost var progress: nat -> bytes := n => Written(before, at, data, n);
      WrittenNothing(before, at, data);
      forall pos: nat, n: nat
        ensures Extends(progress, at, data, pos, n)
      {
        WrittenGrows(before, at, data, pos, n, progress);
      }
      var pos := WriteUntil(at, data, limit, progress);
      WrittenEnd(before, at, data, pos, limit);
    }

    /**
      Writes until the data, the disk or the content is used up, and says how far that is. `progress` gives what
      the content is after each number of bytes.
     */
    method WriteUntil(at: nat, data: bytes, limit: nat, ghost progress: nat -> bytes) returns (pos: nat)
      requires Valid() && Contents() == progress(0)
      requires forall p: nat, n: nat :: Extends(progress, at, data, p, n)
      modifies this
      ensures Valid() && pos <= limit && pos <= |data| && Contents() == progress(pos)
      ensures pos == |data| || pos == limit || at + pos >= |Contents()|
      ensures Sizes(files) == old(Sizes(files))
    {
      var absOffset, fi, failed := at, 0, false;
      FirstFile(files);
      pos := 0;
      while pos < |data| && fi < |files| && !failed
        invariant Valid() && pos <= limit && pos <= |data| && absOffset == at + pos && fi <= |files|
        invariant NotBefore(files, fi, absOffset) && Contents() == progress(pos)
        invariant failed ==> pos == limit
        invariant Sizes(files) == old(Sizes(files))
        decreases |files| - fi, |data| - pos, !failed
      {
        var taken;
        fi, taken, failed := WriteOn(fi, absOffset, pos, at, data, limit, progress);
        pos := pos + taken;
        absOffset := absOffset + taken;
      }
    }

    /** Goes on to the next file when this one is behind, and writes what this one holds of the rest otherwise. */
    method WriteOn(fi: nat, absOffset: nat, pos: nat, at: nat, data: bytes, limit: nat, ghost progress: nat -> bytes)
      returns (fi': nat, taken: nat, failed: bool)
      requires Valid() && fi < |files| && NotBefore(files, fi, absOffset) && absOffset == at + pos
      requires pos < |data| && pos <= limit && Contents() == progress(pos)
      requires forall p: nat, n: nat :: Extends(progress, at, data, p, n)
      modifies this
      ensures Valid() && |files| == old(|files|) && fi <= fi' <= |files| && NotBefore(files, fi', absOffset + taken)
      ensures pos + taken <= limit && pos + taken <= |data| && Contents() == progress(pos + taken)
      ensures fi' == fi ==> taken > 0 || failed
      ensures failed ==> pos + taken == limit
      ensures Sizes(files) == old(Sizes(files))
    {
      var end := files[fi].startOffset + files[fi].length;
      NextFile(files, fi);
      if absOffset >= end {
        return fi + 1, 0, false;
      }
      // The write position is never before the file, and some of the file is left to write.
      var chunk := Min(|data| - pos, end - absOffset);
      taken := Min(chunk, limit - pos);
      if taken > 0 {
        assert Extends(progress, at, data, pos, taken);
        WriteInto(fi, absOffset - files[fi].startOffset, data[pos..pos + taken], absOffset, progress(pos + taken));
      }
      return fi, taken, taken < chunk;
    }

    /** Writes inside one file. */
    method WriteInto(fi: nat, within: nat, part: bytes, ghost place: nat, ghost after: bytes)
      requires Valid() && fi < |files| && within + |part| <= files[fi].length
      requires place == files[fi].startOffset + within && place + |part| <= |Contents()|
      requires after == Splice(Contents(), place, part)
      modifies this
      ensures Valid() && |files| == |old(files)| && files[fi].startOffset == old(files[fi].startOffset)
      ensures Contents() == after && Sizes(files) == old(Sizes(files))
    {
      FilePlace(files, fi);
      FlatPatched(files, fi, within, part);
      var f := files[fi];
      files := files[fi := f.(data := Splice(f.data, within, part))];
    }

    /**
      Reads `size` bytes at offset `at` of the content; the read fails when the disk gives up
      before `limit` bytes or the content ends.
     */
    method Read(at: nat, size: nat, limit: nat) returns (ok: bool, data: bytes)
      requires Valid()
      ensures ok <==> (size == 0 || at + size <= |Contents()|) && size <= limit
      ensures ok ==> data == Visible(Contents(), at, size)
    {
      data := [];
      var absOffset, pos, fi := at, 0, 0;
      FirstFile(files);
      while pos < size && fi < |files|
        invariant 0 <= pos <= limit && pos <= size && absOffset == at + pos && fi <= |files|
        invariant NotBefore(files, fi, absOffset) && (pos > 0 ==> absOffset <= |Contents()|)
        invariant data == Visible(Contents(), at, pos)
        decreases |files| - fi, size - pos
      {
        var f := files[fi];
        NextFile(files, fi);
        var end := f.startOffset + f.length;
        if absOffset >= end {
          fi := fi + 1;
          continue;
        }
        var chunk := Min(size - pos, end - absOffset);
        if limit - pos < chunk {
          return false, data;
        }
        data := ReadChunk(fi, absOffset, chunk, data);
        ReadExtend(Contents(), at, pos, chunk);
        pos := pos + chunk;
        absOffset := absOffset + chunk;
      }
      ok := pos == size;
    }

    /** Reads the next `chunk` bytes, all from one file. */
    method ReadChunk(fi: nat, absOffset: nat, chunk: nat, data: bytes) returns (data': bytes)
      requires Valid() && fi < |files| && files[fi].startOffset <= absOffset
      requires absOffset + chunk <= files[fi].startOffset + files[fi].length
      ensures absOffset + chunk <= |Contents()| && data' == data + Visible(Contents(), absOffset, chunk)
    {
      NextFile(files, fi);
      var within := absOffset - files[fi].startOffset;
      FileSlice(files, fi, within, chunk);
      data' := data + files[fi].data[within..within + chunk];
    }
  }
}
