/** Loading a torrent file: its fields, and the bytes whose hash identifies the torrent. */
module TorrentFiles {
  import opened Bytes
  import opened Bencode
  import opened InfoDict
  import BencodeLaws
  import Torrents

  datatype LoadError =
    | Malformed | RootNotDictionary | MissingInfo | MissingPieceLength | MissingPieces | MissingName
    | EmptyFiles | EntryNotDictionary | MissingFileLength | BadPathComponent | MissingPath | MissingLength
    | Invalid(error: Torrents.ValidationError)

  datatype Result<+T> = Good(value: T) | Bad(error: LoadError)

  /** What loading yields: the torrent, and the bytes of its info dictionary. */
  datatype Loaded = Loaded(torrent: Torrents.TorrentInfo, infoBytes: string)

  /** A value that the parser has produced fits 64 bits. */
  function Clip(n: int): int64 {
    Min(Max(n, -INT64_MAX - 1), INT64_MAX)
  }

  /** The path components joined by slashes, each a string and not empty. */
  function PathText(path: seq<Value>): Result<string> {
    if path == [] then Good("") else
    var init, last := PathText(path[..|path| - 1]), path[|path| - 1];
    if init.Bad? then init
    else if !last.Str? || last.s == "" then Bad(BadPathComponent)
    else Good(init.value + (if |path| > 1 then "/" else "") + last.s)
  }

  function FileOf(v: Value): Result<Torrents.FileEntry> {
    if !v.Dict? then Bad(EntryNotDictionary) else
    var length, path := GetInt(v.entries, "length"), Lookup(v.entries, "path");
    if length.None? then Bad(MissingFileLength)
    else if path.None? || !path.value.List? || path.value.items == [] then Bad(MissingPath) else
    match PathText(path.value.items)
    case Bad(e) => Bad(e)
    case Good(text) => Good(Torrents.FileEntry(text, Clip(length.value)))
  }

  function FilesOf(files: seq<Value>): Result<seq<Torrents.FileEntry>> {
    if files == [] then Good([]) else
    var init := FilesOf(files[..|files| - 1]);
    if init.Bad? then init else
    match FileOf(files[|files| - 1])
    case Bad(e) => Bad(e)
    case Good(f) => Good(init.value + [f])
  }

  /** The files of an info dictionary that lists them. */
  function ListedFiles(info: seq<Entry>): Option<seq<Value>> {
    match Lookup(info, "files")
    case Some(List(files)) => Some(files)
    case _ => None
  }

  /** The entry of a file: a dictionary with a length and a path. */
  ghost predicate DescribesFile(v: Value, f: Torrents.FileEntry) {
    && v.Dict? && Lookup(v.entries, "length").Some? && Lookup(v.entries, "path").Some?
    && Lookup(v.entries, "length").value.Int? && f.length == Clip(Lookup(v.entries, "length").value.n)
    && var path := Lookup(v.entries, "path").value;
       path.List? && path.items != [] && PathText(path.items) == Good(f.path)
  }

  /**
    The info dictionary has what a torrent needs, and `t` is what it says: piece length, hashes and name, and a
    non-empty list of files or, without a list, a length.
   */
  ghost predicate Describes(info: seq<Entry>, t: Torrents.TorrentInfo) {
    && GetInt(info, "piece length").Some? && t.pieceLength == Clip(GetInt(info, "piece length").value)
    && GetString(info, "pieces").Some? && t.pieces == Octets(GetString(info, "pieces").value)
    && GetString(info, "name") == Some(t.name)
    && match ListedFiles(info)
       case Some(files) =>
         && t.fileLength == 0 && |t.files| == |files| > 0
         && forall i | 0 <= i < |files| :: DescribesFile(files[i], t.files[i])
       case None => t.files == [] && GetInt(info, "length").Some? && t.fileLength == Clip(GetInt(info, "length").value)
  }

  ghost predicate Describable(v: Value) {
    exists f :: DescribesFile(v, f)
  }

  /** The first check that the entry of a file fails. */
  ghost predicate RefusesFile(v: Value, e: LoadError) {
    if !v.Dict? then e == EntryNotDictionary
    else if GetInt(v.entries, "length").None? then e == MissingFileLength
    else
      match Lookup(v.entries, "path")
      case Some(List(path)) =>
        if path == [] then e == MissingPath
        else e == BadPathComponent && exists k :: 0 <= k < |path| && (!path[k].Str? || path[k].s == "")
      case _ => e == MissingPath
  }

  /** The entry of file `i` is the first bad one, and `e` is what is wrong with it. */
  ghost predicate BadFile(files: seq<Value>, i: nat, e: LoadError)
    requires i < |files|
  {
    RefusesFile(files[i], e) && forall j | 0 <= j < i :: Describable(files[j])
  }

  /** The info dictionary has every field looked for before the one that `e` reports, and fails there. */
  ghost predicate Refuses(info: seq<Entry>, e: LoadError) {
    var pieceLength, pieces := GetInt(info, "piece length").Some?, GetString(info, "pieces").Some?;
    var name, files := GetString(info, "name").Some?, ListedFiles(info);
    match e
    case MissingPieceLength => !pieceLength
    case MissingPieces => pieceLength && !pieces
    case MissingName => pieceLength && pieces && !name
    case EmptyFiles => pieceLength && pieces && name && files == Some([])
    case MissingLength => pieceLength && pieces && name && files.None? && GetInt(info, "length").None?
    case Malformed => false
    case RootNotDictionary => false
    case MissingInfo => false
    case Invalid(_) => false
    case _ =>
      pieceLength && pieces && name && files.Some? && exists i :: 0 <= i < |files.value| && BadFile(files.value, i, e)
  }

  /** A path is refused when a component is not a string or is empty. */
  lemma {:induction false} PathRefused(path: seq<Value>)
    ensures PathText(path).Bad? <==> exists k :: 0 <= k < |path| && (!path[k].Str? || path[k].s == "")
    ensures PathText(path).Bad? ==> PathText(path).error == BadPathComponent
    decreases |path|
  {
    if path != [] {
      var init := path[..|path| - 1];
      PathRefused(init);
      assert forall k | 0 <= k < |init| :: init[k] == path[k];
    }
  }

  lemma FileRefused(v: Value, e: LoadError)
    ensures FileOf(v) == Bad(e) <==> RefusesFile(v, e)
  {
    if v.Dict? && Lookup(v.entries, "path").Some? && Lookup(v.entries, "path").value.List? {
      PathRefused(Lookup(v.entries, "path").value.items);
    }
  }

  lemma FileDescribed(v: Value, f: Torrents.FileEntry)
    ensures DescribesFile(v, f) <==> FileOf(v) == Good(f)
  {
  }

  /** The list of files is read when every entry describes a file. */
  lemma {:induction false} FilesDescribed(files: seq<Value>, entries: seq<Torrents.FileEntry>)
    ensures FilesOf(files) == Good(entries)
            <==> |entries| == |files| && forall i | 0 <= i < |files| :: DescribesFile(files[i], entries[i])
    decreases |files|
  {
    if files != [] {
      var n := |files| - 1;
      if |entries| == |files| {
        FilesDescribed(files[..n], entries[..n]);
        FileDescribed(files[n], entries[n]);
        assert entries == entries[..n] + [entries[n]];
      }
      if FilesOf(files).Good? {
        FilesDescribed(files[..n], FilesOf(files[..n]).value);
      }
    }
  }

  /** The list of files is refused with the error of the first bad entry. */
  lemma {:induction false} FilesRefused(files: seq<Value>)
    requires FilesOf(files).Bad?
    ensures exists i :: 0 <= i < |files| && BadFile(files, i, FilesOf(files).error)
    decreases |files|
  {
    var n := |files| - 1;
    var init := files[..n];
    if FilesOf(init).Bad? {
      FilesRefused(init);
      var i :| 0 <= i < n && BadFile(init, i, FilesOf(init).error);
      LongerList(files, n, i, FilesOf(init).error);
    } else {
      FilesDescribed(init, FilesOf(init).value);
      AllDescribable(files, n, FilesOf(init).value);
      FileRefused(files[n], FilesOf(files).error);
      assert BadFile(files, n, FilesOf(files).error);
    }
  }

  lemma LongerList(files: seq<Value>, n: nat, i: nat, e: LoadError)
    requires i < n <= |files| && BadFile(files[..n], i, e)
    ensures BadFile(files, i, e)
  {
    forall j | 0 <= j < i
      ensures Describable(files[j])
    {
      assert Describable(files[..n][j]);
    }
  }

  lemma AllDescribable(files: seq<Value>, n: nat, entries: seq<Torrents.FileEntry>)
    requires n <= |files| && |entries| == n && forall j | 0 <= j < n :: DescribesFile(files[..n][j], entries[j])
    ensures forall j | 0 <= j < n :: Describable(files[j])
  {
    forall j | 0 <= j < n
      ensures Describable(files[j])
    {
      assert DescribesFile(files[..n][j], entries[j]);
    }
  }

  /** An info dictionary describes at most one torrent. */
  lemma DescribedOnce(info: seq<Entry>, t: Torrents.TorrentInfo, t': Torrents.TorrentInfo)
    requires Describes(info, t) && Describes(info, t')
    ensures t == t'
  {
    if ListedFiles(info).Some? {
      FilesDescribed(ListedFiles(info).value, t.files);
      FilesDescribed(ListedFiles(info).value, t'.files);
    }
  }

  /** What is refused describes no torrent, and there is one error. */
  lemma RefusedIsNotDescribed(info: seq<Entry>, e: LoadError, e': LoadError)
    requires Refuses(info, e)
    ensures forall t :: !Describes(info, t)
    ensures Refuses(info, e') ==> e == e'
  {
    if ListedFiles(info).Some? {
      var files := ListedFiles(info).value;
      forall i, j, d, d' | 0 <= i < |files| && 0 <= j < |files| && BadFile(files, i, d) && BadFile(files, j, d')
        ensures i == j && d == d'
      {
        FirstBad(files, i, d, j, d');
      }
      forall i, f | 0 <= i < |files| && BadFile(files, i, e)
        ensures !DescribesFile(files[i], f)
      {
        NotBoth(files[i], f, e);
      }
    }
  }

  lemma NotBoth(v: Value, f: Torrents.FileEntry, e: LoadError)
    ensures !(DescribesFile(v, f) && RefusesFile(v, e))
  {
    FileDescribed(v, f);
    FileRefused(v, e);
  }

  lemma OneError(v: Value, d: LoadError, d': LoadError)
    requires RefusesFile(v, d) && RefusesFile(v, d')
    ensures d == d'
  {
    FileRefused(v, d);
    FileRefused(v, d');
  }

  lemma FirstBad(files: seq<Value>, i: nat, d: LoadError, j: nat, d': LoadError)
    requires i < |files| && j < |files| && BadFile(files, i, d) && BadFile(files, j, d')
    ensures i == j && d == d'
  {
    forall k, f, e | 0 <= k < |files| && DescribesFile(files[k], f)
      ensures !RefusesFile(files[k], e)
    {
      NotBoth(files[k], f, e);
    }
    if i == j {
      OneError(files[i], d, d');
    }
  }

  /** The info dictionary of a file. */
  function InfoOf(content: string): Result<Value> {
    match Parse(content)
    case Err(_) => Bad(Malformed)
    case Ok(root, _) =>
      if !root.Dict? then Bad(RootNotDictionary) else
      match Lookup(root.entries, "info")
      case Some(Dict(entries)) => Good(Dict(entries))
      case _ => Bad(MissingInfo)
  }

  /** The loader takes the file, for this torrent. */
  ghost predicate Accepts(content: string, t: Torrents.TorrentInfo) {
    && InfoOf(content).Good? && InfoOf(content).value.Dict?
    && Describes(InfoOf(content).value.entries, t)
    && Torrents.Valid(t)
  }

  /** The first check that the file fails: of its form, of its info dictionary, or of the torrent described. */
  ghost predicate Rejects(content: string, e: LoadError) {
    match e
    case Malformed => Parse(content).Err?
    case RootNotDictionary => Parse(content).Ok? && !Parse(content).value.Dict?
    case MissingInfo =>
      && Parse(content).Ok? && Parse(content).value.Dict?
      && (Lookup(Parse(content).value.entries, "info").Some? ==>
            !Lookup(Parse(content).value.entries, "info").value.Dict?)
    case Invalid(error) =>
      && InfoOf(content).Good? && InfoOf(content).value.Dict?
      && exists t :: Describes(InfoOf(content).value.entries, t) && Torrents.Fails(t, error)
    case _ => InfoOf(content).Good? && InfoOf(content).value.Dict? && Refuses(InfoOf(content).value.entries, e)
  }

  // ----- Paths

  /** The parts of a text between its slashes. */
  function Split(text: string): (parts: seq<string>)
    ensures parts != []
  {
    if text == "" then [""] else
    Longer(Split(text[..|text| - 1]), text[|text| - 1])
  }

  function SplitAll(texts: seq<string>): seq<string> {
    if texts == [] then [] else SplitAll(texts[..|texts| - 1]) + Split(texts[|texts| - 1])
  }

  /** The components that are strings. */
  function Components(path: seq<Value>): (texts: seq<string>)
    ensures |texts| == |path|
  {
    seq(|path|, i requires 0 <= i < |path| => if path[i].Str? then path[i].s else "")
  }

  /** The parts with `c` at the end of the text. */
  function Longer(parts: seq<string>, c: char): (longer: seq<string>)
    requires parts != []
    ensures longer != []
  {
    if c == '/' then parts + [""] else parts[..|parts| - 1] + [parts[|parts| - 1] + [c]]
  }

  lemma SplitLast(text: string, c: char)
    ensures Split(text + [c]) == Longer(Split(text), c)
  {
    assert (text + [c])[..|text|] == text;
  }

  lemma LongerRight(a: seq<string>, b: seq<string>, c: char)
    requires b != []
    ensures Longer(a + b, c) == a + Longer(b, c)
  {
  }

  /** One more character behind the slash. */
  lemma JoinedLast(a: string, init: string, last: char)
    requires Split(a + "/" + init) == Split(a) + Split(init)
    ensures Split(a + "/" + (init + [last])) == Split(a) + Split(init + [last])
  {
    SplitLast(a + "/" + init, last);
    SplitLast(init, last);
    LongerRight(Split(a), Split(init), last);
    Associative(a + "/", init, [last]);
  }

  lemma Associative(a: string, b: string, c: string)
    ensures a + (b + c) == a + b + c
  {
  }

  lemma {:induction false} SplitJoined(a: string, b: string)
    ensures Split(a + "/" + b) == Split(a) + Split(b)
    decreases |b|
  {
    if b == "" {
      assert a + "/" + b == a + ['/'];
      SplitLast(a, '/');
    } else {
      SplitJoined(a, b[..|b| - 1]);
      JoinedLast(a, b[..|b| - 1], b[|b| - 1]);
      assert b == b[..|b| - 1] + [b[|b| - 1]];
    }
  }

  lemma {:induction false} SplitOne(text: string)
    ensures |Split(text)| == 1 <==> '/' !in text
    ensures |Split(text)| == 1 ==> Split(text) == [text]
  {
    if text != "" {
      var init, last := text[..|text| - 1], text[|text| - 1];
      SplitOne(init);
      assert text == init + [last];
    }
  }

  /** Splitting each text leaves them all alone exactly when none has a slash. */
  lemma {:induction false} SplitEach(texts: seq<string>)
    ensures |SplitAll(texts)| >= |texts|
    ensures |SplitAll(texts)| == |texts| <==> forall k | 0 <= k < |texts| :: '/' !in texts[k]
    ensures |SplitAll(texts)| == |texts| ==> SplitAll(texts) == texts
  {
    if texts != [] {
      var n := |texts| - 1;
      SplitEach(texts[..n]);
      SplitOne(texts[n]);
      assert forall k | 0 <= k < n :: texts[..n][k] == texts[k];
      assert texts == texts[..n] + [texts[n]];
    }
  }

  lemma {:induction false} PathSplits(path: seq<Value>)
    requires path != [] && PathText(path).Good?
    ensures Split(PathText(path).value) == SplitAll(Components(path))
    decreases |path|
  {
    var n := |path| - 1;
    var init, last := path[..n], path[n];
    assert Components(path)[..n] == Components(init);
    if n == 0 {
      assert PathText(path).value == last.s;
    } else {
      PathSplits(init);
      SplitJoined(PathText(init).value, last.s);
    }
  }

  /** A path splits at its slashes into the components it was made of exactly when no component has a slash itself. */
  lemma PathSplitsExactlyWhen(path: seq<Value>)
    requires path != [] && PathText(path).Good?
    ensures Split(PathText(path).value) == Components(path)
            <==> forall k | 0 <= k < |path| :: '/' !in Components(path)[k]
  {
    PathSplits(path);
    SplitEach(Components(path));
  }

  /** The components of the path of a file's entry. */
  function ComponentsOf(v: Value): seq<string> {
    if !v.Dict? then [] else
    match Lookup(v.entries, "path")
    case Some(List(path)) => Components(path)
    case _ => []
  }

  /**
    The files of a torrent that is loaded are those listed, in order, and each file's path splits into the
    components listed for it exactly when none of them has a slash itself.
   */
  lemma LoadedPathsSplit(content: string, t: Torrents.TorrentInfo, i: nat)
    requires Accepts(content, t) && i < |t.files|
    ensures var files := ListedFiles(InfoOf(content).value.entries);
            && files.Some? && |files.value| == |t.files|
            && (Split(t.files[i].path) == ComponentsOf(files.value[i])
                <==> forall k | 0 <= k < |ComponentsOf(files.value[i])| :: '/' !in ComponentsOf(files.value[i])[k])
  {
    var files := ListedFiles(InfoOf(content).value.entries).value;
    assert DescribesFile(files[i], t.files[i]);
    PathSplitsExactlyWhen(Lookup(files[i].entries, "path").value.items);
  }

  // ----- Numbers

  lemma {:induction false} LookedUpIsValid(entries: seq<Entry>, key: string)
    requires BencodeLaws.ValidEntries(entries) && Lookup(entries, key).Some?
    ensures BencodeLaws.Valid(Lookup(entries, key).value)
  {
    if entries[0].key != key {
      LookedUpIsValid(entries[1..], key);
    }
  }

  lemma {:induction false} ItemIsValid(items: seq<Value>, i: nat)
    requires BencodeLaws.ValidItems(items) && i < |items|
    ensures BencodeLaws.Valid(items[i])
  {
    if i > 0 {
      ItemIsValid(items[1..], i - 1);
    }
  }

  lemma InfoIsValid(content: string)
    requires InfoOf(content).Good? && InfoOf(content).value.Dict?
    ensures BencodeLaws.Valid(InfoOf(content).value)
  {
    BencodeLaws.ParsedIsValid(content);
    LookedUpIsValid(Parse(content).value.entries, "info");
  }

  /** The numbers of a loaded torrent are those in the file: the piece length, and the length or the files' lengths. */
  lemma LoadedNumbersAreExact(content: string, t: Torrents.TorrentInfo)
    requires Accepts(content, t)
    ensures var info := InfoOf(content).value.entries;
            && GetInt(info, "piece length") == Some(t.pieceLength)
            && (ListedFiles(info).None? ==> GetInt(info, "length") == Some(t.fileLength))
            && forall i | 0 <= i < |t.files| ::
                 ListedFiles(info).Some? && i < |ListedFiles(info).value| && ListedFiles(info).value[i].Dict?
                 && GetInt(ListedFiles(info).value[i].entries, "length") == Some(t.files[i].length)
  {
    InfoIsValid(content);
    var info := InfoOf(content).value.entries;
    LookedUpIsValid(info, "piece length");
    if ListedFiles(info).None? {
      LookedUpIsValid(info, "length");
    } else {
      LookedUpIsValid(info, "files");
      forall i | 0 <= i < |t.files|
        ensures ListedFiles(info).value[i].Dict?
        ensures GetInt(ListedFiles(info).value[i].entries, "length") == Some(t.files[i].length)
      {
        ItemIsValid(ListedFiles(info).value, i);
        assert DescribesFile(ListedFiles(info).value[i], t.files[i]);
        LookedUpIsValid(ListedFiles(info).value[i].entries, "length");
      }
    }
  }

  // ----- Reading

  method ReadPath(path: seq<Value>) returns (r: Result<string>)
    ensures r == PathText(path)
    ensures r.Good? && path != [] ==>
              (Split(r.value) == Components(path) <==> forall k | 0 <= k < |path| :: '/' !in Components(path)[k])
  {
    var text := "";
    for i := 0 to |path|
      invariant PathText(path[..i]) == Good(text)
    {
      assert path[..i + 1][..i] == path[..i];
      assert text + "" == text;
      if i > 0 {
        text := text + "/";
      }
      if !path[i].Str? || path[i].s == "" {
        BadPathStays(path, i + 1);
        return Bad(BadPathComponent);
      }
      text := text + path[i].s;
    }
    assert path[..|path|] == path;
    if path != [] {
      PathSplitsExactlyWhen(path);
    }
    r := Good(text);
  }

  lemma {:induction false} BadPathStays(path: seq<Value>, n: nat)
    requires n <= |path| && PathText(path[..n]).Bad?
    ensures PathText(path) == PathText(path[..n])
    decreases |path|
  {
    if n < |path| {
      assert path[..|path| - 1][..n] == path[..n];
      BadPathStays(path[..|path| - 1], n);
    } else {
      assert path[..n] == path;
    }
  }

  method ReadFiles(files: seq<Value>) returns (r: Result<seq<Torrents.FileEntry>>)
    ensures r == FilesOf(files)
  {
    var entries: seq<Torrents.FileEntry> := [];
    for i := 0 to |files|
      invariant FilesOf(files[..i]) == Good(entries)
    {
      assert files[..i + 1][..i] == files[..i];
      var file := ReadFile(files[i]);
      if file.Bad? {
        BadFileStays(files, i + 1);
        return Bad(file.error);
      }
      entries := entries + [file.value];
    }
    assert files[..|files|] == files;
    r := Good(entries);
  }

  lemma {:induction false} BadFileStays(files: seq<Value>, n: nat)
    requires n <= |files| && FilesOf(files[..n]).Bad?
    ensures FilesOf(files) == FilesOf(files[..n])
    decreases |files|
  {
    if n < |files| {
      assert files[..|files| - 1][..n] == files[..n];
      BadFileStays(files[..|files| - 1], n);
    } else {
      assert files[..n] == files;
    }
  }

  method ReadFile(v: Value) returns (r: Result<Torrents.FileEntry>)
    ensures r == FileOf(v)
  {
    if !v.Dict? {
      return Bad(EntryNotDictionary);
    }
    var length, path := GetInt(v.entries, "length"), Lookup(v.entries, "path");
    if length.None? {
      return Bad(MissingFileLength);
    }
    if path.None? || !path.value.List? || path.value.items == [] {
      return Bad(MissingPath);
    }
    var text := ReadPath(path.value.items);
    r := if text.Bad? then Bad(text.error) else Good(Torrents.FileEntry(text.value, Clip(length.value)));
  }

  method ReadTorrent(info: seq<Entry>) returns (r: Result<Torrents.TorrentInfo>)
    ensures r.Good? ==> Describes(info, r.value)
    ensures r.Bad? ==> Refuses(info, r.error)
  {
    var pieceLength, pieces, name := GetInt(info, "piece length"), GetString(info, "pieces"), GetString(info, "name");
    if pieceLength.None? {
      return Bad(MissingPieceLength);
    }
    if pieces.None? {
      return Bad(MissingPieces);
    }
    if name.None? {
      return Bad(MissingName);
    }
    var t := Torrents.TorrentInfo(name.value, Clip(pieceLength.value), Octets(pieces.value), 0, []);
    var files, length := Lookup(info, "files"), GetInt(info, "length");
    if files.Some? && files.value.List? {
      if files.value.items == [] {
        return Bad(EmptyFiles);
      }
      var entries := ReadFiles(files.value.items);
      if entries.Bad? {
        FilesRefused(files.value.items);
        return Bad(entries.error);
      }
      FilesDescribed(files.value.items, entries.value);
      return Good(t.(files := entries.value));
    }
    r := if length.None? then Bad(MissingLength) else Good(t.(fileLength := Clip(length.value)));
  }

  /**
    A file is loaded when it describes a valid torrent, with what the extraction returns for it, and otherwise
    refused with the first check that it fails.
   */
  method LoadTorrent(content: string) returns (r: Result<Loaded>)
    ensures r.Good? ==>
        Accepts(content, r.value.torrent) && IsExtract(content, InfoOf(content).value, r.value.infoBytes)
    ensures r.Bad? ==> Rejects(content, r.error)
  {
    assert content[0..] == content;
    var root := ParseImpl(content, 0);
    if root.Err? {
      return Bad(Malformed);
    }
    if !root.value.Dict? {
      return Bad(RootNotDictionary);
    }
    var info := Lookup(root.value.entries, "info");
    if info.None? || !info.value.Dict? {
      return Bad(MissingInfo);
    }
    var t := ReadTorrent(info.value.entries);
    if t.Bad? {
      return Bad(t.error);
    }
    var error := Torrents.ValidateTorrentInfo(t.value);
    if error.Some? {
      return Bad(Invalid(error.value));
    }
    var infoBytes := ExtractInfoDictBytes(content, info.value);
    r := Good(Loaded(t.value, infoBytes));
  }

  /** A file that is rejected describes no valid torrent. */
  lemma RejectedIsNotAccepted(content: string, e: LoadError, t: Torrents.TorrentInfo)
    requires Rejects(content, e)
    ensures !Accepts(content, t)
  {
    if Accepts(content, t) {
      var info := InfoOf(content).value.entries;
      if e.Invalid? {
        var t' :| Describes(info, t') && Torrents.Fails(t', e.error);
        DescribedOnce(info, t, t');
        Torrents.FailedIsNotValid(t, e.error);
      } else if Refuses(info, e) {
        RefusedIsNotDescribed(info, e, e);
      }
    }
  }

  // ----- Where the info dictionary of a file stands

  /** The position of the value last assigned to `key` by the entries at `at`, or what was found before. */
  function ValuePlace(content: string, key: string, at: nat, found: Option<nat>): Option<nat>
    requires at <= |content|
    decreases |content| - at
  {
    var s := content[at..];
    if s == "" || s[0] == 'e' then found else
    match ParseEntry(s)
    case Err(_) => found
    case Ok(entry, n) =>
      ValuePlace(content, key, at + n, if entry.key == key then Some(at + Parse(s).used) else found)
  }

  /** The position of the info dictionary in a file. */
  function InfoPlace(content: string): Option<nat> {
    if content == "" then None else ValuePlace(content, "info", 1, None)
  }

  ghost predicate Places(content: string, place: Option<nat>, val: Option<Value>) {
    && place.Some? == val.Some?
    && (place.Some? ==>
          && place.value <= |content|
          && Parse(content[place.value..]).Ok? && Parse(content[place.value..]).value == val.value)
  }

  /** A walk over entries: where it is, the entries so far, and where the value of the key was found. */
  datatype Walk = Walk(at: nat, acc: seq<Entry>, found: Option<nat>)

  ghost predicate Finds(content: string, key: string, w: Walk) {
    w.at <= |content| && Sorted(w.acc) && Places(content, w.found, Lookup(w.acc, key))
  }

  /** What the rest of the walk yields. */
  ghost predicate Ends(content: string, key: string, w: Walk, place: Option<nat>, entries: seq<Entry>) {
    && w.at <= |content|
    && ParseEntries(content[w.at..], w.acc).Ok? && ParseEntries(content[w.at..], w.acc).value == entries
    && place == ValuePlace(content, key, w.at, w.found)
  }

  predicate Going(content: string, w: Walk) {
    w.at < |content| && content[w.at] != 'e' && ParseEntry(content[w.at..]).Ok?
  }

  function Next(content: string, key: string, w: Walk): (w': Walk)
    requires Going(content, w)
    ensures w.at < w'.at <= |content|
  {
    var Ok(entry, n) := ParseEntry(content[w.at..]);
    Walk(w.at + n, Insert(w.acc, entry.key, entry.val),
         if entry.key == key then Some(w.at + Parse(content[w.at..]).used) else w.found)
  }

  lemma {:induction false} ValuePlaced(content: string, key: string, w: Walk, place: Option<nat>, entries: seq<Entry>)
    requires Finds(content, key, w) && Ends(content, key, w, place, entries)
    ensures Places(content, place, Lookup(entries, key))
    decreases |content| - w.at
  {
    WalkEnds(content, key, w, place, entries);
    if Going(content, w) {
      NextEnds(content, key, w, place, entries);
      NextFinds(content, key, w);
      ValuePlaced(content, key, Next(content, key, w), place, entries);
    }
  }

  lemma WalkEnds(content: string, key: string, w: Walk, place: Option<nat>, entries: seq<Entry>)
    requires Finds(content, key, w) && Ends(content, key, w, place, entries)
    ensures !Going(content, w) ==> Places(content, place, Lookup(entries, key))
  {
  }

  lemma NextEnds(content: string, key: string, w: Walk, place: Option<nat>, entries: seq<Entry>)
    requires Ends(content, key, w, place, entries) && Going(content, w)
    ensures Ends(content, key, Next(content, key, w), place, entries)
  {
    var Ok(entry, n) := ParseEntry(content[w.at..]);
    assert content[w.at..][n..] == content[w.at + n..];
  }

  /** One more entry: its value is the last one assigned to its key. */
  lemma NextFinds(content: string, key: string, w: Walk)
    requires Finds(content, key, w) && Going(content, w)
    ensures Finds(content, key, Next(content, key, w))
  {
    var s := content[w.at..];
    var Ok(entry, _) := ParseEntry(s);
    assert s[Parse(s).used..] == content[w.at + Parse(s).used..];
    BencodeLaws.InsertLookup(w.acc, entry.key, entry.val, key);
    BencodeLaws.InsertSorted(w.acc, entry.key, entry.val);
  }

  /** Every accepted file shows its info dictionary at that position. */
  lemma InfoPlaced(content: string)
    requires InfoOf(content).Good?
    ensures InfoPlace(content).Some? && InfoPlace(content).value <= |content|
    ensures var r := Parse(content[InfoPlace(content).value..]); r.Ok? && r.value == InfoOf(content).value
  {
    var entries := ParseEntries(content[1..], []).value;
    ValuePlaced(content, "info", Walk(1, [], None), InfoPlace(content), entries);
  }

  /** The bytes of the info dictionary as the file has them. */
  function OriginalInfo(content: string): string
    requires InfoOf(content).Good?
  {
    InfoPlaced(content);
    var v := InfoPlace(content).value;
    content[v..][..Parse(content[v..]).used]
  }

  /**
    When the loader hashes the original bytes of the info dictionary: for every file, exactly when the
    dictionary's own key is the first acceptable one, or an acceptable key elsewhere comes first and is followed
    by the same bytes, or there is no acceptable key and the bytes are canonical.
   */
  lemma LoadedBytesAreOriginalExactlyWhen(content: string, r: string)
    requires InfoOf(content).Good? && IsExtract(content, InfoOf(content).value, r)
    ensures InfoPlace(content).Some?
    ensures var v, original := InfoPlace(content).value, OriginalInfo(content);
            r == original <==>
              || (KeyAccepted(content, v) && forall j: nat | j + |KEY| < v :: !Candidate(content, j))
              || (exists j: nat :: j + |KEY| != v && FirstCandidate(content, j) && Span(content, j) == original)
              || ((forall j: nat :: !Candidate(content, j)) && Encode(InfoOf(content).value) == original)
  {
    InfoPlaced(content);
    var v := InfoPlace(content).value;
    OriginalBytesExactlyWhen(content, v, InfoOf(content).value, Parse(content[v..]).used, r);
  }
}
