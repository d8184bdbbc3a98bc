/** The boot archive: make_initrd.c lays files out in an image, src/initrd.c turns the image back into a tree. */
module Archive {
  import opened Memory
  import opened Paths

  const SLOTS := 64
  const NAME_BYTES := 64
  const RECORD_BYTES := 76
  const HEADER_BYTES := 4 + SLOTS * RECORD_BYTES
  const RECORD_MAGIC := 0xBF
  const MAX_PATH_COMPONENTS := 32

  /** One host file and the path it gets in the image. */
  datatype HostFile = HostFile(path: string, readable: bool, bytes: seq<Byte>)

  /** One header slot; the name field is NUL-padded to its 64 bytes. */
  datatype Record = Record(magic: nat, name: string, offset: nat, length: nat)

  function Blanks(n: nat): (s: string)
    ensures |s| == n && forall i :: 0 <= i < n ==> s[i] == '\0'
  {
    seq(n, _ => '\0')
  }

  function EmptyRecord(): Record {
    Record(0, Blanks(NAME_BYTES), 0, 0)
  }

  /** The image: the file count, the header slots, and the bytes behind them. */
  datatype Image = Image(count: nat, records: seq<Record>, data: seq<Byte>)

  // ---------------------------------------------------------------- building

  /** strcpy into a zeroed 64-byte field. */
  function Padded(name: string): (field: string)
    requires |name| < NAME_BYTES
    ensures |field| == NAME_BYTES
  {
    name + Blanks(NAME_BYTES - |name|)
  }

  /** Where file i starts in the image. */
  function OffsetOf(files: seq<HostFile>, i: nat): nat
    requires i <= |files|
  {
    if i == 0 then HEADER_BYTES else OffsetOf(files, i - 1) + |files[i - 1].bytes|
  }

  function DataOf(files: seq<HostFile>): seq<Byte> {
    if files == [] then [] else DataOf(files[..|files| - 1]) + files[|files| - 1].bytes
  }

  /** A C string: no NUL inside. */
  predicate IsText(s: string) {
    forall i :: 0 <= i < |s| ==> s[i] != '\0'
  }

  /** What the builder accepts: up to 64 files with different good paths of at most 63 bytes, 32-bit offsets
      throughout. */
  ghost predicate Accepts(files: seq<HostFile>) {
    && 1 <= |files| <= SLOTS
    && (forall i :: 0 <= i < |files| ==> |files[i].path| < NAME_BYTES && Good(files[i].path) && files[i].readable)
    && (forall i, j :: 0 <= i < j < |files| ==> files[i].path != files[j].path)
    && OffsetOf(files, |files|) <= U32_MAX
  }

  /** valid_image_path: the cursor walks the text once. */
  method ValidImagePath(path: string) returns (ok: bool)
    ensures ok <==> Good(path)
  {
    hide Good, NameLength, IsDots;
    if path == "" || path[0] == '/' { LeadingSlash(path); return false; }
    if path[|path| - 1] == '/' { TrailingSlash(path); return false; }
    var component, cursor := 0, 0;
    assert path[0..] == path;
    while true
      invariant 0 <= component <= cursor <= |path| && (Good(path) <==> Good(path[component..]))
      invariant forall k :: component <= k < cursor ==> path[k] != '/'
      decreases |path| - cursor
    {
      if cursor < |path| && path[cursor] != '/' {
        cursor := cursor + 1;
        continue;
      }
      NextGood(path, component, cursor);
      if cursor == component || IsDots(path[component..cursor]) { return false; }
      if cursor == |path| { return true; }
      component := cursor + 1;
      cursor := cursor + 1;
    }
  }

  lemma NextGood(path: string, c: nat, e: nat)
    requires c <= e <= |path| && (forall k :: c <= k < e ==> path[k] != '/') && (e == |path| || path[e] == '/')
    ensures Good(path[c..]) <==> e > c && !IsDots(path[c..e]) && (e == |path| || Good(path[e + 1..]))
  {
    var rest := path[c..];
    NameLengthIs(path[c..e], path[e..]);
    assert rest == path[c..e] + path[e..];
    assert rest[..e - c] == path[c..e];
    if e < |path| { assert rest[e - c + 1..] == path[e + 1..]; }
  }

  lemma LeadingSlash(path: string)
    requires path == "" || path[0] == '/'
    ensures !Good(path)
  {
  }

  lemma {:induction false} TrailingSlash(path: string)
    requires path != "" && path[|path| - 1] == '/'
    ensures !Good(path)
    decreases |path|
  {
    var n := NameLength(path);
    if n < |path| - 1 { TrailingSlash(path[n + 1..]); }
  }

  /** The strcmp loop over the headers already filled in. */
  method IsDuplicate(files: seq<HostFile>, i: nat) returns (duplicate: bool)
    requires i < |files|
    ensures duplicate <==> exists j :: 0 <= j < i && files[j].path == files[i].path
  {
    var previous := 0;
    while previous < i
      invariant previous <= i && forall j :: 0 <= j < previous ==> files[j].path != files[i].path
    {
      if files[previous].path == files[i].path { return true; }
      previous := previous + 1;
    }
    return false;
  }

  function RecordOf(files: seq<HostFile>, i: nat): Record
    requires i < |files| && |files[i].path| < NAME_BYTES
  {
    Record(RECORD_MAGIC, Padded(files[i].path), OffsetOf(files, i), |files[i].bytes|)
  }

  ghost predicate RecordsAre(records: seq<Record>, files: seq<HostFile>, n: nat) {
    && |records| == SLOTS && n <= |files| && n <= SLOTS
    && (forall i :: 0 <= i < n ==> |files[i].path| < NAME_BYTES && records[i] == RecordOf(files, i))
    && (forall i :: n <= i < SLOTS ==> records[i] == EmptyRecord())
  }

  /** The first i files pass every check of the layout loop. */
  ghost predicate AcceptsTo(files: seq<HostFile>, i: nat) {
    && i <= |files|
    && (forall j :: 0 <= j < i ==> |files[j].path| < NAME_BYTES && Good(files[j].path) && files[j].readable)
    && (forall j, k :: 0 <= j < k < i ==> files[j].path != files[k].path)
    && OffsetOf(files, i) <= U32_MAX
  }

  /** The loop body's checks on file i, in order. */
  method CheckFile(files: seq<HostFile>, i: nat, nextOffset: nat) returns (ok: bool)
    requires i < |files| && AcceptsTo(files, i) && nextOffset == OffsetOf(files, i)
    ensures ok <==> AcceptsTo(files, i + 1)
  {
    hide Good;
    if |files[i].path| >= NAME_BYTES { return false; }
    ok := ValidImagePath(files[i].path);
    if !ok { return; }
    var duplicate := IsDuplicate(files, i);
    if duplicate || !files[i].readable { return false; }
    ok := nextOffset + |files[i].bytes| <= U32_MAX;
  }

  lemma AcceptsLess(files: seq<HostFile>, i: nat)
    requires i <= |files|
    ensures Accepts(files) ==> AcceptsTo(files, i)
    ensures 1 <= |files| <= SLOTS && AcceptsTo(files, |files|) ==> Accepts(files)
  {
    hide Good;
    OffsetsGrow(files, i, |files|);
  }

  /** The first pass of main: validate, and place every file behind the one before it. */
  method LayOut(files: seq<HostFile>) returns (ok: bool, records: seq<Record>)
    requires 1 <= |files| <= SLOTS
    ensures ok <==> Accepts(files)
    ensures ok ==> RecordsAre(records, files, |files|)
  {
    hide Good, Accepts, Padded, EmptyRecord;
    records := seq(SLOTS, _ => EmptyRecord());
    var nextOffset, i := HEADER_BYTES, 0;
    while i < |files|
      invariant i <= |files| && RecordsAre(records, files, i) && nextOffset == OffsetOf(files, i) && AcceptsTo(files, i)
    {
      AcceptsLess(files, i + 1);
      ok := CheckFile(files, i, nextOffset);
      if !ok { return; }
      records := records[i := Record(RECORD_MAGIC, Padded(files[i].path), nextOffset, |files[i].bytes|)];
      nextOffset := nextOffset + |files[i].bytes|;
      i := i + 1;
    }
    AcceptsLess(files, |files|);
    ok := true;
  }

  /** The second pass: the raw bytes, in order. */
  method CopyData(files: seq<HostFile>) returns (data: seq<Byte>)
    ensures data == DataOf(files)
  {
    data := [];
    var i := 0;
    while i < |files|
      invariant i <= |files| && data == DataOf(files[..i])
    {
      data := data + files[i].bytes;
      assert files[..i + 1][..i] == files[..i];
      i := i + 1;
    }
    assert files[..i] == files;
  }

  /** main of the builder: it succeeds exactly on the acceptable file lists. */
  method Build(files: seq<HostFile>) returns (ok: bool, image: Image)
    ensures ok <==> Accepts(files)
    ensures ok ==> image.count == |files| && RecordsAre(image.records, files, |files|) && image.data == DataOf(files)
  {
    hide AcceptsTo, RecordsAre;
    image := Image(0, [], []);
    if |files| < 1 || |files| > SLOTS { return false, image; }
    var records;
    ok, records := LayOut(files);
    if !ok { return; }
    var data := CopyData(files);
    image := Image(|files|, records, data);
  }

  lemma {:induction false} OffsetsGrow(files: seq<HostFile>, i: nat, j: nat)
    requires i <= j <= |files|
    ensures OffsetOf(files, i) <= OffsetOf(files, j)
    decreases j
  {
    if i < j { OffsetsGrow(files, i, j - 1); }
  }

  /** The bytes of file i lie in the image exactly at its recorded offset. */
  lemma {:induction false} DataAt(files: seq<HostFile>, i: nat)
    requires i < |files|
    ensures OffsetOf(files, i) >= HEADER_BYTES && OffsetOf(files, |files|) == HEADER_BYTES + |DataOf(files)|
    ensures var at := OffsetOf(files, i) - HEADER_BYTES;
            at + |files[i].bytes| <= |DataOf(files)| && DataOf(files)[at..at + |files[i].bytes|] == files[i].bytes
    decreases |files|
  {
    var rest := files[..|files| - 1];
    OffsetsPrefix(files, |files| - 1, i);
    DataLength(rest);
    OffsetsPrefix(files, |files| - 1, |files| - 1);
    if i < |files| - 1 {
      DataAt(rest, i);
      var at := OffsetOf(files, i) - HEADER_BYTES;
      assert DataOf(files)[at..at + |files[i].bytes|] == DataOf(rest)[at..at + |files[i].bytes|];
    }
  }

  lemma {:induction false} OffsetsPrefix(files: seq<HostFile>, n: nat, i: nat)
    requires i <= n <= |files|
    ensures OffsetOf(files[..n], i) == OffsetOf(files, i)
    decreases i
  {
    if i > 0 { OffsetsPrefix(files, n, i - 1); }
  }

  lemma {:induction false} DataLength(files: seq<HostFile>)
    ensures OffsetOf(files, |files|) == HEADER_BYTES + |DataOf(files)|
  {
    if files != [] {
      DataLength(files[..|files| - 1]);
      OffsetsPrefix(files, |files| - 1, |files| - 1);
    }
  }

  /** The header slot of a file, in numbers: 64 slots of 76 bytes behind the 4-byte count come before the data. */
  lemma RecordMeans(files: seq<HostFile>, i: nat)
    requires i < |files| && |files[i].path| < 64
    ensures var r := RecordOf(files, i);
            && r.magic == 0xBF && r.length == |files[i].bytes| && r.offset == 4868 + |DataOf(files[..i])|
            && |r.name| == 64 && r.name[..|files[i].path|] == files[i].path
            && forall k :: |files[i].path| <= k < 64 ==> r.name[k] == '\0'
  {
    DataLength(files[..i]);
    OffsetsPrefix(files, i, i);
  }

  lemma AcceptsMeans(files: seq<HostFile>)
    ensures Accepts(files) <==>
              && 1 <= |files| <= 64 && 4868 + |DataOf(files)| <= 0xFFFF_FFFF
              && (forall i :: 0 <= i < |files| ==> |files[i].path| <= 63 && Good(files[i].path) && files[i].readable)
              && forall i, j :: 0 <= i < j < |files| ==> files[i].path != files[j].path
  {
    hide Good;
    DataLength(files);
  }
}
