/**
 * The backend functions over the `frames` and `video` tables. The database
 * is one object whose tables are sequences of rows in insertion order;
 * every inserted document receives a fresh id, larger than every id before.
 */
module ConvexStore {
  import opened Wrappers

  // ---------------------------------------------------------------------
  // Rows
  // ---------------------------------------------------------------------

  /** The fields a frame-table row carries besides its id. */
  datatype FrameLine = FrameLine(frameNumber: int, lineNumber: int, lineContent: string)

  datatype FrameRow = FrameRow(id: nat, line: FrameLine)

  /** The arguments of `saveVideoMetadata`. */
  datatype VideoArgs = VideoArgs(
    fileName: string,
    fileId: string,
    fileSize: int,
    fileType: string,
    title: string,
    src_x_resolution: int,
    src_y_resolution: int,
    src_fps: int,
    frameNo: int)

  /** A document of the `video` table, with the fields `getVideoFiles` returns. */
  datatype VideoRecord = VideoRecord(
    docId: nat,
    id: int,
    title: string,
    fileName: string,
    fileId: string,
    fileSize: int,
    fileType: string,
    src_x_resolution: int,
    src_y_resolution: int,
    output_x_resolution: int,
    output_y_resolution: int,
    src_fps: int,
    output_fps: int,
    frameNo: Option<int>,
    duration: Option<real>,
    uploadTime: int)

  /** The output settings default to the source's. */
  predicate MirrorsSource(r: VideoRecord) {
    && r.output_x_resolution == r.src_x_resolution
    && r.output_y_resolution == r.src_y_resolution
    && r.output_fps == r.src_fps
  }

  /** The record holds every argument field unchanged. */
  predicate HoldsArgs(r: VideoRecord, args: VideoArgs) {
    && r.title == args.title
    && r.fileName == args.fileName
    && r.fileId == args.fileId
    && r.fileSize == args.fileSize
    && r.fileType == args.fileType
    && r.src_x_resolution == args.src_x_resolution
    && r.src_y_resolution == args.src_y_resolution
    && r.src_fps == args.src_fps
    && r.frameNo == Some(args.frameNo)
  }

  // ---------------------------------------------------------------------
  // The placeholder frame table
  // ---------------------------------------------------------------------

  /** The rows `createEmptyFrameTable(n)` leaves: line i is blank and belongs to frame -1. */
  function Placeholders(n: int): (lines: seq<FrameLine>)
    ensures |lines| == if n <= 0 then 0 else n
  {
    seq(if n <= 0 then 0 else n, i => FrameLine(-1, i, " "))
  }

  function LineNumbers(lines: seq<FrameLine>): set<int> {
    set k | 0 <= k < |lines| :: lines[k].lineNumber
  }

  /** The line numbers of a placeholder table are pairwise distinct and are exactly 0 .. n-1. */
  lemma PlaceholderLineNumbers(n: int)
    ensures var lines := Placeholders(n);
            && (forall j, k :: 0 <= j < k < |lines| ==> lines[j].lineNumber != lines[k].lineNumber)
            && (forall i :: i in LineNumbers(lines) <==> 0 <= i < n)
  {
    var lines := Placeholders(n);
    forall i | 0 <= i < n ensures i in LineNumbers(lines) {
      assert lines[i].lineNumber == i;
    }
  }

  function Lines(rows: seq<FrameRow>): (lines: seq<FrameLine>)
    ensures |lines| == |rows|
  {
    seq(|rows|, k requires 0 <= k < |rows| => rows[k].line)
  }

  // ---------------------------------------------------------------------
  // getVideoFiles: the video table by upload time, latest first
  // ---------------------------------------------------------------------

  /**
   * The order of the `by_upload_time` index read backwards: later upload
   * times first, and among equal upload times the later-created document
   * first.
   */
  predicate ListedBefore(a: VideoRecord, b: VideoRecord) {
    a.uploadTime > b.uploadTime || (a.uploadTime == b.uploadTime && a.docId >= b.docId)
  }

  predicate NewestFirst(s: seq<VideoRecord>) {
    forall j, k :: 0 <= j < k < |s| ==> ListedBefore(s[j], s[k])
  }

  /** `x` placed in `s` before the first record it is listed before. */
  function InsertByUploadTime(x: VideoRecord, s: seq<VideoRecord>): (r: seq<VideoRecord>)
    requires NewestFirst(s)
    ensures multiset(r) == multiset(s) + multiset{x}
    ensures NewestFirst(r)
    decreases |s|
  {
    if s == [] || ListedBefore(x, s[0]) then [x] + s
    else
      var rest := InsertByUploadTime(x, s[1..]);
      InsertBehindHead(x, s, rest);
      [s[0]] + rest
  }

  /**
   * When `x` goes behind the head of `s`, the head is listed before every
   * record of the rest with `x` inserted, so it may stay in front.
   */
  lemma InsertBehindHead(x: VideoRecord, s: seq<VideoRecord>, rest: seq<VideoRecord>)
    requires s != [] && NewestFirst(s) && !ListedBefore(x, s[0])
    requires multiset(rest) == multiset(s[1..]) + multiset{x} && NewestFirst(rest)
    ensures multiset([s[0]] + rest) == multiset(s) + multiset{x}
    ensures NewestFirst([s[0]] + rest)
  {
    assert s == [s[0]] + s[1..];
    forall k | 0 <= k < |rest| ensures ListedBefore(s[0], rest[k]) {
      assert rest[k] in multiset(rest);
    }
  }

  /** The records of `s`, newest upload first. */
  function SortByUploadTime(s: seq<VideoRecord>): (r: seq<VideoRecord>)
    ensures multiset(r) == multiset(s)
    ensures NewestFirst(r)
    decreases |s|
  {
    if s == [] then []
    else
      assert s == [s[0]] + s[1..];
      InsertByUploadTime(s[0], SortByUploadTime(s[1..]))
  }

  /** Every record of the table is in its sorted listing. */
  lemma SortedKeepsRecord(s: seq<VideoRecord>, k: nat)
    requires k < |s|
    ensures s[k] in SortByUploadTime(s)
  {
    assert s[k] in multiset(s);
    assert s[k] in multiset(SortByUploadTime(s));
  }

  predicate DistinctDocIds(s: seq<VideoRecord>) {
    forall j, k :: 0 <= j < k < |s| ==> s[j].docId != s[k].docId
  }

  /** Two newest-first arrangements of the same records start with the same record. */
  lemma NewestFirstSameHead(a: seq<VideoRecord>, b: seq<VideoRecord>)
    requires a != [] && multiset(a) == multiset(b)
    requires NewestFirst(a) && NewestFirst(b) && DistinctDocIds(a)
    ensures b != [] && a[0] == b[0]
  {
    assert a[0] in multiset(b) && b[0] in multiset(a);
    var j :| 0 <= j < |b| && b[j] == a[0];
    var k :| 0 <= k < |a| && a[k] == b[0];
    assert ListedBefore(b[0], a[0]) by { if j > 0 { assert ListedBefore(b[0], b[j]); } }
  }

  /**
   * When no two records share a document id the order is fully determined:
   * two newest-first arrangements of the same records are the same sequence.
   */
  lemma {:induction false} NewestFirstUnique(a: seq<VideoRecord>, b: seq<VideoRecord>)
    requires multiset(a) == multiset(b)
    requires NewestFirst(a) && NewestFirst(b) && DistinctDocIds(a)
    ensures a == b
    decreases |a|
  {
    if a == [] {
      assert |multiset(b)| == 0;
    } else {
      NewestFirstSameHead(a, b);
      SameTails(a, b);
      TailKeepsOrder(a);
      TailKeepsOrder(b);
      NewestFirstUnique(a[1..], b[1..]);
      assert a == [a[0]] + a[1..] && b == [b[0]] + b[1..];
    }
  }

  lemma SameTails(a: seq<VideoRecord>, b: seq<VideoRecord>)
    requires a != [] && b != [] && a[0] == b[0] && multiset(a) == multiset(b)
    ensures multiset(a[1..]) == multiset(b[1..])
  {
    assert a == [a[0]] + a[1..] && b == [b[0]] + b[1..];
    assert multiset(a) == multiset{a[0]} + multiset(a[1..]);
    assert multiset(b) == multiset{a[0]} + multiset(b[1..]);
    assert multiset(a[1..]) == multiset(a) - multiset{a[0]};
    assert multiset(b[1..]) == multiset(b) - multiset{a[0]};
  }

  lemma TailKeepsOrder(a: seq<VideoRecord>)
    requires a != [] && NewestFirst(a)
    ensures NewestFirst(a[1..])
    ensures DistinctDocIds(a) ==> DistinctDocIds(a[1..])
  {
  }

  // ---------------------------------------------------------------------
  // The database
  // ---------------------------------------------------------------------

  /** Frame ids increase along the table and stay below `bound`. */
  predicate FrameIdsBelow(rows: seq<FrameRow>, bound: nat) {
    && (forall k :: 0 <= k < |rows| ==> rows[k].id < bound)
    && (forall j, k :: 0 <= j < k < |rows| ==> rows[j].id < rows[k].id)
  }

  /** Video document ids increase along the table and stay below `bound`. */
  predicate VideoIdsBelow(rows: seq<VideoRecord>, bound: nat) {
    && (forall k :: 0 <= k < |rows| ==> rows[k].docId < bound)
    && (forall j, k :: 0 <= j < k < |rows| ==> rows[j].docId < rows[k].docId)
  }

  /** `rows` without the row whose id is `id` (`ctx.db.delete(id)`). */
  function RemoveFrame(rows: seq<FrameRow>, id: nat): (r: seq<FrameRow>)
    ensures |r| <= |rows|
    ensures forall k :: 0 <= k < |r| ==> r[k].id != id
    decreases |rows|
  {
    if rows == [] then []
    else if rows[0].id == id then RemoveFrame(rows[1..], id)
    else [rows[0]] + RemoveFrame(rows[1..], id)
  }

  /** A delete keeps exactly the rows whose id differs from the deleted one. */
  lemma {:induction false} RemoveFrameContents(rows: seq<FrameRow>, id: nat)
    ensures forall row :: row in RemoveFrame(rows, id) <==> row in rows && row.id != id
    decreases |rows|
  {
    if rows != [] {
      RemoveFrameContents(rows[1..], id);
      assert rows == [rows[0]] + rows[1..];
    }
  }

  /** Deleting the first row of a table whose ids increase leaves the other rows. */
  lemma {:induction false} RemoveFirstFrame(rows: seq<FrameRow>, bound: nat)
    requires rows != [] && FrameIdsBelow(rows, bound)
    ensures RemoveFrame(rows, rows[0].id) == rows[1..]
  {
    RemoveAbsentFrame(rows[1..], rows[0].id);
  }

  /** Deleting an id that no row has leaves the table as it was. */
  lemma {:induction false} RemoveAbsentFrame(rows: seq<FrameRow>, id: nat)
    requires forall k :: 0 <= k < |rows| ==> rows[k].id != id
    ensures RemoveFrame(rows, id) == rows
    decreases |rows|
  {
    if rows != [] {
      RemoveAbsentFrame(rows[1..], id);
    }
  }

  class Database {
    var frames: seq<FrameRow>
    var videos: seq<VideoRecord>
    /** The id the next inserted document receives. */
    var nextId: nat

    ghost predicate Valid()
      reads this
    {
      FrameIdsBelow(frames, nextId) && VideoIdsBelow(videos, nextId)
    }

    constructor ()
      ensures Valid() && frames == [] && videos == [] && nextId == 0
    {
      frames, videos, nextId := [], [], 0;
    }

    /** `ctx.db.delete(id)` on the frames table. */
    method DeleteFrame(id: nat)
      requires Valid()
      modifies this
      ensures Valid()
      ensures frames == RemoveFrame(old(frames), id)
      ensures videos == old(videos) && nextId == old(nextId)
    {
      RemoveKeepsIds(frames, id, nextId);
      frames := RemoveFrame(frames, id);
    }

    /** `ctx.db.insert("frames", line)`: the new row is appended with a fresh id. */
    method InsertFrame(line: FrameLine) returns (id: nat)
      requires Valid()
      modifies this
      ensures Valid()
      ensures id == old(nextId) && nextId == old(nextId) + 1
      ensures frames == old(frames) + [FrameRow(id, line)]
      ensures videos == old(videos)
    {
      id := nextId;
      frames := frames + [FrameRow(id, line)];
      nextId := nextId + 1;
    }

    /**
     * createEmptyFrameTable: delete every row, then insert `noOfFrames`
     * placeholder rows numbered from 0. The deletes are taken to finish
     * before the first insert.
     */
    method CreateEmptyFrameTable(noOfFrames: int)
      requires Valid()
      modifies this
      ensures Valid()
      ensures Lines(frames) == Placeholders(noOfFrames)
      ensures forall k :: 0 <= k < |frames| ==> frames[k].id >= old(nextId)
      ensures forall k :: 0 <= k < |old(frames)| ==> old(frames)[k] !in frames
      ensures videos == old(videos) && nextId == old(nextId) + |frames|
    {
      var rows := frames;
      var k := 0;
      while k < |rows|
        invariant 0 <= k <= |rows|
        invariant Valid()
        invariant frames == rows[k..]
        invariant videos == old(videos) && nextId == old(nextId)
      {
        RemoveFirstFrame(frames, nextId);
        DeleteFrame(rows[k].id);
        k := k + 1;
      }
      var i := 0;
      while i < noOfFrames
        invariant 0 <= i <= (if noOfFrames <= 0 then 0 else noOfFrames)
        invariant Valid()
        invariant |frames| == i
        invariant forall k :: 0 <= k < i ==> frames[k].line == FrameLine(-1, k, " ")
        invariant forall k :: 0 <= k < |frames| ==> frames[k].id >= old(nextId)
        invariant videos == old(videos) && nextId == old(nextId) + i
      {
        var _ := InsertFrame(FrameLine(-1, i, " "));
        i := i + 1;
      }
      assert |frames| == |Placeholders(noOfFrames)|;
    }

    /**
     * saveVideoMetadata: insert one record built from the arguments, with
     * the output settings copied from the source settings. `now` and
     * `uploadTime` are the two clock reads of the source.
     */
    method SaveVideoMetadata(args: VideoArgs, now: int, uploadTime: int) returns (docId: nat)
      requires Valid()
      modifies this
      ensures Valid()
      ensures |videos| == |old(videos)| + 1 && videos[..|old(videos)|] == old(videos)
      ensures var r := videos[|videos| - 1];
              && r.docId == docId && MirrorsSource(r) && HoldsArgs(r, args)
              && r.id == now && r.uploadTime == uploadTime && r.duration == None
      ensures forall k :: 0 <= k < |old(videos)| ==> old(videos)[k].docId != docId
      ensures videos[|videos| - 1] in GetVideoFiles()
      ensures frames == old(frames) && nextId == old(nextId) + 1
    {
      docId := nextId;
      var r := VideoRecord(
        docId, now, args.title, args.fileName, args.fileId, args.fileSize, args.fileType,
        args.src_x_resolution, args.src_y_resolution,
        args.src_x_resolution, args.src_y_resolution,
        args.src_fps, args.src_fps,
        Some(args.frameNo), None, uploadTime);
      videos := videos + [r];
      nextId := nextId + 1;
      SortedKeepsRecord(videos, |videos| - 1);
    }

    /** getVideoFiles: every record, newest upload first. */
    function GetVideoFiles(): (r: seq<VideoRecord>)
      reads this
      ensures multiset(r) == multiset(videos)
      ensures NewestFirst(r)
      ensures forall j, k :: 0 <= j < k < |r| ==> r[j].uploadTime >= r[k].uploadTime
    {
      SortByUploadTime(videos)
    }

    /** getAllFrames: every row; the order is left open. */
    method GetAllFrames() returns (rows: seq<FrameRow>)
      ensures multiset(rows) == multiset(frames)
    {
      rows := frames;
    }
  }

  /** Deleting a row keeps the ids increasing and below the bound. */
  lemma {:induction false} RemoveKeepsIds(rows: seq<FrameRow>, id: nat, bound: nat)
    requires FrameIdsBelow(rows, bound)
    ensures FrameIdsBelow(RemoveFrame(rows, id), bound)
    decreases |rows|
  {
    if rows != [] {
      RemoveKeepsIds(rows[1..], id, bound);
      RemoveKeepsLowerBound(rows[1..], id, rows[0].id);
    }
  }

  /** Deleting a row keeps every remaining id above a lower bound the table had. */
  lemma {:induction false} RemoveKeepsLowerBound(rows: seq<FrameRow>, id: nat, low: nat)
    requires forall k :: 0 <= k < |rows| ==> rows[k].id > low
    ensures forall k :: 0 <= k < |RemoveFrame(rows, id)| ==> RemoveFrame(rows, id)[k].id > low
    decreases |rows|
  {
    if rows != [] {
      RemoveKeepsLowerBound(rows[1..], id, low);
    }
  }

  /** getVideoFileUrl: the file id is handed back as it came. */
  function GetVideoFileUrl(fileId: string): (url: Option<string>)
    ensures url == Some(fileId)
  {
    Some(fileId)
  }
}
