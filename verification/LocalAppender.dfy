/**
 The rotating append-only audit log: one live file that is renamed away before it would outgrow its
 limit. The file system is a map from paths to the bytes they hold, and a rename overwrites its target.
 */
module RotatingLog {
  import opened Bytes

  type Disk = map<string, seq<byte>>

  const NEWLINE: byte := 10

  /** The appender's view: the disk, the rotated files in rotation order, and the size it keeps track of. */
  datatype Log = Log(disk: Disk, rotated: seq<string>, currentSize: int)

  datatype Config = Config(path: string, limit: int)

  function RotatedPath(c: Config, stamp: string): (p: string)
    ensures p != c.path
  {
    var suffix := if c.limit == 100 then ".1" else "." + stamp;
    assert |c.path + suffix| > |c.path|;
    c.path + suffix
  }

  function Line(record: seq<byte>): seq<byte> {
    record + [NEWLINE]
  }

  function Content(d: Disk, path: string): seq<byte> {
    if path in d then d[path] else []
  }

  /** `os.Rename` */
  function Rename(d: Disk, from: string, to: string): Disk
    requires from in d && from != to
  {
    d[to := d[from]] - {from}
  }

  /** `os.OpenFile` with O_APPEND and O_CREATE. */
  function Opened(d: Disk, path: string): Disk {
    if path in d then d else d[path := []]
  }

  function Rotated(c: Config, g: Log, stamp: string): Log
    requires c.path in g.disk
  {
    var to := RotatedPath(c, stamp);
    var d := Opened(Rename(g.disk, c.path, to), c.path);
    Log(d, g.rotated + [to], |d[c.path]|)
  }

  predicate NeedsRotation(c: Config, g: Log, record: seq<byte>) {
    g.currentSize + |Line(record)| > c.limit
  }

  function Append(c: Config, g: Log, record: seq<byte>, stamp: string): Log
    requires c.path in g.disk
  {
    var h := if NeedsRotation(c, g, record) then Rotated(c, g, stamp) else g;
    h.(disk := h.disk[c.path := h.disk[c.path] + Line(record)], currentSize := h.currentSize + |Line(record)|)
  }

  // -------------------------------------------------------------- what is kept

  /** The contents of the rotated files, in rotation order. */
  function RotatedText(d: Disk, names: seq<string>): seq<byte> {
    if names == [] then [] else Content(d, names[0]) + RotatedText(d, names[1..])
  }

  /** All that was ever logged, oldest first. */
  function History(c: Config, g: Log): seq<byte> {
    RotatedText(g.disk, g.rotated) + Content(g.disk, c.path)
  }

  predicate OneLine(s: seq<byte>) {
    s != [] && s[|s| - 1] == NEWLINE && NEWLINE !in s[..|s| - 1]
  }

  /** Within the limit, or empty, or one line that alone exceeds it. */
  predicate Fits(c: Config, s: seq<byte>) {
    |s| <= c.limit || s == [] || OneLine(s)
  }

  ghost predicate Valid(c: Config, g: Log) {
    && c.path in g.disk
    && g.currentSize == |g.disk[c.path]|
    && c.path !in g.rotated
    && (forall n :: n in g.rotated ==> n in g.disk && Fits(c, g.disk[n]))
    && Fits(c, g.disk[c.path])
  }

  lemma {:induction false} RotatedTextFrame(d: Disk, e: Disk, names: seq<string>)
    requires forall n :: n in names ==> Content(d, n) == Content(e, n)
    ensures RotatedText(d, names) == RotatedText(e, names)
  {
    if names != [] {
      assert names[0] in names;
      RotatedTextFrame(d, e, names[1..]);
    }
  }

  lemma {:induction false} RotatedTextAppend(d: Disk, names: seq<string>, n: string)
    ensures RotatedText(d, names + [n]) == RotatedText(d, names) + Content(d, n)
  {
    if names == [] {
      assert names + [n] == [n] && [n][1..] == [];
    } else {
      assert (names + [n])[1..] == names[1..] + [n];
      RotatedTextAppend(d, names[1..], n);
    }
  }

  /** A rotation to a fresh name only moves text: the history stays as it is. */
  lemma FreshRotationKeepsHistory(c: Config, g: Log, stamp: string)
    requires Valid(c, g) && RotatedPath(c, stamp) !in g.disk
    ensures Valid(c, Rotated(c, g, stamp)) && History(c, Rotated(c, g, stamp)) == History(c, g)
    ensures Rotated(c, g, stamp).disk[c.path] == [] && Rotated(c, g, stamp).currentSize == 0
  {
    var to, h := RotatedPath(c, stamp), Rotated(c, g, stamp);
    hide Fits, RotatedPath;
    assert to !in g.rotated;
    RotatedTextFrame(g.disk, h.disk, g.rotated);
    RotatedTextAppend(h.disk, g.rotated, to);
    EmptyFits(c);
  }

  lemma EmptyFits(c: Config)
    ensures Fits(c, [])
  {
  }

  /** This append does not rename over an existing file. */
  predicate FreshStamp(c: Config, g: Log, record: seq<byte>, stamp: string) {
    NeedsRotation(c, g, record) ==> RotatedPath(c, stamp) !in g.disk
  }

  /**
   One append adds exactly its line to the end of the history, keeps the size in step with the live
   file, and lets a file exceed the limit only if it holds that one line alone.
   */
  lemma AppendKeepsHistory(c: Config, g: Log, record: seq<byte>, stamp: string)
    requires Valid(c, g) && FreshStamp(c, g, record, stamp) && NEWLINE !in record
    ensures Valid(c, Append(c, g, record, stamp))
    ensures History(c, Append(c, g, record, stamp)) == History(c, g) + Line(record)
  {
    var h := if NeedsRotation(c, g, record) then Rotated(c, g, stamp) else g;
    if NeedsRotation(c, g, record) { FreshRotationKeepsHistory(c, g, stamp); }
    hide Rotated, RotatedPath, Fits;
    WriteLine(c, h, record);
  }

  /** What an append does to the disk: it rotates exactly if the line would not fit. */
  lemma AppendSpelledOut(c: Config, g: Log, record: seq<byte>, stamp: string)
    requires c.path in g.disk
    ensures var after := Append(c, g, record, stamp);
            var line := record + [10];
            if g.currentSize + |record| + 1 > c.limit then
              var to := c.path + (if c.limit == 100 then ".1" else "." + stamp);
              && after.rotated == g.rotated + [to]
              && after.disk == g.disk[to := g.disk[c.path]][c.path := line]
              && after.currentSize == |record| + 1
            else
              && after.rotated == g.rotated
              && after.disk == g.disk[c.path := g.disk[c.path] + line]
              && after.currentSize == g.currentSize + |record| + 1
  {
    assert [] + (record + [10]) == record + [10];
  }

  lemma WriteLine(c: Config, h: Log, record: seq<byte>)
    requires Valid(c, h) && NEWLINE !in record
    requires h.currentSize + |Line(record)| <= c.limit || h.disk[c.path] == []
    ensures var g := h.(disk := h.disk[c.path := h.disk[c.path] + Line(record)],
                        currentSize := h.currentSize + |Line(record)|);
            Valid(c, g) && History(c, g) == History(c, h) + Line(record)
  {
    var d := h.disk[c.path := h.disk[c.path] + Line(record)];
    RotatedTextFrame(h.disk, d, h.rotated);
    LineFits(c, h.disk[c.path], record);
    hide Fits, Line, RotatedText;
    assert RotatedText(d, h.rotated) + (h.disk[c.path] + Line(record))
        == (RotatedText(d, h.rotated) + h.disk[c.path]) + Line(record);
  }

  lemma LineFits(c: Config, s: seq<byte>, record: seq<byte>)
    requires NEWLINE !in record && (|s| + |Line(record)| <= c.limit || s == [])
    ensures Fits(c, s + Line(record))
  {
    LineIsOneLine(record);
    if s == [] { assert s + Line(record) == Line(record); }
  }

  lemma LineIsOneLine(record: seq<byte>)
    requires NEWLINE !in record
    ensures OneLine(Line(record))
  {
    assert Line(record)[..|record|] == record;
  }

  // ----------------------------------------------------------------- whole runs

  function AppendAll(c: Config, g: Log, records: seq<seq<byte>>, stamps: seq<string>): Log
    requires c.path in g.disk && |records| <= |stamps|
    decreases |records|
  {
    if records == [] then g else AppendAll(c, Append(c, g, records[0], stamps[0]), records[1..], stamps[1..])
  }

  predicate FreshStamps(c: Config, g: Log, records: seq<seq<byte>>, stamps: seq<string>)
    requires c.path in g.disk && |records| <= |stamps|
    decreases |records|
  {
    records == []
    || (FreshStamp(c, g, records[0], stamps[0])
        && FreshStamps(c, Append(c, g, records[0], stamps[0]), records[1..], stamps[1..]))
  }

  function Lines(records: seq<seq<byte>>): seq<byte> {
    if records == [] then [] else Line(records[0]) + Lines(records[1..])
  }

  lemma {:induction false} AppendAllKeepsHistory(c: Config, g: Log, records: seq<seq<byte>>, stamps: seq<string>)
    requires Valid(c, g) && |records| <= |stamps| && FreshStamps(c, g, records, stamps)
    requires forall i :: 0 <= i < |records| ==> NEWLINE !in records[i]
    ensures Valid(c, AppendAll(c, g, records, stamps))
    ensures History(c, AppendAll(c, g, records, stamps)) == History(c, g) + Lines(records)
    decreases |records|
  {
    hide Fits, History, Append, FreshStamp;
    if records == [] {
      assert History(c, g) + [] == History(c, g);
    } else {
      AppendKeepsHistory(c, g, records[0], stamps[0]);
      var h := Append(c, g, records[0], stamps[0]);
      AppendAllKeepsHistory(c, h, records[1..], stamps[1..]);
      assert History(c, g) + (Line(records[0]) + Lines(records[1..]))
          == (History(c, g) + Line(records[0])) + Lines(records[1..]);
    }
  }

  /** The log as it is after `Open` on a disk that has no live file yet. */
  function Fresh(c: Config, d: Disk): Log {
    Log(Opened(d, c.path), [], |Content(d, c.path)|)
  }

  /**
   As long as no rotation meets an existing name, the rotated files in rotation order followed by the live
   file hold what the live file held at first and then exactly the appended lines, in order.
   */
  lemma RunHoldsExactlyItsLines(c: Config, d: Disk, records: seq<seq<byte>>, stamps: seq<string>)
    requires c.path in d ==> Fits(c, d[c.path])
    requires |records| <= |stamps| && FreshStamps(c, Fresh(c, d), records, stamps)
    requires forall i :: 0 <= i < |records| ==> NEWLINE !in records[i]
    ensures Valid(c, AppendAll(c, Fresh(c, d), records, stamps))
    ensures History(c, AppendAll(c, Fresh(c, d), records, stamps))
         == (if c.path in d then d[c.path] else []) + Lines(records)
  {
    assert History(c, Fresh(c, d)) == Content(d, c.path);
    AppendAllKeepsHistory(c, Fresh(c, d), records, stamps);
  }

  // ------------------------------------------------------------ name collisions

  predicate Distinct(names: seq<string>) {
    forall i, j :: 0 <= i < j < |names| ==> names[i] != names[j]
  }

  function TotalSize(d: Disk, names: seq<string>): nat {
    if names == [] then 0 else |Content(d, names[0])| + TotalSize(d, names[1..])
  }

  lemma {:induction false} TotalSizeFrame(d: Disk, e: Disk, names: seq<string>)
    requires forall n :: n in names ==> Content(d, n) == Content(e, n)
    ensures TotalSize(d, names) == TotalSize(e, names)
  {
    if names != [] {
      assert names[0] in names;
      TotalSizeFrame(d, e, names[1..]);
    }
  }

  lemma {:induction false} TotalSizeOfOverwrite(d: Disk, e: Disk, names: seq<string>, to: string)
    requires Distinct(names) && to in names
    requires forall n :: n in names && n != to ==> Content(d, n) == Content(e, n)
    ensures TotalSize(e, names) + |Content(d, to)| == TotalSize(d, names) + |Content(e, to)|
  {
    if names[0] == to {
      assert forall n :: n in names[1..] ==> n in names && n != to;
      TotalSizeFrame(d, e, names[1..]);
    } else {
      TotalSizeOfOverwrite(d, e, names[1..], to);
    }
  }

  /**
   Why names must be fresh: a rotation onto a file of the log replaces it. The log then shrinks by the
   overwritten file, so nothing is lost if and only if that file was empty.
   */
  lemma CollidingRotationLosesFile(c: Config, g: Log, stamp: string)
    requires c.path in g.disk && c.path !in g.rotated && Distinct(g.rotated)
    requires RotatedPath(c, stamp) in g.rotated
    ensures var to, d := RotatedPath(c, stamp), Rotated(c, g, stamp).disk;
            var before := TotalSize(g.disk, g.rotated) + |Content(g.disk, c.path)|;
            var after := TotalSize(d, g.rotated) + |Content(d, c.path)|;
            && d[to] == g.disk[c.path]
            && after + |Content(g.disk, to)| == before
            && (after == before <==> Content(g.disk, to) == [])
  {
    var to, d := RotatedPath(c, stamp), Rotated(c, g, stamp).disk;
    hide RotatedPath;
    TotalSizeOfOverwrite(g.disk, d, g.rotated, to);
  }

  // ---------------------------------------------------------------- the appender

  class LocalAppender {
    const filePath: string
    const rotationLimitBytes: int
    var disk: Disk
    var currentSize: int
    ghost var rotated: seq<string>

    ghost function Now(): Log
      reads this
    {
      Log(disk, rotated, currentSize)
    }

    function Settings(): Config {
      Config(filePath, rotationLimitBytes)
    }

    /** `NewLocalAppender` followed by `Open`. */
    constructor (path: string, limit: int, disk: Disk)
      ensures Settings() == Config(path, limit) && Now() == Fresh(Settings(), disk)
      ensures path in disk ==> this.disk == disk && currentSize == |disk[path]|
      ensures path !in disk ==> this.disk == disk[path := []] && currentSize == 0
    {
      filePath, rotationLimitBytes := path, limit;
      this.disk := Opened(disk, path);
      currentSize := |Content(disk, path)|;
      rotated := [];
    }

    method Rotate(stamp: string)
      requires filePath in disk
      modifies this
      ensures Now() == Rotated(Settings(), old(Now()), stamp)
    {
      var rotatedPath := RotatedPath(Settings(), stamp);
      disk := Rename(disk, filePath, rotatedPath);
      rotated := rotated + [rotatedPath];
      currentSize := 0;
      Open();
    }

    method Open()
      modifies this`disk, this`currentSize
      ensures disk == Opened(old(disk), filePath) && filePath in disk && currentSize == |disk[filePath]|
    {
      disk := Opened(disk, filePath);
      currentSize := |disk[filePath]|;
    }

    /** Appends one JSON record as a line, rotating first if the line would not fit. */
    method AppendBlock(record: seq<byte>, stamp: string)
      requires Valid(Settings(), Now()) && NEWLINE !in record
      modifies this
      ensures Now() == Append(Settings(), old(Now()), record, stamp)
      ensures old(FreshStamp(Settings(), Now(), record, stamp)) ==>
                && Valid(Settings(), Now())
                && History(Settings(), Now()) == old(History(Settings(), Now())) + Line(record)
      ensures old(currentSize) + |record| + 1 <= rotationLimitBytes ==>
                && rotated == old(rotated)
                && disk == old(disk)[filePath := old(disk)[filePath] + (record + [10])]
      ensures old(currentSize) + |record| + 1 > rotationLimitBytes ==>
                var to := filePath + (if rotationLimitBytes == 100 then ".1" else "." + stamp);
                && rotated == old(rotated) + [to]
                && disk == old(disk)[to := old(disk)[filePath]][filePath := record + [10]]
    {
      AppendSpelledOut(Settings(), Now(), record, stamp);
      if FreshStamp(Settings(), Now(), record, stamp) {
        AppendKeepsHistory(Settings(), Now(), record, stamp);
      }
      hide History, Fits;
      var data := record + [NEWLINE];
      if currentSize + |data| > rotationLimitBytes {
        Rotate(stamp);
      }
      disk := disk[filePath := disk[filePath] + data];
      currentSize := currentSize + |data|;
    }
  }
}
