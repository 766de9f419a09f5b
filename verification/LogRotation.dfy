/** The daemon's log files (src/daemon_log.rs). */
module LogRotation {
  import opened Wrappers
  import opened Utf8

  // One line is appended at a time, and a current file that has outgrown its limit becomes the first
  // backup, all others moving up by one.

  type Line = Bytes

  /** The files that exist, as their lines: 0 is the current file, i the backup `.i`. */
  type Disk = map<nat, seq<Line>>

  function Content(d: Disk, i: nat): seq<Line>
  {
    if i in d then d[i] else []
  }

  /** All lines on disk, from the oldest backup to the current file. */
  function Window(d: Disk, top: nat): seq<Line>
  {
    if top == 0 then Content(d, 0) else Content(d, top) + Window(d, top - 1)
  }

  /** File length; each line ends with a line feed. */
  function Size(lines: seq<Line>): nat
  {
    if lines == [] then 0 else Size(lines[..|lines| - 1]) + |lines[|lines| - 1]| + 1
  }

  predicate Suffix<T(==)>(part: seq<T>, whole: seq<T>)
  {
    |part| <= |whole| && whole[|whole| - |part|..] == part
  }

  /** The current file always becomes a backup, even when no backups are asked for. */
  function Kept(backups: nat): nat
  {
    if backups == 0 then 1 else backups
  }

  function Moved(d: Disk, src: nat, dst: nat): Disk
  {
    if src in d then d[dst := d[src]] - {src} else d
  }

  /** Backups `.1` to `.i` moved up by one, the highest first. */
  function Shifted(d: Disk, i: nat): Disk
    decreases i
  {
    if i == 0 then d else Shifted(Moved(d, i, i + 1), i - 1)
  }

  function Rotated(d: Disk, backups: nat): Disk
  {
    Moved(Shifted(d, Kept(backups) - 1), 0, 1)
  }

  function Written(d: Disk, line: Line, maxBytes: nat, backups: nat): Disk
  {
    var appended := d[0 := Content(d, 0) + [line]];
    if Size(appended[0]) > maxBytes then Rotated(appended, backups)[0 := []] else appended
  }

  /** Nothing is lost except, possibly, the oldest backup. */
  predicate Retained(d: Disk, d': Disk, top: nat)
  {
    (forall k :: k in d' ==> k <= top)
    && (Window(d', top) == Window(d, top) || Content(d, top) + Window(d', top) == Window(d, top))
  }

  /** The log writer. Any file operation may fail: `budget` is how many succeed in a call before
      one does, and a failure ends the call where it stands. */
  class LogWriter {
    const maxBytes: nat
    const backups: nat
    var files: Disk
    var opened_: bool
    /** Every line ever appended. */
    ghost var log: seq<Line>

    ghost predicate Valid()
      reads this
    {
      && (forall k :: k in files ==> k <= Kept(backups))
      && (opened_ ==> 0 in files)
      && Suffix(Window(files, Kept(backups)), log)
    }

    constructor (maxBytes: nat, backups: nat)
      ensures this.maxBytes == maxBytes && this.backups == backups
      ensures Valid() && files == map[] && log == []
    {
      this.maxBytes, this.backups := maxBytes, backups;
      files, opened_, log := map[], false, [];
      new;
      EmptyWindow(Kept(backups));
    }

    /** The process stops anywhere and starts again: only the files are left. */
    method Restart()
      requires Valid()
      modifies this`opened_
      ensures Valid() && !opened_
    {
      opened_ := false;
    }

    method RenameReplace(src: nat, dst: nat, budget: nat) returns (left: Option<nat>)
      requires src in files && src != dst
      modifies this`files
      ensures left.Some? ==> files == Moved(old(files), src, dst)
      ensures left.None? ==> files == old(files) || files == old(files) - {dst}
      ensures budget >= 2 ==> left.Some? && left.value >= budget - 2
    {
      var n: nat := budget;
      if dst in files {
        if n == 0 {
          return None;
        }
        files, n := files - {dst}, n - 1;
      }
      if n == 0 {
        return None;
      }
      files := files[dst := files[src]] - {src};
      return Some(n - 1);
    }

    method RotateLogIfNeeded(budget: nat) returns (left: Option<nat>)
      requires forall k :: k in files ==> k <= Kept(backups)
      modifies this`files
      ensures left.Some? ==> files == Rotated(old(files), backups)
      ensures left.Some? && budget >= 2 * Kept(backups) ==> left.value >= budget - 2 * Kept(backups)
      ensures budget >= 2 * Kept(backups) ==> left.Some?
      ensures Retained(old(files), files, Kept(backups))
    {
      hide Window, Shifted;
      ghost var before, top := files, Kept(backups);
      var n: nat, i: nat := budget, backups;
      while i > 1
        invariant i <= backups && Unshifted(i) < top
        invariant Shifted(files, Unshifted(i)) == Shifted(before, top - 1)
        invariant Unshifted(i) + 1 in files ==> files == before && Unshifted(i) + 1 == top
        invariant Retained(before, files, top)
        invariant n + 2 * (top - 1 - Unshifted(i)) >= budget
      {
        i := i - 1;
        ghost var now := files;
        ShiftedStep(now, i);
        if i in files {
          left := RenameReplace(i, i + 1, n);
          StepRetained(before, now, i, files, top);
          if left.None? {
            return;
          }
          n := left.value;
        }
      }
      ShiftedNone(files);
      if 0 in files {
        ghost var now := files;
        left := RenameReplace(0, 1, n);
        StepRetained(before, now, 0, files, top);
      } else {
        left := Some(n);
      }
    }

    /** Whether the line was written is told by the log; `ok` also says that a due rotation is done. */
    method WriteLogLine(line: Line, budget: nat) returns (ok: bool)
      requires Valid()
      modifies this
      ensures Valid()
      ensures ok ==> log == old(log) + [line] && files == Written(old(files), line, maxBytes, backups)
      ensures budget >= 2 * Kept(backups) + 4 ==> ok
      ensures (log == old(log) && Window(files, Kept(backups)) == old(Window(files, Kept(backups))))
              || (log == old(log) + [line] && WindowAfter(old(files), line, files, Kept(backups)))
    {
      hide Window, Rotated, Size, Suffix, Retained;
      ghost var top, before := Kept(backups), files;
      var n: nat := budget;
      if !opened_ {
        if n == 0 {
          return false;
        }
        files, opened_, n := files[0 := Content(files, 0)], true, n - 1;
        WindowSame(before, files, top);
      }
      if n == 0 {
        return false;
      }
      files := files[0 := files[0] + [line]];
      log, n := log + [line], n - 1;
      ghost var appended := before[0 := Content(before, 0) + [line]];
      assert files == appended;
      WindowAppend(before, files, line, top);
      SuffixAppend(Window(before, top), log[..|log| - 1], line);
      assert log[..|log| - 1] == old(log);
      if n == 0 {
        return false;
      }
      n := n - 1;
      if Size(files[0]) > maxBytes {
        opened_ := false;
        var left := RotateLogIfNeeded(n);
        AfterRotation(before, line, appended, files, top, log);
        if left.None? || left.value == 0 {
          return false;
        }
        ghost var rotated := files;
        files, opened_ := files[0 := Content(files, 0)], true;
        WindowSame(rotated, files, top);
        RotatedCurrent(appended, backups);
      }
      return true;
    }
  }

  /** How many backups are still to be moved up when the loop stands at `i`. */
  function Unshifted(i: nat): nat
  {
    if i == 0 then 0 else i - 1
  }

  /** What stays on disk when `line` is written: everything, or everything but the oldest backup. */
  ghost predicate WindowAfter(d: Disk, line: Line, d': Disk, top: nat)
  {
    Window(d', top) == Window(d, top) + [line] || Content(d, top) + Window(d', top) == Window(d, top) + [line]
  }

  // ---- one file operation ----

  lemma {:induction false} EmptyWindow(top: nat)
    ensures Window(map[], top) == []
  {
    if top > 0 {
      EmptyWindow(top - 1);
    }
  }

  lemma ShiftedStep(d: Disk, i: nat)
    requires i >= 1
    ensures Shifted(d, i) == Shifted(if i in d then Moved(d, i, i + 1) else d, i - 1)
  {
  }

  lemma ShiftedNone(d: Disk)
    ensures Shifted(d, 0) == d
  {
  }

  lemma {:induction false} WindowSame(d: Disk, d': Disk, top: nat)
    requires forall k: nat :: k <= top ==> Content(d, k) == Content(d', k)
    ensures Window(d, top) == Window(d', top)
  {
    if top > 0 {
      WindowSame(d, d', top - 1);
    }
  }

  lemma {:induction false} WindowAppend(d: Disk, d': Disk, line: Line, top: nat)
    requires Content(d', 0) == Content(d, 0) + [line]
    requires forall k: nat :: 0 < k <= top ==> Content(d, k) == Content(d', k)
    ensures Window(d', top) == Window(d, top) + [line]
  {
    if top > 0 {
      WindowAppend(d, d', line, top - 1);
      assert Content(d, top) + (Window(d, top - 1) + [line]) == Content(d, top) + Window(d, top - 1) + [line];
    }
  }

  /** Moving a file into the free place above it changes no line's place. */
  lemma {:induction false} WindowMove(d: Disk, src: nat, d': Disk, top: nat)
    requires src < top && Content(d, src + 1) == [] && Content(d', src) == []
    requires Content(d', src + 1) == Content(d, src)
    requires forall k: nat :: k <= top && k != src && k != src + 1 ==> Content(d, k) == Content(d', k)
    ensures Window(d, top) == Window(d', top)
  {
    if top > src + 1 {
      WindowMove(d, src, d', top - 1);
    } else if src > 0 {
      WindowSame(d, d', src - 1);
    }
  }

  /** A move up, complete or interrupted, when only the top place can be taken. */
  lemma StepRetained(before: Disk, d: Disk, src: nat, d': Disk, top: nat)
    requires src in d && src < top && Retained(before, d, top)
    requires src + 1 in d ==> d == before && src + 1 == top
    requires d' == Moved(d, src, src + 1) || d' == d || d' == d - {src + 1}
    ensures Retained(before, d', top)
  {
    hide Window;
    var free := d - {src + 1};
    if src + 1 in d {
      DropTop(d, free, top);
    } else {
      assert free == d;
    }
    if d' == Moved(d, src, src + 1) {
      WindowMove(free, src, d', top);
    }
  }

  lemma DropTop(d: Disk, d': Disk, top: nat)
    requires top > 0 && d' == d - {top}
    ensures Window(d, top) == Content(d, top) + Window(d', top)
  {
    WindowSame(d, d', top - 1);
    assert Window(d', top) == [] + Window(d', top - 1);
  }

  // ---- suffixes ----

  lemma SuffixAppend<T>(part: seq<T>, whole: seq<T>, x: T)
    requires Suffix(part, whole)
    ensures Suffix(part + [x], whole + [x])
  {
  }

  lemma AfterRotation(before: Disk, line: Line, d: Disk, d': Disk, top: nat, log: seq<Line>)
    requires Retained(d, d', top) && Suffix(Window(d, top), log)
    requires Window(d, top) == Window(before, top) + [line] && Content(d, top) == Content(before, top)
    ensures Suffix(Window(d', top), log) && WindowAfter(before, line, d', top)
    ensures forall k :: k in d' ==> k <= top
  {
  }

  /** After a rotation there is no current file. */
  lemma RotatedCurrent(d: Disk, backups: nat)
    ensures Content(Rotated(d, backups), 0) == []
  {
  }

  // ---- runs without failures ----

  function WrittenAll(lines: seq<Line>, maxBytes: nat, backups: nat): Disk
  {
    if lines == [] then map[]
    else Written(WrittenAll(lines[..|lines| - 1], maxBytes, backups), lines[|lines| - 1], maxBytes, backups)
  }

  /** Every file ever completed, oldest first, and the one being written. */
  datatype History = History(full: seq<seq<Line>>, current: seq<Line>)

  function HistoryOf(lines: seq<Line>, maxBytes: nat): History
  {
    if lines == [] then History([], [])
    else OneMore(HistoryOf(lines[..|lines| - 1], maxBytes), lines[|lines| - 1], maxBytes)
  }

  function OneMore(h: History, line: Line, maxBytes: nat): History
  {
    var current := h.current + [line];
    if Size(current) > maxBytes then History(h.full + [current], []) else h.(current := current)
  }

  function FileAt(h: History, i: nat): seq<Line>
    requires i <= |h.full|
  {
    if i == 0 then h.current else h.full[|h.full| - i]
  }

  /** The current file and the newest completed ones, numbered from the newest. */
  function Newest(h: History, backups: nat): Disk
  {
    map i: nat | 0 <= i <= Min(Kept(backups), |h.full|) :: FileAt(h, i)
  }

  function Concat(files: seq<seq<Line>>): seq<Line>
  {
    if files == [] then [] else Concat(files[..|files| - 1]) + files[|files| - 1]
  }

  /** No line is lost from the history. A completed file is over the limit only by its last line. */
  predicate Complete(h: History, lines: seq<Line>, maxBytes: nat)
  {
    && Concat(h.full) + h.current == lines
    && Size(h.current) <= maxBytes
    && forall i :: 0 <= i < |h.full| ==> OverByLastLine(h.full[i], maxBytes)
  }

  lemma {:induction false} HistoryComplete(lines: seq<Line>, maxBytes: nat)
    ensures Complete(HistoryOf(lines, maxBytes), lines, maxBytes)
    decreases |lines|
  {
    hide OneMore, Size;
    if lines == [] {
      EmptyFile();
    } else {
      var front, last := lines[..|lines| - 1], lines[|lines| - 1];
      hide Complete;
      HistoryComplete(front, maxBytes);
      CompleteStep(HistoryOf(front, maxBytes), front, last, maxBytes);
      assert front + [last] == lines;
    }
  }

  lemma CompleteStep(h: History, lines: seq<Line>, line: Line, maxBytes: nat)
    requires Complete(h, lines, maxBytes)
    ensures Complete(OneMore(h, line, maxBytes), lines + [line], maxBytes)
  {
    hide Size, Concat, OverByLastLine;
    var current := h.current + [line];
    OneMoreLine(h.current, line, maxBytes);
    OneMoreFile(h.full, current);
    EmptyFile();
    assert Concat(h.full) + current == lines + [line];
    assert Concat(h.full) + current + [] == lines + [line];
  }

  lemma EmptyFile()
    ensures Size([]) == 0
  {
  }

  lemma OneMoreLine(file: seq<Line>, line: Line, maxBytes: nat)
    requires Size(file) <= maxBytes
    ensures Size(file + [line]) > maxBytes ==> OverByLastLine(file + [line], maxBytes)
  {
    assert (file + [line])[..|file|] == file;
  }

  lemma OneMoreFile(files: seq<seq<Line>>, file: seq<Line>)
    ensures Concat(files + [file]) == Concat(files) + file
  {
    assert (files + [file])[..|files|] == files;
  }

  predicate OverByLastLine(file: seq<Line>, maxBytes: nat)
  {
    && file != []
    && Size(file[..|file| - 1]) <= maxBytes < Size(file)
    && Size(file) <= maxBytes + |file[|file| - 1]| + 1
  }

  /** What shifting leaves at each place. */
  lemma {:induction false} ShiftedAt(d: Disk, i: nat, k: nat)
    ensures (k == 0 || k > i + 1) ==> (k in Shifted(d, i) <==> k in d) && Content(Shifted(d, i), k) == Content(d, k)
    ensures 1 <= k <= i + 1 && k - 1 in d && k > 1 ==> k in Shifted(d, i) && Shifted(d, i)[k] == d[k - 1]
    ensures k == i + 1 && i > 0 && i !in d ==> (k in Shifted(d, i) <==> k in d)
    ensures 1 < k <= i && k - 1 !in d ==> k !in Shifted(d, i)
    ensures i > 0 && k == 1 ==> k !in Shifted(d, i)
    decreases i
  {
    if i > 0 {
      ShiftedAt(Moved(d, i, i + 1), i - 1, k);
    }
  }

  /** What a rotation leaves at each place when the backups have no gap. */
  lemma RotatedAt(d: Disk, backups: nat, k: nat)
    requires 0 in d && forall i: nat :: i in d ==> i <= Kept(backups) && (i > 0 ==> i - 1 in d)
    ensures var r := Rotated(d, backups);
            && (k in r <==> 0 < k <= Kept(backups) && k - 1 in d)
            && (k in r ==> r[k] == d[k - 1])
  {
    hide Shifted;
    ShiftedAt(d, Kept(backups) - 1, k);
    ShiftedAt(d, Kept(backups) - 1, 0);
  }

  /** Rotating the newest files of a history. */
  lemma RotatedNewest(h: History, backups: nat)
    ensures Rotated(Newest(h, backups), backups)[0 := []] == Newest(History(h.full + [h.current], []), backups)
  {
    hide Newest, Rotated, FileAt;
    var d, next := Newest(h, backups), History(h.full + [h.current], []);
    var rotated, expected := Rotated(d, backups)[0 := []], Newest(next, backups);
    forall i: nat ensures i in d ==> i <= Kept(backups) && (i > 0 ==> i - 1 in d) {
      NewestAt(h, backups, i);
      if i > 0 {
        NewestAt(h, backups, i - 1);
      }
    }
    NewestAt(h, backups, 0);
    forall k: nat
      ensures k in rotated <==> k in expected
      ensures k in rotated ==> rotated[k] == expected[k]
    {
      RotatedAt(d, backups, k);
      NewestAt(next, backups, k);
      if k > 0 {
        NewestAt(h, backups, k - 1);
        NextFile(h, k);
      } else {
        FileZero(next);
      }
    }
    assert rotated.Keys == expected.Keys;
  }

  lemma FileZero(h: History)
    ensures FileAt(h, 0) == h.current
  {
  }

  lemma NextFile(h: History, k: nat)
    requires k > 0
    ensures k - 1 <= |h.full| ==> FileAt(History(h.full + [h.current], []), k) == FileAt(h, k - 1)
  {
  }

  lemma NewestAt(h: History, backups: nat, k: nat)
    ensures k in Newest(h, backups) <==> k <= Min(Kept(backups), |h.full|)
    ensures k <= Min(Kept(backups), |h.full|) ==> Newest(h, backups)[k] == FileAt(h, k)
  {
  }

  /** After any number of writes the files are exactly the newest ones of the full history. */
  lemma {:induction false} FilesAreNewest(lines: seq<Line>, maxBytes: nat, backups: nat)
    requires lines != []
    ensures WrittenAll(lines, maxBytes, backups) == Newest(HistoryOf(lines, maxBytes), backups)
    decreases |lines|
  {
    hide Newest, Rotated, Size;
    var front, last := lines[..|lines| - 1], lines[|lines| - 1];
    var before, h := WrittenAll(front, maxBytes, backups), HistoryOf(front, maxBytes);
    var appended := before[0 := Content(before, 0) + [last]];
    if front != [] {
      FilesAreNewest(front, maxBytes, backups);
    }
    NewestAppend(h, before, last, backups);
    var extended := h.(current := h.current + [last]);
    RotatedNewest(extended, backups);
    assert Written(before, last, maxBytes, backups)
        == if Size(extended.current) > maxBytes then Rotated(Newest(extended, backups), backups)[0 := []] else Newest(extended, backups);
  }

  lemma NewestAppend(h: History, d: Disk, line: Line, backups: nat)
    requires d == Newest(h, backups) || (d == map[] && h == History([], []))
    ensures Content(d, 0) == h.current
    ensures d[0 := Content(d, 0) + [line]] == Newest(h.(current := h.current + [line]), backups)
  {
    hide Newest;
    var h' := h.(current := h.current + [line]);
    var appended, expected := d[0 := Content(d, 0) + [line]], Newest(h', backups);
    forall k: nat
      ensures k in appended <==> k in expected
      ensures k in appended ==> appended[k] == expected[k]
    {
      NewestAt(h, backups, k);
      NewestAt(h', backups, k);
    }
    NewestAt(h, backups, 0);
    assert appended.Keys == expected.Keys;
  }

  /** The bounds of the window: what is on disk is a suffix of what was written, the current file
      is within the limit, each backup is over it by at most its last line, and lines have been
      dropped only when all backups are full. */
  lemma WindowOfRun(lines: seq<Line>, maxBytes: nat, backups: nat)
    requires lines != []
    ensures var d, top := WrittenAll(lines, maxBytes, backups), Kept(backups);
            && Suffix(Window(d, top), lines)
            && 0 in d && Size(d[0]) <= maxBytes
            && (forall i :: i in d ==> i <= top && (i > 0 ==> OverByLastLine(d[i], maxBytes)))
            && (Window(d, top) != lines ==> forall i :: 1 <= i <= top ==> i in d)
  {
    hide Newest, OverByLastLine, HistoryOf, Window, WrittenAll, Concat, Size;
    var h, top := HistoryOf(lines, maxBytes), Kept(backups);
    HistoryComplete(lines, maxBytes);
    FilesAreNewest(lines, maxBytes, backups);
    var d := Newest(h, backups);
    forall i: nat
      ensures i in d <==> i <= Min(top, |h.full|)
      ensures i in d ==> i == 0 || OverByLastLine(d[i], maxBytes)
    {
      NewestAt(h, backups, i);
    }
    NewestAt(h, backups, 0);
    WindowIs(h, backups, top);
    var dropped := |h.full| - Min(top, |h.full|);
    ConcatSplit(h.full, dropped);
    SuffixOf(Concat(h.full[..dropped]), Concat(h.full[dropped..]) , h.current, lines);
    if dropped == 0 {
      assert h.full[0..] == h.full;
    }
  }

  lemma SuffixOf<T>(a: seq<T>, b: seq<T>, c: seq<T>, whole: seq<T>)
    requires a + b + c == whole
    ensures Suffix(b + c, whole)
  {
    assert a + (b + c) == whole;
  }

  lemma {:induction false} ConcatSplit(files: seq<seq<Line>>, n: nat)
    requires n <= |files|
    ensures Concat(files) == Concat(files[..n]) + Concat(files[n..])
    decreases |files|
  {
    if n == |files| {
      assert files[..n] == files;
    } else {
      var front := files[..|files| - 1];
      ConcatSplit(front, n);
      assert front[..n] == files[..n] && front[n..] == files[n..][..|files| - n - 1];
    }
  }

  lemma {:induction false} WindowIs(h: History, backups: nat, top: nat)
    requires top <= Kept(backups)
    ensures Window(Newest(h, backups), top) == Concat(h.full[|h.full| - Min(top, |h.full|)..]) + h.current
    decreases top
  {
    hide Newest, Concat;
    NewestAt(h, backups, top);
    if top > 0 {
      WindowIs(h, backups, top - 1);
      WindowOneMore(h, top);
    } else {
      NoFiles(h.full[|h.full|..], h.current);
    }
  }

  lemma NoFiles(files: seq<seq<Line>>, current: seq<Line>)
    requires files == []
    ensures Concat(files) + current == current
  {
  }

  lemma WindowOneMore(h: History, top: nat)
    requires 0 < top
    ensures var n := |h.full|;
            var rest := Concat(h.full[n - Min(top - 1, n)..]) + h.current;
            Concat(h.full[n - Min(top, n)..]) + h.current == (if top <= n then FileAt(h, top) + rest else rest)
  {
    hide Concat;
    var n := |h.full|;
    if top <= n {
      var rest := h.full[n - (top - 1)..];
      assert h.full[n - top..] == [h.full[n - top]] + rest;
      ConcatFront(h.full[n - top], rest);
      assert FileAt(h, top) + (Concat(rest) + h.current) == FileAt(h, top) + Concat(rest) + h.current;
    }
  }

  lemma ConcatFront(file: seq<Line>, files: seq<seq<Line>>)
    ensures Concat([file] + files) == file + Concat(files)
  {
    ConcatSplit([file] + files, 1);
    assert ([file] + files)[..1] == [file] && ([file] + files)[1..] == files;
    assert [file][..0] == [] && Concat([file]) == [] + file;
  }

  // ---- bytes ----

  /** What the file holds: every line with a line feed after it. */
  function FileBytes(lines: seq<Line>): Bytes
  {
    if lines == [] then [] else lines[0] + [10] + FileBytes(lines[1..])
  }

  /** The size that decides on a rotation is the number of bytes in the file. */
  lemma {:induction false} SizeIsBytes(lines: seq<Line>)
    ensures Size(lines) == |FileBytes(lines)|
    decreases |lines|
  {
    if lines != [] {
      var front, last := lines[..|lines| - 1], lines[|lines| - 1];
      SizeIsBytes(front);
      FileBytesSnoc(front, last);
      assert front + [last] == lines;
    }
  }

  lemma {:induction false} FileBytesSnoc(lines: seq<Line>, line: Line)
    ensures FileBytes(lines + [line]) == FileBytes(lines) + line + [10]
    decreases |lines|
  {
    if lines == [] {
      assert [line][1..] == [];
    } else {
      assert (lines + [line])[1..] == lines[1..] + [line];
      FileBytesSnoc(lines[1..], line);
    }
  }
}
