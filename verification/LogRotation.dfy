/** The rotating log file of log/logger.go. File 0 is the active log file and file n its backup with
    the suffix ".n"; a file is its text. */
module LogRotation {
  import opened Basics

  const ROTATION_CHECK_FRQ: nat := 8

  type Files = map<nat, string>

  /** os.Rename, whose failure on a file that does not exist is ignored. */
  function Renamed(files: Files, from: nat, to: nat): Files
    requires from != to
  {
    if from in files then (files - {from})[to := files[from]] else files
  }

  /** The renames of files top - 1 down to 0, each to the next higher number. */
  function Shifted(files: Files, top: nat): Files
    decreases top
  {
    if top == 0 then files else Shifted(Renamed(files, top - 1, top), top - 1)
  }

  /** Every backup moves up by one and the oldest is overwritten; a gap below the oldest saves it. */
  lemma {:induction false} ShiftedMovesUp(files: Files, top: nat, i: nat)
    requires top >= 1
    ensures 0 !in Shifted(files, top)
    ensures i > top ==> (i in Shifted(files, top) <==> i in files)
    ensures i > top && i in files ==> Shifted(files, top)[i] == files[i]
    ensures 1 <= i <= top && i - 1 in files ==> i in Shifted(files, top) && Shifted(files, top)[i] == files[i - 1]
    ensures 1 <= i < top && i - 1 !in files ==> i !in Shifted(files, top)
    ensures i == top && i - 1 !in files ==> (i in Shifted(files, top) <==> i in files)
    decreases top
  {
    if top > 1 { ShiftedMovesUp(Renamed(files, top - 1, top), top - 1, i); }
  }

  /** Files beyond the limit stay as they are. */
  lemma BeyondStays(files: Files, top: nat)
    requires top >= 1
    ensures forall i: nat :: i > top ==>
              (i in Shifted(files, top) <==> i in files) && (i in files ==> Shifted(files, top)[i] == files[i])
  {
    forall i: nat | i > top
      ensures (i in Shifted(files, top) <==> i in files) && (i in files ==> Shifted(files, top)[i] == files[i])
    {
      ShiftedMovesUp(files, top, i);
    }
  }

  // ---------- the segments ever written ----------

  /** A segment is what was written between two rotations; the last one is being written. */
  type History = h: seq<string> | h != [] witness [""]

  function Appended(h: History, text: string): History {
    h[..|h| - 1] + [h[|h| - 1] + text]
  }

  function Kept(h: History, max: nat): nat { if |h| < max then |h| else max }

  /** The files below `max` are the last segments, newest first, and there is no gap. */
  predicate Shows(files: Files, max: nat, h: History) {
    forall i: nat :: i < max ==>
      && (i in files <==> i < Kept(h, max))
      && (i in files ==> files[i] == h[|h| - 1 - i])
  }

  /** Reading the backups from the oldest to the newest and then the active file. */
  function ReadBack(files: Files, k: nat): seq<string>
    requires forall i: nat :: i < k ==> i in files
  {
    seq(k, i requires 0 <= i < k => files[k - 1 - i])
  }

  /** ... gives exactly the last segments, at most as many as files are allowed. */
  lemma ReadBackIsLastSegments(files: Files, max: nat, h: History)
    requires Shows(files, max, h)
    ensures forall i: nat :: i < max ==> (i in files <==> i < Kept(h, max))
    ensures ReadBack(files, Kept(h, max)) == h[|h| - Kept(h, max)..]
  {}

  lemma RotationStartsSegment(files: Files, max: nat, h: History)
    requires max >= 2 && Shows(files, max, h)
    ensures Shows(Shifted(files, max - 1)[0 := ""], max, h + [""])
  {
    var g := Shifted(files, max - 1)[0 := ""];
    forall i: nat | i < max
      ensures (i in g <==> i < Kept(h + [""], max)) && (i in g ==> g[i] == (h + [""])[|h| - i])
    {
      ShiftedMovesUp(files, max - 1, i);
    }
  }

  lemma WriteExtendsSegment(files: Files, max: nat, h: History, text: string)
    requires max >= 1 && Shows(files, max, h)
    ensures 0 in files && Shows(files[0 := files[0] + text], max, Appended(h, text))
  {}

  // ---------- the logger ----------

  /** The history after one call of logf: every eighth call rotates first, if the active file has
      reached the limit and at least two files are allowed. */
  function AfterCall(h: History, calls: nat, maxSize: int, maxCount: int, line: string): History {
    var rotates := calls % ROTATION_CHECK_FRQ == 0 && |h[|h| - 1]| >= maxSize && maxCount >= 2;
    Appended(if rotates then h + [""] else h, line)
  }

  function AfterCalls(h: History, calls: nat, maxSize: int, maxCount: int, lines: seq<string>): History
    decreases |lines|
  {
    if lines == [] then h
    else AfterCalls(AfterCall(h, calls, maxSize, maxCount, lines[0]), calls + 1, maxSize, maxCount, lines[1..])
  }

  class Logger {
    const maxFileSize: int
    const maxFileCount: int
    var callCount: nat
    var files: Files
    ghost var history: History

    /** Opens a log over files that earlier processes left without gaps. */
    constructor (maxFileSize: int, maxFileCount: int, files: Files, ghost history: History)
      requires maxFileCount >= 1 && Shows(files, maxFileCount, history)
      ensures Valid() && this.maxFileSize == maxFileSize && this.maxFileCount == maxFileCount
      ensures callCount == 0 && this.history == history && this.files == files
    {
      this.maxFileSize, this.maxFileCount, callCount := maxFileSize, maxFileCount, 0;
      this.files, this.history := files, history;
    }

    ghost predicate Valid()
      reads this
    {
      maxFileCount >= 1 && Shows(files, maxFileCount, history)
    }

    /** The loop of rotate, with its carried file name. */
    method ShiftFiles()
      requires maxFileCount >= 1
      modifies this`files
      ensures files == Shifted(old(files), maxFileCount - 1)
    {
      var fn1: Option<nat> := None;
      var n := maxFileCount - 1;
      while n >= 0
        invariant -1 <= n <= maxFileCount - 1
        invariant fn1 == if n == maxFileCount - 1 then None else Some(n + 1)
        invariant n < maxFileCount - 1 ==> Shifted(files, n + 1) == Shifted(old(files), maxFileCount - 1)
        invariant n == maxFileCount - 1 ==> files == old(files)
      {
        var fn2 := fn1;
        fn1 := Some(n);
        if fn2.Some? {
          files := Renamed(files, n, fn2.value);
        }
        n := n - 1;
      }
    }

    /** rotate, where opening the new active file succeeds. */
    method Rotate()
      requires Valid()
      modifies this`files, this`history
      ensures Valid()
      ensures history == if |old(files[0])| >= maxFileSize && maxFileCount >= 2
                         then old(history) + [""] else old(history)
      ensures forall i: nat :: i >= maxFileCount ==>
                (i in files <==> i in old(files)) && (i in files ==> files[i] == old(files)[i])
    {
      if |files[0]| < maxFileSize {
        return;
      }
      hide Shifted;
      ghost var before := files;
      ShiftFiles();
      if 0 !in files {
        files := files[0 := ""];   // SetTarget creates the file if it is not there
      }
      if maxFileCount >= 2 {
        ShiftedMovesUp(before, maxFileCount - 1, 0);
        RotationStartsSegment(before, maxFileCount, history);
        history := history + [""];
        BeyondStays(before, maxFileCount - 1);
      }
    }

    method Logf(line: string)
      requires Valid()
      modifies this`files, this`history, this`callCount
      ensures Valid() && callCount == old(callCount) + 1
      ensures history == AfterCall(old(history), old(callCount), maxFileSize, maxFileCount, line)
    {
      if callCount % ROTATION_CHECK_FRQ == 0 {
        Rotate();
      }
      callCount := callCount + 1;
      WriteExtendsSegment(files, maxFileCount, history, line);
      files := files[0 := files[0] + line];
      history := Appended(history, line);
    }

    /** Any run of writes: the files show the last segments of its history. */
    method LogAll(lines: seq<string>)
      requires Valid()
      modifies this`files, this`history, this`callCount
      ensures Valid()
      ensures history == AfterCalls(old(history), old(callCount), maxFileSize, maxFileCount, lines)
    {
      for i := 0 to |lines|
        invariant Valid()
        invariant AfterCalls(history, callCount, maxFileSize, maxFileCount, lines[i..]) ==
                  AfterCalls(old(history), old(callCount), maxFileSize, maxFileCount, lines)
      {
        assert lines[i..][1..] == lines[i + 1..];
        Logf(lines[i]);
      }
    }
  }

  // ---------- when a segment begins ----------

  lemma {:induction false} CallsConcat(h: History, calls: nat, maxSize: int, maxCount: int,
                                       a: seq<string>, b: seq<string>)
    ensures AfterCalls(h, calls, maxSize, maxCount, a + b) ==
            AfterCalls(AfterCalls(h, calls, maxSize, maxCount, a), calls + |a|, maxSize, maxCount, b)
    decreases |a|
  {
    hide AfterCall;
    if a == [] {
      assert a + b == b;
    } else {
      assert (a + b)[1..] == a[1..] + b;
      CallsConcat(AfterCall(h, calls, maxSize, maxCount, a[0]), calls + 1, maxSize, maxCount, a[1..], b);
    }
  }

  lemma NotDue(h: History, calls: nat, maxSize: int, maxCount: int, line: string)
    requires calls % 8 != 0
    ensures AfterCall(h, calls, maxSize, maxCount, line) == Appended(h, line)
  {}

  lemma NoCalls(h: History, calls: nat, maxSize: int, maxCount: int)
    ensures AfterCalls(h, calls, maxSize, maxCount, []) == h == Appended(h, "")
  {
    assert h[|h| - 1] + "" == h[|h| - 1];
  }

  lemma FirstCall(h: History, calls: nat, maxSize: int, maxCount: int, lines: seq<string>)
    requires lines != []
    ensures AfterCalls(h, calls, maxSize, maxCount, lines) ==
            AfterCalls(AfterCall(h, calls, maxSize, maxCount, lines[0]), calls + 1, maxSize, maxCount, lines[1..])
    ensures Joined(lines) == lines[0] + Joined(lines[1..])
  {}

  lemma NextPhase(calls: nat)
    requires calls % 8 != 7
    ensures (calls + 1) % 8 == calls % 8 + 1
  {}

  /** Calls that are not due for a rotation write to the segment that is open. */
  lemma {:induction false} BetweenChecks(h: History, calls: nat, maxSize: int, maxCount: int, lines: seq<string>)
    requires calls % 8 + |lines| <= 8 && (lines != [] ==> calls % 8 != 0)
    ensures AfterCalls(h, calls, maxSize, maxCount, lines) == Appended(h, Joined(lines))
    decreases |lines|
  {
    hide AfterCall, AfterCalls, Appended, Joined;
    if lines == [] {
      NoCalls(h, calls, maxSize, maxCount);
      NothingJoined();
    } else {
      FirstCall(h, calls, maxSize, maxCount, lines);
      NotDue(h, calls, maxSize, maxCount, lines[0]);
      var h1, rest := Appended(h, lines[0]), lines[1..];
      if rest == [] {
        NoCalls(h1, calls + 1, maxSize, maxCount);
        NothingJoined();
      } else {
        NextPhase(calls);
        BetweenChecks(h1, calls + 1, maxSize, maxCount, rest);
      }
      AppendedTwice(h, lines[0], Joined(rest));
    }
  }

  lemma NothingJoined()
    ensures Joined([]) == ""
  {}

  lemma AppendedTwice(h: History, a: string, b: string)
    ensures Appended(Appended(h, a), b) == Appended(h, a + b)
  {
    Assoc(h[|h| - 1], a, b);
  }

  /** From a due call on, up to eight lines go to one segment: a new one exactly if the open one has
      reached the limit and more than one file is allowed. */
  lemma BatchOfEight(h: History, calls: nat, maxSize: int, maxCount: int, lines: seq<string>)
    requires calls % 8 == 0 && 0 < |lines| <= 8
    ensures AfterCalls(h, calls, maxSize, maxCount, lines) ==
            Appended(if |h[|h| - 1]| >= maxSize && maxCount > 1 then h + [""] else h, Joined(lines))
  {
    var open := if |h[|h| - 1]| >= maxSize && maxCount > 1 then h + [""] else h;
    assert AfterCall(h, calls, maxSize, maxCount, lines[0]) == Appended(open, lines[0]);
    hide AfterCall, AfterCalls, Appended, Joined;
    FirstCall(h, calls, maxSize, maxCount, lines);
    NextPhase(calls);
    BetweenChecks(Appended(open, lines[0]), calls + 1, maxSize, maxCount, lines[1..]);
    AppendedTwice(open, lines[0], Joined(lines[1..]));
  }

  /** So a run from the start is a run of batches of eight. */
  lemma RunOfBatches(h: History, calls: nat, maxSize: int, maxCount: int, lines: seq<string>)
    requires calls % 8 == 0 && |lines| > 8
    ensures AfterCalls(h, calls, maxSize, maxCount, lines) ==
            AfterCalls(Appended(if |h[|h| - 1]| >= maxSize && maxCount > 1 then h + [""] else h, Joined(lines[..8])),
                       calls + 8, maxSize, maxCount, lines[8..])
  {
    assert lines == lines[..8] + lines[8..];
    CallsConcat(h, calls, maxSize, maxCount, lines[..8], lines[8..]);
    BatchOfEight(h, calls, maxSize, maxCount, lines[..8]);
  }

  // ---------- nothing is lost before it is rotated out ----------

  function Joined(parts: seq<string>): string {
    if parts == [] then "" else parts[0] + Joined(parts[1..])
  }

  lemma {:induction false} JoinedConcat(a: seq<string>, b: seq<string>)
    ensures Joined(a + b) == Joined(a) + Joined(b)
  {
    if a == [] {
      assert a + b == b;
    } else {
      assert (a + b)[1..] == a[1..] + b;
      JoinedConcat(a[1..], b);
    }
  }

  lemma AppendedJoined(h: History, text: string)
    ensures Joined(Appended(h, text)) == Joined(h) + text
  {
    var front, last := h[..|h| - 1], h[|h| - 1];
    JoinedConcat(front, [last + text]);
    JoinedConcat(front, [last]);
    assert h == front + [last];
    assert Joined([last + text]) == last + text && Joined([last]) == last;
  }

  lemma Assoc(a: string, b: string, c: string)
    ensures a + (b + c) == (a + b) + c
  {}

  /** The segments of a run hold everything written, in order. */
  lemma {:induction false} EverythingIsInSomeSegment(h: History, calls: nat, maxSize: int, maxCount: int,
                                                     lines: seq<string>)
    ensures Joined(AfterCalls(h, calls, maxSize, maxCount, lines)) == Joined(h) + Joined(lines)
    decreases |lines|
  {
    if lines != [] {
      var h1 := AfterCall(h, calls, maxSize, maxCount, lines[0]);
      JoinedConcat(h, [""]);
      assert Joined([""]) == "";
      AppendedJoined(h + [""], lines[0]);
      AppendedJoined(h, lines[0]);
      assert Joined(h1) == Joined(h) + lines[0];
      hide AfterCall;
      EverythingIsInSomeSegment(h1, calls + 1, maxSize, maxCount, lines[1..]);
      Assoc(Joined(h), lines[0], Joined(lines[1..]));
    }
  }
}
