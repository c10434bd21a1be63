/** The rotating log file: a base file and numbered backups, on a disk that renames over existing files. */
module FileRotation {
  import opened Oids

  newtype byte = x: int | 0 <= x < 256

  type Files = map<string, seq<byte>>

  /** The limits of a rotator and the path of its base file. */
  datatype Limits = Limits(basePath: string, maxSize: int, maxAge: int, keepFiles: nat)

  /** What the clock and the file's time stamp say during one Write. */
  datatype Clock = Clock(modTime: int, created: int, checked: int, rotated: int)

  /** The disk and the rotator's fields; `created` counts the files created since the start. */
  datatype Log = Log(files: Files, current: bool, size: int, startTime: int, created: nat)

  /** File 0 is the base file, file `i` its `i`-th backup. */
  function LogPath(basePath: string, i: nat): string {
    if i == 0 then basePath else basePath + "." + Decimal(i)
  }

  /** A backup's path is that of the base file, a dot and the number. */
  lemma LogPathExactly(basePath: string, i: nat, path: string)
    ensures path == LogPath(basePath, i) <==>
      if i == 0 then path == basePath else exists s :: IsNumeral(s, i) && path == basePath + "." + s
  {
    if i > 0 {
      DecimalExactly(i, Decimal(i));
      if s :| IsNumeral(s, i) && path == basePath + "." + s { DecimalExactly(i, s); }
    }
  }

  lemma LogPathInjective(basePath: string, i: nat, j: nat)
    requires LogPath(basePath, i) == LogPath(basePath, j)
    ensures i == j
  {
    var n := |basePath|;
    if i != 0 && j != 0 {
      assert Decimal(i) == LogPath(basePath, i)[n + 1..] == LogPath(basePath, j)[n + 1..] == Decimal(j);
      DecimalInjective(i, j);
    }
  }

  // --- one rotation ---

  /** POSIX rename: the target is replaced if it exists. */
  function RenameFile(files: Files, from: string, to: string): Files
    requires from in files
  {
    (files - {from})[to := files[from]]
  }

  /** One round of the descending loop. */
  function ShiftStep(files: Files, l: Limits, i: nat): Files {
    var path := LogPath(l.basePath, i);
    if path !in files then files
    else if i == l.keepFiles - 1 then files - {path}
    else RenameFile(files, path, LogPath(l.basePath, i + 1))
  }

  /** The rounds from `i` down to 1. */
  function Shift(files: Files, l: Limits, i: nat): Files
    decreases i
  {
    if i == 0 then files else Shift(ShiftStep(files, l, i), l, i - 1)
  }

  function ShiftBackups(files: Files, l: Limits): Files {
    if l.keepFiles == 0 then files else Shift(files, l, l.keepFiles - 1)
  }

  function Rotate(files: Files, l: Limits): Files {
    var shifted := ShiftBackups(files, l);
    if l.basePath !in shifted then shifted
    else RenameFile(shifted, l.basePath, LogPath(l.basePath, 1))[l.basePath := []]
  }

  // --- one Write ---

  function SetupCurrent(log: Log, l: Limits, clock: Clock): Log {
    if log.current then log
    else if l.basePath in log.files then
      log.(current := true, size := |log.files[l.basePath]|, startTime := clock.modTime)
    else
      log.(current := true, files := log.files[l.basePath := []], startTime := clock.created, created := log.created + 1)
  }

  predicate ShouldRotate(log: Log, l: Limits, clock: Clock) {
    log.size > l.maxSize || clock.checked - log.startTime > l.maxAge
  }

  function RotateLog(log: Log, l: Limits, clock: Clock): Log {
    log.(files := Rotate(log.files, l), size := 0, startTime := clock.rotated, created := log.created + 1)
  }

  function Append(log: Log, l: Limits, p: seq<byte>): Log {
    if l.basePath !in log.files then log
    else log.(files := log.files[l.basePath := log.files[l.basePath] + p], size := log.size + |p|)
  }

  function WriteStep(log: Log, l: Limits, clock: Clock, p: seq<byte>): Log {
    var ready := SetupCurrent(log, l, clock);
    Append(if ShouldRotate(ready, l, clock) then RotateLog(ready, l, clock) else ready, l, p)
  }

  // --- what a Write does to the files ---

  function Content(files: Files, path: string): seq<byte> {
    if path in files then files[path] else []
  }

  predicate SameFile(f: Files, p: string, g: Files, q: string) {
    (p in f <==> q in g) && (p in f ==> f[p] == g[q])
  }

  /** When the base file was started: as remembered, or as its time stamp says, or just now. */
  function Started(log: Log, l: Limits, clock: Clock): int {
    if log.current then log.startTime else if l.basePath in log.files then clock.modTime else clock.created
  }

  /** The base file is within its limits: small enough and young enough for another Write. */
  predicate WithinLimits(log: Log, l: Limits, clock: Clock) {
    |Content(log.files, l.basePath)| <= l.maxSize && clock.checked - Started(log, l, clock) <= l.maxAge
  }

  /** The base file has got longer by `p`, all other files are as before. */
  ghost predicate Extended(was: Files, files: Files, l: Limits, p: seq<byte>) {
    files == was[l.basePath := Content(was, l.basePath) + p]
  }

  /** Every file of the log has moved up by one, the last one is gone, and the base file holds just `p`. */
  ghost predicate MovedUp(was: Files, files: Files, l: Limits, p: seq<byte>) {
    l.basePath in files && files[l.basePath] == p &&
    (l.keepFiles > 1 ==> LogPath(l.basePath, 1) in files && files[LogPath(l.basePath, 1)] == Content(was, l.basePath)) &&
    (forall j :: 2 <= j < l.keepFiles ==> SameFile(files, LogPath(l.basePath, j), was, LogPath(l.basePath, j - 1))) &&
    forall path :: !IsLogPath(l, path) ==> SameFile(files, path, was, path)
  }

  predicate IsLogPath(l: Limits, path: string) {
    exists i :: 0 <= i < l.keepFiles && path == LogPath(l.basePath, i)
  }

  /** A Write extends the base file if that is within its limits, and otherwise starts a new one; the start that is
      remembered is that of the base file. */
  ghost predicate WriteShown(before: Log, after: Log, l: Limits, clock: Clock, p: seq<byte>) {
    after.current && l.basePath in after.files && after.size == |after.files[l.basePath]| &&
    if WithinLimits(before, l, clock)
    then Extended(before.files, after.files, l, p) && after.startTime == Started(before, l, clock)
    else MovedUp(before.files, after.files, l, p) && after.startTime == clock.rotated
  }

  lemma SetupShown(log: Log, l: Limits, clock: Clock)
    requires Consistent(log, l)
    ensures var ready := SetupCurrent(log, l, clock);
      ready.current && Consistent(ready, l) && ready.startTime == Started(log, l, clock) && Extended(log.files, ready.files, l, [])
  {
    var base := Content(log.files, l.basePath);
    assert base + [] == base;
  }

  lemma WriteExactly(log: Log, l: Limits, clock: Clock, p: seq<byte>)
    requires Consistent(log, l) && l.keepFiles >= 2
    ensures WriteShown(log, WriteStep(log, l, clock, p), l, clock, p)
  {
    var ready := SetupCurrent(log, l, clock);
    SetupShown(log, l, clock);
    assert WithinLimits(log, l, clock) <==> !ShouldRotate(ready, l, clock);
    if !WithinLimits(log, l, clock) { RotatedWrite(log.files, ready, l, clock, p); }
  }

  lemma RotatedWrite(was: Files, ready: Log, l: Limits, clock: Clock, p: seq<byte>)
    requires Consistent(ready, l) && ready.current && l.keepFiles >= 2 && Extended(was, ready.files, l, [])
    ensures MovedUp(was, Append(RotateLog(ready, l, clock), l, p).files, l, p)
  {
    RotateIsExactShift(ready.files, l);
    var rotated, after := Rotate(ready.files, l), Append(RotateLog(ready, l, clock), l, p).files;
    LaterPath(l, 1);
    assert SameFile(rotated, LogPath(l.basePath, 1), ready.files, LogPath(l.basePath, 0));
    forall j | 2 <= j < l.keepFiles
      ensures SameFile(after, LogPath(l.basePath, j), was, LogPath(l.basePath, j - 1))
    {
      LaterPath(l, j);
      LaterPath(l, j - 1);
      assert SameFile(rotated, LogPath(l.basePath, j), ready.files, LogPath(l.basePath, j - 1));
    }
    assert IsLogPath(l, LogPath(l.basePath, 0));
    forall path | !IsLogPath(l, path)
      ensures SameFile(after, path, was, path)
    {
      assert SameFile(rotated, path, ready.files, path);
    }
  }

  /** The counter is the length of the base file while that is open, and 0 before. */
  predicate Consistent(log: Log, l: Limits) {
    if log.current then l.basePath in log.files && log.size == |log.files[l.basePath]| else log.size == 0
  }

  // --- the objects ---

  class Disk {
    var files: Files

    method FileExists(path: string) returns (found: bool)
      ensures found == (path in files)
    {
      found := path in files;
    }

    method Remove(path: string)
      requires path in files
      modifies this
      ensures files == old(files) - {path}
    {
      files := files - {path};
    }

    method Rename(from: string, to: string)
      requires from in files
      modifies this
      ensures files == RenameFile(old(files), from, to)
    {
      files := RenameFile(files, from, to);
    }

    method Create(path: string)
      modifies this
      ensures files == old(files)[path := []]
    {
      files := files[path := []];
    }

    method Append(path: string, p: seq<byte>)
      requires path in files
      modifies this
      ensures files == old(files)[path := old(files)[path] + p]
    {
      files := files[path := files[path] + p];
    }
  }

  class FileRotator {
    const disk: Disk
    const limits: Limits
    var current: bool
    var size: int
    var startTime: int
    ghost var created: nat

    constructor (disk: Disk, basePath: string, maxSize: int, maxAge: int, keepFiles: nat)
      ensures this.disk == disk && limits == Limits(basePath, maxSize, maxAge, keepFiles)
      ensures State() == Log(disk.files, false, 0, 0, 0) && Consistent(State(), limits)
    {
      this.disk := disk;
      limits := Limits(basePath, maxSize, maxAge, keepFiles);
      current, size, startTime, created := false, 0, 0, 0;
    }

    ghost function State(): Log
      reads this, disk
    {
      Log(disk.files, current, size, startTime, created)
    }

    method SetupCurrentFile(clock: Clock)
      requires Consistent(State(), limits)
      modifies this, disk
      ensures State() == SetupCurrent(old(State()), limits, clock) && current && Consistent(State(), limits)
    {
      if !current {
        var found := disk.FileExists(limits.basePath);
        if found {
          current := true;
          size := |disk.files[limits.basePath]|;
          startTime := clock.modTime;
        } else {
          disk.Create(limits.basePath);
          current := true;
          startTime := clock.created;
          created := created + 1;
        }
      }
    }

    method RotateFiles(clock: Clock)
      requires current && Consistent(State(), limits) && limits.keepFiles >= 1
      modifies this, disk
      ensures State() == RotateLog(old(State()), limits, clock) && Consistent(State(), limits)
    {
      current := false;
      var i: nat := limits.keepFiles - 1;
      ghost var before := disk.files;
      while i > 0
        invariant i <= limits.keepFiles - 1
        invariant Shift(disk.files, limits, i) == Shift(before, limits, limits.keepFiles - 1)
        invariant limits.basePath in disk.files && created == old(created)
      {
        ghost var files := disk.files;
        LaterPath(limits, i);
        var found := disk.FileExists(LogPath(limits.basePath, i));
        if found {
          if i == limits.keepFiles - 1 {
            disk.Remove(LogPath(limits.basePath, i));
          } else {
            disk.Rename(LogPath(limits.basePath, i), LogPath(limits.basePath, i + 1));
          }
        }
        assert disk.files == ShiftStep(files, limits, i);
        i := i - 1;
      }
      disk.Rename(limits.basePath, LogPath(limits.basePath, 1));
      disk.Create(limits.basePath);
      current := true;
      size := 0;
      startTime := clock.rotated;
      created := created + 1;
    }

    method Write(p: seq<byte>, clock: Clock) returns (n: int)
      requires Consistent(State(), limits) && limits.keepFiles >= 1
      modifies this, disk
      ensures State() == WriteStep(old(State()), limits, clock, p) && Consistent(State(), limits)
      ensures limits.keepFiles >= 2 ==> WriteShown(old(State()), State(), limits, clock, p)
      ensures n == |p|
    {
      ghost var before := State();
      if limits.keepFiles >= 2 {
        WriteExactly(before, limits, clock, p);
      }
      SetupCurrentFile(clock);
      if size > limits.maxSize || clock.checked - startTime > limits.maxAge {
        RotateFiles(clock);
      }
      disk.Append(limits.basePath, p);
      n := |p|;
      size := size + n;
    }
  }

  lemma LaterPath(l: Limits, i: nat)
    requires i > 0
    ensures LogPath(l.basePath, i) != l.basePath && LogPath(l.basePath, i + 1) != l.basePath
    ensures LogPath(l.basePath, i) != LogPath(l.basePath, i + 1)
  {
    if LogPath(l.basePath, i) == LogPath(l.basePath, i + 1) {
      LogPathInjective(l.basePath, i, i + 1);
    }
  }

  // --- rotation is an exact shift ---

  /** The files above place `i` have moved up by one, place `i + 1` is free, the rest is as before. */
  ghost predicate MovedAbove(was: Files, files: Files, l: Limits, i: int) {
    -1 <= i < l.keepFiles - 1 &&
    (forall j :: i + 2 <= j < l.keepFiles ==> SameFile(files, LogPath(l.basePath, j), was, LogPath(l.basePath, j - 1))) &&
    LogPath(l.basePath, i + 1) !in files &&
    (forall j :: 0 <= j <= i ==> SameFile(files, LogPath(l.basePath, j), was, LogPath(l.basePath, j))) &&
    (forall path :: !IsLogPath(l, path) ==> SameFile(files, path, was, path))
  }

  /** The state of the files after all rounds above `i`. */
  ghost predicate ShiftedAbove(was: Files, files: Files, l: Limits, i: nat) {
    if i == l.keepFiles - 1 then files == was else MovedAbove(was, files, l, i)
  }

  /** A round renames onto a free name only and moves exactly one file. */
  lemma ShiftStepMoves(was: Files, files: Files, l: Limits, i: nat)
    requires l.keepFiles >= 2 && 1 <= i < l.keepFiles && ShiftedAbove(was, files, l, i)
    ensures MovedAbove(was, ShiftStep(files, l, i), l, i - 1)
    ensures LogPath(l.basePath, i) in files && i < l.keepFiles - 1 ==> LogPath(l.basePath, i + 1) !in files
  {
    var after := ShiftStep(files, l, i);
    forall j | 0 <= j < l.keepFiles
      ensures j != i ==> LogPath(l.basePath, j) != LogPath(l.basePath, i)
      ensures j != i + 1 ==> LogPath(l.basePath, j) != LogPath(l.basePath, i + 1)
    {
      if LogPath(l.basePath, j) == LogPath(l.basePath, i) { LogPathInjective(l.basePath, j, i); }
      if LogPath(l.basePath, j) == LogPath(l.basePath, i + 1) { LogPathInjective(l.basePath, j, i + 1); }
    }
    LaterPath(l, i);
    assert IsLogPath(l, LogPath(l.basePath, i));
    assert i + 1 < l.keepFiles ==> IsLogPath(l, LogPath(l.basePath, i + 1));
  }

  lemma {:induction false} ShiftMoves(was: Files, files: Files, l: Limits, i: nat)
    requires l.keepFiles >= 2 && i < l.keepFiles && ShiftedAbove(was, files, l, i)
    ensures MovedAbove(was, Shift(files, l, i), l, 0)
    decreases i
  {
    if i > 0 {
      ShiftStepMoves(was, files, l, i);
      ShiftMoves(was, ShiftStep(files, l, i), l, i - 1);
    }
  }

  /** Moving the base file up: again the target name is free. */
  lemma BaseMoves(was: Files, files: Files, l: Limits)
    requires l.keepFiles >= 2 && l.basePath in files && MovedAbove(was, files, l, 0)
    ensures LogPath(l.basePath, 1) !in files
    ensures MovedAbove(was, RenameFile(files, l.basePath, LogPath(l.basePath, 1)), l, -1)
  {
    forall j | 1 <= j < l.keepFiles
      ensures LogPath(l.basePath, j) != l.basePath && (j != 1 ==> LogPath(l.basePath, j) != LogPath(l.basePath, 1))
    {
      LaterPath(l, j);
      if LogPath(l.basePath, j) == LogPath(l.basePath, 1) { LogPathInjective(l.basePath, j, 1); }
    }
    assert IsLogPath(l, LogPath(l.basePath, 1)) && IsLogPath(l, LogPath(l.basePath, 0));
  }

  /** Rotation moves file i to i + 1 for every i below the last, drops the last, leaves an empty base file and
      touches nothing else, whatever gaps there are. */
  lemma RotateIsExactShift(files: Files, l: Limits)
    requires l.keepFiles >= 2 && l.basePath in files
    ensures var after := Rotate(files, l);
      l.basePath in after && after[l.basePath] == [] &&
      (forall j :: 1 <= j < l.keepFiles ==> SameFile(after, LogPath(l.basePath, j), files, LogPath(l.basePath, j - 1))) &&
      (forall path :: !IsLogPath(l, path) ==> SameFile(after, path, files, path))
  {
    ShiftMoves(files, files, l, l.keepFiles - 1);
    var shifted := ShiftBackups(files, l);
    assert SameFile(shifted, LogPath(l.basePath, 0), files, LogPath(l.basePath, 0));
    BaseMoves(files, shifted, l);
    assert IsLogPath(l, LogPath(l.basePath, 0));
    forall j | 1 <= j < l.keepFiles
      ensures LogPath(l.basePath, j) != l.basePath
    {
      LaterPath(l, j);
    }
  }

  /** With a single file to keep the loop has no round, and the base file replaces an existing first backup. The
      constructor always keeps five, so this cannot happen to a rotator it made. */
  lemma SingleFileClobbers(files: Files, l: Limits)
    requires l.keepFiles == 1 && l.basePath in files && LogPath(l.basePath, 1) in files
    ensures Rotate(files, l) == files[LogPath(l.basePath, 1) := files[l.basePath]][l.basePath := []]
  {
    LaterPath(l, 1);
  }

  // --- what is kept ---

  /** The first `n` files in one piece: the oldest backup first, the base file last. */
  function Retained(files: Files, l: Limits, n: nat): seq<byte> {
    if n == 0 then [] else Content(files, LogPath(l.basePath, n - 1)) + Retained(files, l, n - 1)
  }

  lemma {:induction false} RetainedSame(f: Files, g: Files, l: Limits, n: nat)
    requires forall j :: 0 <= j < n ==> SameFile(f, LogPath(l.basePath, j), g, LogPath(l.basePath, j))
    ensures Retained(f, l, n) == Retained(g, l, n)
  {
    if n > 0 { RetainedSame(f, g, l, n - 1); }
  }

  lemma {:induction false} RetainedMoved(was: Files, files: Files, l: Limits, i: int, n: nat)
    requires MovedAbove(was, files, l, i) && i + 1 <= n < l.keepFiles
    ensures Retained(files, l, n + 1) == Retained(was, l, n)
    decreases n
  {
    if n == i + 1 {
      RetainedSame(files, was, l, n);
    } else {
      RetainedMoved(was, files, l, i, n - 1);
      assert SameFile(files, LogPath(l.basePath, n), was, LogPath(l.basePath, n - 1));
    }
  }

  /** All states of the disk during a rotation: after each round, after the rename and after the create. */
  function ShiftStates(files: Files, l: Limits, i: nat): seq<Files>
    decreases i
  {
    if i == 0 then [files] else [files] + ShiftStates(ShiftStep(files, l, i), l, i - 1)
  }

  function RotationStates(files: Files, l: Limits): seq<Files>
    requires l.basePath in files && l.keepFiles >= 1
  {
    var shifted := ShiftBackups(files, l);
    ShiftStates(files, l, l.keepFiles - 1) +
    (if l.basePath in shifted then [RenameFile(shifted, l.basePath, LogPath(l.basePath, 1))] else []) +
    [Rotate(files, l)]
  }

  /** At no point of a rotation has more been lost than the oldest file. */
  ghost predicate LostAtMostOldest(was: Files, files: Files, l: Limits) {
    l.keepFiles >= 1 &&
    (Retained(files, l, l.keepFiles) == Retained(was, l, l.keepFiles) ||
     Retained(files, l, l.keepFiles) == Retained(was, l, l.keepFiles - 1))
  }

  lemma {:induction false} ShiftStatesLose(was: Files, files: Files, l: Limits, i: nat)
    requires l.keepFiles >= 2 && i < l.keepFiles && ShiftedAbove(was, files, l, i)
    ensures forall s :: s in ShiftStates(files, l, i) ==> LostAtMostOldest(was, s, l)
    decreases i
  {
    if i < l.keepFiles - 1 { RetainedMoved(was, files, l, i, l.keepFiles - 1); }
    if i > 0 {
      ShiftStepMoves(was, files, l, i);
      ShiftStatesLose(was, ShiftStep(files, l, i), l, i - 1);
    }
  }

  lemma RotationLosesAtMostOldest(files: Files, l: Limits)
    requires l.keepFiles >= 2 && l.basePath in files
    ensures forall s :: s in RotationStates(files, l) ==> LostAtMostOldest(files, s, l)
  {
    ShiftStatesLose(files, files, l, l.keepFiles - 1);
    ShiftMoves(files, files, l, l.keepFiles - 1);
    var shifted := ShiftBackups(files, l);
    assert SameFile(shifted, LogPath(l.basePath, 0), files, LogPath(l.basePath, 0));
    BaseMoves(files, shifted, l);
    var renamed := RenameFile(shifted, l.basePath, LogPath(l.basePath, 1));
    RetainedMoved(files, renamed, l, -1, l.keepFiles - 1);
    RotateRetains(files, l);
  }

  /** A longer base file makes what is kept longer at the end. */
  lemma {:induction false} RetainedWithBase(f: Files, g: Files, l: Limits, n: nat, p: seq<byte>)
    requires 1 <= n <= l.keepFiles && Content(f, l.basePath) == Content(g, l.basePath) + p
    requires forall j :: 1 <= j < n ==> SameFile(f, LogPath(l.basePath, j), g, LogPath(l.basePath, j))
    ensures Retained(f, l, n) == Retained(g, l, n) + p
  {
    if n > 1 {
      RetainedWithBase(f, g, l, n - 1, p);
      assert SameFile(f, LogPath(l.basePath, n - 1), g, LogPath(l.basePath, n - 1));
    } else {
      assert Retained(f, l, 0) == [] && Retained(g, l, 0) == [];
    }
  }

  /** A rotation drops exactly the oldest file. */
  lemma RotateRetains(files: Files, l: Limits)
    requires l.keepFiles >= 2 && l.basePath in files
    ensures Retained(Rotate(files, l), l, l.keepFiles) == Retained(files, l, l.keepFiles - 1)
  {
    RotateIsExactShift(files, l);
    RetainedShifted(files, Rotate(files, l), l, l.keepFiles - 1);
  }

  lemma {:induction false} RetainedShifted(was: Files, files: Files, l: Limits, n: nat)
    requires n < l.keepFiles && l.basePath in files && files[l.basePath] == []
    requires forall j :: 1 <= j < l.keepFiles ==>
      SameFile(files, LogPath(l.basePath, j), was, LogPath(l.basePath, j - 1))
    ensures Retained(files, l, n + 1) == Retained(was, l, n)
  {
    if n > 0 {
      RetainedShifted(was, files, l, n - 1);
      assert SameFile(files, LogPath(l.basePath, n), was, LogPath(l.basePath, n - 1));
    } else {
      assert Retained(files, l, 0) == [];
    }
  }

  lemma AppendRetains(log: Log, l: Limits, p: seq<byte>)
    requires l.keepFiles >= 1 && l.basePath in log.files
    ensures Retained(Append(log, l, p).files, l, l.keepFiles) == Retained(log.files, l, l.keepFiles) + p
  {
    var f := Append(log, l, p).files;
    forall j | 1 <= j < l.keepFiles
      ensures SameFile(f, LogPath(l.basePath, j), log.files, LogPath(l.basePath, j))
    {
      LaterPath(l, j);
    }
    RetainedWithBase(f, log.files, l, l.keepFiles, p);
  }

  // --- whole runs ---

  datatype Entry = Entry(p: seq<byte>, clock: Clock)

  function Run(log: Log, l: Limits, entries: seq<Entry>): Log {
    if entries == [] then log else
      var e := entries[|entries| - 1];
      WriteStep(Run(log, l, entries[..|entries| - 1]), l, e.clock, e.p)
  }

  function Written(entries: seq<Entry>): seq<byte> {
    if entries == [] then [] else Written(entries[..|entries| - 1]) + entries[|entries| - 1].p
  }

  /** The file that a Write drops, as a list of at most one whole file. */
  function DroppedBy(log: Log, l: Limits, clock: Clock): seq<seq<byte>> {
    var ready := SetupCurrent(log, l, clock);
    if ShouldRotate(ready, l, clock) && l.keepFiles >= 1 then [Content(ready.files, LogPath(l.basePath, l.keepFiles - 1))] else []
  }

  function Dropped(log: Log, l: Limits, entries: seq<Entry>): seq<seq<byte>> {
    if entries == [] then [] else
      Dropped(log, l, entries[..|entries| - 1]) +
      DroppedBy(Run(log, l, entries[..|entries| - 1]), l, entries[|entries| - 1].clock)
  }

  function Concat(pieces: seq<seq<byte>>): seq<byte> {
    if pieces == [] then [] else Concat(pieces[..|pieces| - 1]) + pieces[|pieces| - 1]
  }

  lemma SetupRetains(log: Log, l: Limits, clock: Clock)
    requires l.keepFiles >= 1 && Consistent(log, l)
    ensures var ready := SetupCurrent(log, l, clock);
      Consistent(ready, l) && ready.current && Retained(ready.files, l, l.keepFiles) == Retained(log.files, l, l.keepFiles)
  {
    var ready := SetupCurrent(log, l, clock);
    forall j | 1 <= j < l.keepFiles
      ensures SameFile(ready.files, LogPath(l.basePath, j), log.files, LogPath(l.basePath, j))
    {
      LaterPath(l, j);
    }
    RetainedWithBase(ready.files, log.files, l, l.keepFiles, []);
  }

  lemma RotatedWriteRetains(ready: Log, l: Limits, clock: Clock, p: seq<byte>)
    requires l.keepFiles >= 2 && Consistent(ready, l) && ready.current
    ensures var after := Append(RotateLog(ready, l, clock), l, p);
      Consistent(after, l) && after.current &&
      Retained(ready.files, l, l.keepFiles) + p ==
        Content(ready.files, LogPath(l.basePath, l.keepFiles - 1)) + Retained(after.files, l, l.keepFiles)
  {
    var older, oldest := Retained(ready.files, l, l.keepFiles - 1), Content(ready.files, LogPath(l.basePath, l.keepFiles - 1));
    RotatedIsOpen(ready, l, clock);
    RotateRetains(ready.files, l);
    AppendRetains(RotateLog(ready, l, clock), l, p);
    assert (oldest + older) + p == oldest + (older + p);
  }

  lemma RotatedIsOpen(ready: Log, l: Limits, clock: Clock)
    requires l.keepFiles >= 2 && Consistent(ready, l) && ready.current
    ensures var rotated := RotateLog(ready, l, clock);
      l.basePath in rotated.files && rotated.files[l.basePath] == [] && Consistent(rotated, l)
  {
    RotateIsExactShift(ready.files, l);
  }

  lemma WriteRetains(log: Log, l: Limits, clock: Clock, p: seq<byte>)
    requires l.keepFiles >= 2 && Consistent(log, l)
    ensures var after := WriteStep(log, l, clock, p);
      Consistent(after, l) && after.current &&
      Retained(log.files, l, l.keepFiles) + p == Concat(DroppedBy(log, l, clock)) + Retained(after.files, l, l.keepFiles)
  {
    var ready := SetupCurrent(log, l, clock);
    SetupRetains(log, l, clock);
    if ShouldRotate(ready, l, clock) {
      RotatedWriteRetains(ready, l, clock, p);
      SinglePiece(Content(ready.files, LogPath(l.basePath, l.keepFiles - 1)));
    } else {
      AppendRetains(ready, l, p);
    }
  }

  lemma SinglePiece(piece: seq<byte>)
    ensures Concat([piece]) == piece
  {
    assert [piece][..0] == [] && Concat([]) == [];
  }

  /** Conservation: what the run started with and what it wrote is the dropped files, each whole, followed by what
      is still there; and the counter always knows the base file's length. */
  lemma {:induction false} LogConservation(log: Log, l: Limits, entries: seq<Entry>)
    requires l.keepFiles >= 2 && Consistent(log, l)
    ensures Consistent(Run(log, l, entries), l)
    ensures Retained(log.files, l, l.keepFiles) + Written(entries) ==
      Concat(Dropped(log, l, entries)) + Retained(Run(log, l, entries).files, l, l.keepFiles)
  {
    if entries != [] {
      var front, e := entries[..|entries| - 1], entries[|entries| - 1];
      LogConservation(log, l, front);
      var mid := Run(log, l, front);
      WriteRetains(mid, l, e.clock, e.p);
      ConcatAppend(Dropped(log, l, front), DroppedBy(mid, l, e.clock));
      Rearranged(Retained(log.files, l, l.keepFiles), Written(front), e.p,
                 Concat(Dropped(log, l, front)), Retained(mid.files, l, l.keepFiles),
                 Concat(DroppedBy(mid, l, e.clock)), Retained(Run(log, l, entries).files, l, l.keepFiles));
    }
  }

  lemma Rearranged(k: seq<byte>, w: seq<byte>, p: seq<byte>, d: seq<byte>, m: seq<byte>, x: seq<byte>, y: seq<byte>)
    requires k + w == d + m && m + p == x + y
    ensures k + (w + p) == (d + x) + y
  {
    assert k + (w + p) == (k + w) + p == d + (m + p);
  }

  lemma {:induction false} ConcatAppend(a: seq<seq<byte>>, b: seq<seq<byte>>)
    ensures Concat(a + b) == Concat(a) + Concat(b)
  {
    if b == [] {
      assert a + b == a;
    } else {
      assert (a + b)[..|a + b| - 1] == a + b[..|b| - 1];
      ConcatAppend(a, b[..|b| - 1]);
    }
  }

  /** Files that are not part of the log are never touched. */
  lemma {:induction false} OtherFilesUntouched(log: Log, l: Limits, entries: seq<Entry>, path: string)
    requires l.keepFiles >= 2 && Consistent(log, l) && !IsLogPath(l, path)
    ensures SameFile(Run(log, l, entries).files, path, log.files, path)
  {
    assert IsLogPath(l, LogPath(l.basePath, 0));
    if entries != [] {
      var front, e := entries[..|entries| - 1], entries[|entries| - 1];
      OtherFilesUntouched(log, l, front, path);
      LogConservation(log, l, front);
      var ready := SetupCurrent(Run(log, l, front), l, e.clock);
      SetupRetains(Run(log, l, front), l, e.clock);
      RotateIsExactShift(ready.files, l);
    }
  }

  /** No Write of the run finds the base file too long or too old. */
  ghost predicate StaysWithin(log: Log, l: Limits, entries: seq<Entry>) {
    forall i :: 0 <= i < |entries| ==>
      |Content(log.files, l.basePath) + Written(entries[..i])| <= l.maxSize &&
      entries[i].clock.checked - Started(log, l, entries[0].clock) <= l.maxAge
  }

  lemma StaysLonger(log: Log, l: Limits, entries: seq<Entry>)
    requires entries != []
    ensures var front, last := entries[..|entries| - 1], entries[|entries| - 1];
      StaysWithin(log, l, entries) <==>
      (StaysWithin(log, l, front) && |Content(log.files, l.basePath) + Written(front)| <= l.maxSize &&
       last.clock.checked - Started(log, l, entries[0].clock) <= l.maxAge)
  {
    var n := |entries| - 1;
    assert forall i :: 0 <= i < n ==> entries[..n][..i] == entries[..i] && entries[..n][i] == entries[i];
  }

  /** The log after a run that only extended the base file. */
  ghost predicate OnlyExtended(log: Log, after: Log, l: Limits, entries: seq<Entry>) {
    Consistent(after, l) &&
    if entries == [] then after == log
    else Extended(log.files, after.files, l, Written(entries)) && after.current && after.startTime == Started(log, l, entries[0].clock)
  }

  /** No Write of a run rotates exactly if no limit is ever exceeded; the run then only extends the base file. */
  lemma {:induction false} DropsNothingExactly(log: Log, l: Limits, entries: seq<Entry>)
    requires l.keepFiles >= 2 && Consistent(log, l)
    ensures Dropped(log, l, entries) == [] <==> StaysWithin(log, l, entries)
    ensures StaysWithin(log, l, entries) ==> OnlyExtended(log, Run(log, l, entries), l, entries)
  {
    if entries != [] {
      var front, e := entries[..|entries| - 1], entries[|entries| - 1];
      DropsNothingExactly(log, l, front);
      StaysLonger(log, l, entries);
      LogConservation(log, l, front);
      DropsExactly(Run(log, l, front), l, e.clock);
      if StaysWithin(log, l, front) { ExtendedStep(log, Run(log, l, front), l, entries); }
    }
  }

  lemma ExtendedTwice(was: Files, mid: Files, files: Files, l: Limits, w: seq<byte>, p: seq<byte>)
    requires Extended(was, mid, l, w) && Extended(mid, files, l, p)
    ensures Extended(was, files, l, w + p)
  {
    assert (Content(was, l.basePath) + w) + p == Content(was, l.basePath) + (w + p);
  }

  lemma ExtendedStep(log: Log, mid: Log, l: Limits, entries: seq<Entry>)
    requires l.keepFiles >= 2 && entries != [] && Consistent(log, l)
    requires OnlyExtended(log, mid, l, entries[..|entries| - 1])
    ensures var front, e := entries[..|entries| - 1], entries[|entries| - 1];
      WithinLimits(mid, l, e.clock) <==> (|Content(log.files, l.basePath) + Written(front)| <= l.maxSize &&
                                          e.clock.checked - Started(log, l, entries[0].clock) <= l.maxAge)
    ensures var e := entries[|entries| - 1];
      WithinLimits(mid, l, e.clock) ==> OnlyExtended(log, WriteStep(mid, l, e.clock, e.p), l, entries)
  {
    var front, e := entries[..|entries| - 1], entries[|entries| - 1];
    if front == [] {
      assert Written(front) == [] && entries[0] == e;
    } else {
      assert front[0] == entries[0];
    }
    WriteExactly(mid, l, e.clock, e.p);
    ExtendedShown(log, mid, WriteStep(mid, l, e.clock, e.p), l, entries);
  }

  lemma ExtendedShown(log: Log, mid: Log, after: Log, l: Limits, entries: seq<Entry>)
    requires entries != [] && OnlyExtended(log, mid, l, entries[..|entries| - 1])
    requires WriteShown(mid, after, l, entries[|entries| - 1].clock, entries[|entries| - 1].p)
    ensures WithinLimits(mid, l, entries[|entries| - 1].clock) ==> OnlyExtended(log, after, l, entries)
  {
    var front, e := entries[..|entries| - 1], entries[|entries| - 1];
    if WithinLimits(mid, l, e.clock) {
      if front == [] {
        assert Written(entries) == Written(front) + e.p == e.p;
      } else {
        assert front[0] == entries[0];
        ExtendedTwice(log.files, mid.files, after.files, l, Written(front), e.p);
      }
    }
  }

  lemma DropsExactly(log: Log, l: Limits, clock: Clock)
    requires Consistent(log, l) && l.keepFiles >= 2
    ensures DroppedBy(log, l, clock) == [] <==> WithinLimits(log, l, clock)
  {
    SetupShown(log, l, clock);
  }

  function Longest(entries: seq<Entry>): nat {
    if entries == [] then 0 else
      var m := Longest(entries[..|entries| - 1]);
      if |entries[|entries| - 1].p| > m then |entries[|entries| - 1].p| else m
  }

  /** The size limit, never below zero, and one write on top of it. */
  function SizeBound(l: Limits, longest: nat): nat {
    (if l.maxSize > 0 then l.maxSize else 0) + longest
  }

  /** The files created since the start are the newest ones, and all of them are bounded. */
  ghost predicate CreatedBounded(log: Log, l: Limits, bound: nat) {
    forall i :: 0 <= i < log.created && i < l.keepFiles && LogPath(l.basePath, i) in log.files ==>
      |log.files[LogPath(l.basePath, i)]| <= bound
  }

  lemma SetupBounded(log: Log, l: Limits, clock: Clock, bound: nat)
    requires CreatedBounded(log, l, bound) && Consistent(log, l) && l.keepFiles >= 1
    requires log.created > 0 ==> log.current
    ensures CreatedBounded(SetupCurrent(log, l, clock), l, bound)
  {
    if !log.current && l.basePath !in log.files {
      var ready := SetupCurrent(log, l, clock);
      forall i | 0 <= i < ready.created && i < l.keepFiles && LogPath(l.basePath, i) in ready.files
        ensures |ready.files[LogPath(l.basePath, i)]| <= bound
      {
        assert i == 0;
      }
    }
  }

  lemma WriteBounded(log: Log, l: Limits, clock: Clock, p: seq<byte>, longest: nat)
    requires l.keepFiles >= 2 && Consistent(log, l) && |p| <= longest
    requires CreatedBounded(log, l, SizeBound(l, longest)) && (log.created > 0 ==> log.current)
    ensures CreatedBounded(WriteStep(log, l, clock, p), l, SizeBound(l, longest))
  {
    var bound := SizeBound(l, longest);
    var ready := SetupCurrent(log, l, clock);
    SetupBounded(log, l, clock, bound);
    SetupRetains(log, l, clock);
    var after := WriteStep(log, l, clock, p);
    RotateIsExactShift(ready.files, l);
    forall i | 0 <= i < after.created && i < l.keepFiles && LogPath(l.basePath, i) in after.files
      ensures |after.files[LogPath(l.basePath, i)]| <= bound
    {
      if i > 0 {
        LaterPath(l, i);
        if ShouldRotate(ready, l, clock) {
          assert SameFile(Rotate(ready.files, l), LogPath(l.basePath, i), ready.files, LogPath(l.basePath, i - 1));
        }
      }
    }
  }

  /** Every file created in the run holds at most the size limit and one write. */
  lemma {:induction false} CreatedFilesBounded(log: Log, l: Limits, entries: seq<Entry>, longest: nat)
    requires l.keepFiles >= 2 && Consistent(log, l) && log.created == 0 && Longest(entries) <= longest
    ensures CreatedBounded(Run(log, l, entries), l, SizeBound(l, longest))
    ensures Run(log, l, entries).created > 0 ==> Run(log, l, entries).current
  {
    if entries != [] {
      var front, e := entries[..|entries| - 1], entries[|entries| - 1];
      CreatedFilesBounded(log, l, front, longest);
      LogConservation(log, l, front);
      WriteBounded(Run(log, l, front), l, e.clock, e.p, longest);
      WriteRetains(Run(log, l, front), l, e.clock, e.p);
    }
  }
}
