/** The rotating log: append to the live file, then, once it has grown to the limit, drop the
    oldest archive and rename every file one slot up. Any file operation may fail. */
module TraceLog {
  import opened Sequences
  import opened HexDump

  /** One formatted line of the log. */
  type Entry = string
  type File = seq<Entry>

  /** base.log, or base.log_k. */
  datatype Name = Live | Archive(k: nat)
  type Disk = map<Name, File>

  /** The file in slot i of the rotation. */
  function NameOf(i: nat): Name { if i == 0 then Live else Archive(i) }

  function Size(f: File): nat { if f == [] then 0 else Size(f[..|f| - 1]) + |f[|f| - 1]| }

  /** Which operations fail, without effect, during one write: opening the live file, reading its
      status, removing the oldest archive, renaming the file of slot i. */
  datatype Faults = Faults(open: bool, stat: bool, remove: bool, rename: set<nat>)

  const NO_FAULTS := Faults(false, false, false, {})

  datatype Outcome = Outcome(disk: Disk, code: int)

  // ----- what one write does -----

  function Appended(d: Disk, e: Entry): Disk {
    d[Live := (if Live in d then d[Live] else []) + [e]]
  }

  function Renamed(d: Disk, from: Name, to: Name): Disk
    requires from in d
  {
    (d - {from})[to := d[from]]
  }

  /** Renames slots i, i - 1, ..., 0 one up, skipping empty ones, until one rename fails. */
  function ShiftDown(d: Disk, i: int, rename: set<nat>): Outcome
    requires i >= -1
    decreases i
  {
    if i < 0 then Outcome(d, 0)
    else if NameOf(i) !in d then ShiftDown(d, i - 1, rename)
    else if i in rename then Outcome(d, -1)
    else ShiftDown(Renamed(d, NameOf(i), NameOf(i + 1)), i - 1, rename)
  }

  function Shift(d: Disk, n: nat, limit: nat, f: Faults): Outcome
    requires n >= 1
  {
    if f.stat || Live !in d then Outcome(d, -1)
    else if Size(d[Live]) < limit then Outcome(d, 0)
    else if Archive(n - 1) !in d then ShiftDown(d, n - 2, f.rename)
    else if f.remove then Outcome(d, -1)
    else ShiftDown(d - {Archive(n - 1)}, n - 2, f.rename)
  }

  function Write(d: Disk, n: nat, limit: nat, e: Entry, f: Faults): Outcome
    requires n >= 1
  {
    if f.open then Outcome(d, -1) else Shift(Appended(d, e), n, limit, f)
  }

  // ----- the logger -----

  class MagicTrace {
    var logSize: nat
    var logNum: nat
    /** The directory the log lives in. */
    var disk: Disk
    /** How many renames so far replaced an existing file. */
    ghost var overwrites: nat

    ghost predicate Valid()
      reads this
    {
      logSize >= 1 && logNum >= 1
    }

    constructor (files: Disk)
      ensures disk == files && overwrites == 0
    {
      disk, overwrites, logSize, logNum := files, 0, 0, 0;
    }

    method Init(maxLogSize: int, maxLogNum: int) returns (code: int)
      modifies this`logSize, this`logNum
      ensures code == 0 <==> maxLogSize >= 1 && maxLogNum >= 1
      ensures code == 0 ==> Valid() && logSize == maxLogSize && logNum == maxLogNum
      ensures code != 0 ==> code == -1 && logSize == old(logSize) && logNum == old(logNum)
    {
      if maxLogSize < 1 || maxLogNum < 1 { return -1; }
      logSize := maxLogSize;
      logNum := maxLogNum;
      return 0;
    }

    /** rename(2): replaces the target if there is one. */
    method Rename(from: Name, to: Name, fails: bool) returns (ok: bool)
      requires from in disk
      modifies this`disk, this`overwrites
      ensures ok == !fails
      ensures disk == if fails then old(disk) else Renamed(old(disk), from, to)
      ensures overwrites == old(overwrites) + if !fails && to in old(disk) then 1 else 0
    {
      if fails { return false; }
      if to in disk { overwrites := overwrites + 1; }
      disk := Renamed(disk, from, to);
      return true;
    }

    method ShiftFiles(f: Faults) returns (code: int)
      requires Valid()
      modifies this`disk, this`overwrites
      ensures var o := Shift(old(disk), logNum, logSize, f); disk == o.disk && code == o.code
      ensures overwrites == old(overwrites)
    {
      if f.stat || Live !in disk { return -1; }
      if Size(disk[Live]) < logSize { return 0; }
      var oldest := Archive(logNum - 1);
      if oldest in disk {
        if f.remove { return -1; }
        disk := disk - {oldest};
      }
      var i: int := logNum - 2;
      ghost var goal := ShiftDown(disk, i, f.rename);
      while i >= 0
        invariant -1 <= i <= logNum - 2
        invariant logNum >= 2 ==> NameOf(i + 1) !in disk
        invariant ShiftDown(disk, i, f.rename) == goal
        invariant overwrites == old(overwrites)
      {
        if NameOf(i) in disk {
          var ok := Rename(NameOf(i), NameOf(i + 1), i in f.rename);
          if !ok { return -1; }
        }
        i := i - 1;
      }
      return 0;
    }

    method WriteMsg(time: string, msg: string, f: Faults) returns (code: int)
      requires Valid()
      modifies this`disk, this`overwrites
      ensures var o := Write(old(disk), logNum, logSize, Line(time, msg), f); disk == o.disk && code == o.code
      ensures overwrites == old(overwrites)
    {
      if f.open { return -1; }
      disk := disk[Live := (if Live in disk then disk[Live] else []) + [Line(time, msg)]];
      code := ShiftFiles(f);
    }

    /** Dumps the first len bytes of a buffer: the header and then row by row, each a message of its
        own. Message k is written at time(k), with the failures faults(k); what WriteMsg returns is
        ignored. */
    method WriteBinTrace(file: string, line: nat, buf: seq<Byte>, len: int,
                         time: nat -> string, faults: nat -> Faults)
      requires Valid() && len <= |buf|
      modifies this`disk, this`overwrites
      ensures var msgs := Messages(file, line, if len < 0 then [] else buf[..len]);
              disk == Run(old(disk), logNum, logSize, Sends(msgs, time, faults))
      ensures overwrites == old(overwrites)
    {
      var data := if len < 0 then [] else buf[..len];
      var curPos, sent := 0, 1;
      ghost var cuts: seq<Cut>, msgs := [], [Header(file, line)];
      var _ := WriteMsg(time(0), Header(file, line), faults(0));
      OneSend(old(disk), logNum, logSize, Header(file, line), time, faults);
      while curPos < len
        invariant 0 <= curPos && sent == |msgs|
        invariant msgs == [Header(file, line)] + Rows(cuts)
        invariant cuts + CutsFrom(data, curPos) == CutsFrom(data, 0)
        invariant disk == Run(old(disk), logNum, logSize, Sends(msgs, time, faults))
        invariant overwrites == old(overwrites)
        decreases len - curPos
      {
        var row := FormatRow(data, curPos);
        var _ := WriteMsg(time(sent), row, faults(sent));
        OneMoreSend(old(disk), logNum, logSize, msgs, row, time, faults);
        NextCut(data, curPos, cuts, [Header(file, line)]);
        msgs, cuts := msgs + [row], cuts + [CutAt(data, curPos)];
        sent := sent + 1;
        curPos := curPos + ROW_LENGTH;
      }
      EmptyIsNeutral(cuts);
    }
  }

  function Line(time: string, msg: string): Entry { "[" + time + "] " + msg + "\n" }

  /** What a logged line holds: the time in brackets, a space, the message, a line feed. */
  lemma LineLayout(time: string, msg: string)
    ensures var l, t := Line(time, msg), |time|;
            && |l| == t + |msg| + 4
            && l[0] == '[' && l[1..t + 1] == time && l[t + 1] == ']' && l[t + 2] == ' '
            && l[t + 3..|l| - 1] == msg && l[|l| - 1] == '\n'
  {
  }

  // ----- reading the log back -----

  function Slot(d: Disk, i: nat): File { if NameOf(i) in d then d[NameOf(i)] else [] }

  /** Slots n - 1 down to 0, oldest entries first. */
  function ReadBack(d: Disk, n: nat): File {
    if n == 0 then [] else Slot(d, n - 1) + ReadBack(d, n - 1)
  }

  lemma {:induction false} ReadBackLow(d: Disk, d': Disk, n: nat)
    requires forall i :: 0 <= i < n ==> Slot(d, i) == Slot(d', i)
    ensures ReadBack(d, n) == ReadBack(d', n)
  {
    if n > 0 { ReadBackLow(d, d', n - 1); }
  }

  /** Moving slot i into the empty slot above it does not change what is read. */
  lemma {:induction false} ReadBackAfterRename(d: Disk, i: nat, n: nat)
    requires NameOf(i) in d && NameOf(i + 1) !in d && i + 1 < n
    ensures ReadBack(Renamed(d, NameOf(i), NameOf(i + 1)), n) == ReadBack(d, n)
  {
    var d' := Renamed(d, NameOf(i), NameOf(i + 1));
    if n == i + 2 {
      ReadBackLow(d, d', i);
      assert Slot(d, i + 1) == [] && Slot(d', i) == [] && Slot(d', i + 1) == Slot(d, i);
      assert ReadBack(d', n) == Slot(d', i + 1) + (Slot(d', i) + ReadBack(d', i));
      assert ReadBack(d, n) == Slot(d, i + 1) + (Slot(d, i) + ReadBack(d, i));
    } else {
      ReadBackAfterRename(d, i, n - 1);
    }
  }

  /** Wherever the renaming stops, no entry is lost, repeated or reordered. */
  lemma {:induction false} ShiftDownKeepsEntries(d: Disk, i: int, rename: set<nat>, n: nat)
    requires -1 <= i < n - 1 && (n >= 2 ==> NameOf(i + 1) !in d)
    ensures ReadBack(ShiftDown(d, i, rename).disk, n) == ReadBack(d, n)
    decreases i
  {
    if i >= 0 {
      if NameOf(i) !in d {
        ShiftDownKeepsEntries(d, i - 1, rename, n);
      } else if i !in rename {
        ReadBackAfterRename(d, i, n);
        ShiftDownKeepsEntries(Renamed(d, NameOf(i), NameOf(i + 1)), i - 1, rename, n);
      }
    }
  }

  lemma {:induction false} ReadBackAppended(d: Disk, e: Entry, n: nat)
    requires n >= 1
    ensures ReadBack(Appended(d, e), n) == ReadBack(d, n) + [e]
  {
    if n == 1 {
      assert ReadBack(d, 1) == Slot(d, 0) && ReadBack(Appended(d, e), 1) == Slot(d, 0) + [e];
    } else {
      ReadBackAppended(d, e, n - 1);
      assert Slot(Appended(d, e), n - 1) == Slot(d, n - 1);
    }
  }

  /** What one write drops: the oldest archive, if it exists, the live file has reached the limit
      and nothing fails before the removal. */
  function Dropped(d: Disk, n: nat, limit: nat, f: Faults): File
    requires n >= 1
  {
    if n >= 2 && !f.stat && Live in d && Size(d[Live]) >= limit && !f.remove then Slot(d, n - 1) else []
  }

  lemma ShiftDropsOldest(d: Disk, n: nat, limit: nat, f: Faults)
    requires n >= 1
    ensures Dropped(d, n, limit, f) + ReadBack(Shift(d, n, limit, f).disk, n) == ReadBack(d, n)
  {
    if f.stat || Live !in d || Size(d[Live]) < limit {
    } else if Archive(n - 1) !in d {
      ShiftDownKeepsEntries(d, n - 2, f.rename, n);
    } else if !f.remove {
      var d' := d - {Archive(n - 1)};
      ShiftDownKeepsEntries(d', n - 2, f.rename, n);
      if n == 1 {
        assert ReadBack(d', 1) == Slot(d', 0) == Slot(d, 0) == ReadBack(d, 1);
      } else {
        ReadBackLow(d, d', n - 1);
        assert Slot(d', n - 1) == [];
      }
    }
  }

  // ----- whole runs -----

  datatype Op = Op(entry: Entry, faults: Faults)

  function Run(d: Disk, n: nat, limit: nat, ops: seq<Op>): Disk
    requires n >= 1
  {
    if ops == [] then d
    else
      var last := ops[|ops| - 1];
      Write(Run(d, n, limit, ops[..|ops| - 1]), n, limit, last.entry, last.faults).disk
  }

  /** The entries whose append succeeded, in order. */
  function Accepted(ops: seq<Op>): File {
    if ops == [] then []
    else
      var last := ops[|ops| - 1];
      Accepted(ops[..|ops| - 1]) + if last.faults.open then [] else [last.entry]
  }

  /** Everything the rotations of a run removed, in order of removal. */
  function Lost(d: Disk, n: nat, limit: nat, ops: seq<Op>): File
    requires n >= 1
  {
    if ops == [] then []
    else
      var before, last := ops[..|ops| - 1], ops[|ops| - 1];
      var mid := Run(d, n, limit, before);
      Lost(d, n, limit, before)
      + if last.faults.open then [] else Dropped(Appended(mid, last.entry), n, limit, last.faults)
  }

  /** The writes of a list of messages, one after the other. */
  function Sends(msgs: seq<string>, time: nat -> string, faults: nat -> Faults): (ops: seq<Op>)
    ensures |ops| == |msgs|
    ensures forall k :: 0 <= k < |ops| ==> ops[k] == Op(Line(time(k), msgs[k]), faults(k))
  {
    seq(|msgs|, k requires 0 <= k < |msgs| => Op(Line(time(k), msgs[k]), faults(k)))
  }

  lemma OneMoreSend(d: Disk, n: nat, limit: nat, msgs: seq<string>, msg: string,
                    time: nat -> string, faults: nat -> Faults)
    requires n >= 1
    ensures var k, mid := |msgs|, Run(d, n, limit, Sends(msgs, time, faults));
            Run(d, n, limit, Sends(msgs + [msg], time, faults)) ==
            Write(mid, n, limit, Line(time(k), msg), faults(k)).disk
  {
    assert Sends(msgs + [msg], time, faults)[..|msgs|] == Sends(msgs, time, faults);
  }

  lemma OneSend(d: Disk, n: nat, limit: nat, msg: string, time: nat -> string, faults: nat -> Faults)
    requires n >= 1
    ensures Run(d, n, limit, Sends([msg], time, faults)) ==
            Write(d, n, limit, Line(time(0), msg), faults(0)).disk
  {
    OneMoreSend(d, n, limit, [], msg, time, faults);
    EmptyIsNeutral([msg]);
  }

  lemma WriteConserves(d: Disk, n: nat, limit: nat, e: Entry, f: Faults)
    requires n >= 1 && !f.open
    ensures Dropped(Appended(d, e), n, limit, f) + ReadBack(Write(d, n, limit, e, f).disk, n) == ReadBack(d, n) + [e]
  {
    ReadBackAppended(d, e, n);
    ShiftDropsOldest(Appended(d, e), n, limit, f);
  }

  lemma RegroupRun(lost: File, dropped: File, back: File, mid: File, e: Entry, start: File, accepted: File)
    requires lost + mid == start + accepted && dropped + back == mid + [e]
    ensures lost + dropped + back == start + (accepted + [e])
  {
    assert lost + dropped + back == lost + (dropped + back);
    assert lost + (mid + [e]) == (lost + mid) + [e];
    assert start + accepted + [e] == start + (accepted + [e]);
  }

  /** After any run, from any directory and with any faults: what the rotations removed, followed
      by what can be read back, is everything that was there and everything accepted since, in
      order. What can be read is thus a contiguous suffix of it. */
  lemma {:induction false} RunConserves(d: Disk, n: nat, limit: nat, ops: seq<Op>)
    requires n >= 1
    ensures Lost(d, n, limit, ops) + ReadBack(Run(d, n, limit, ops), n) == ReadBack(d, n) + Accepted(ops)
  {
    if ops == [] {
      assert ReadBack(d, n) + Accepted(ops) == ReadBack(d, n);
    } else {
      var before, last := ops[..|ops| - 1], ops[|ops| - 1];
      var mid := Run(d, n, limit, before);
      RunConserves(d, n, limit, before);
      if last.faults.open {
        assert Lost(d, n, limit, ops) == Lost(d, n, limit, before);
        assert Accepted(ops) == Accepted(before);
      } else {
        WriteConserves(mid, n, limit, last.entry, last.faults);
        RegroupRun(Lost(d, n, limit, before), Dropped(Appended(mid, last.entry), n, limit, last.faults),
                ReadBack(Run(d, n, limit, ops), n), ReadBack(mid, n), last.entry, ReadBack(d, n), Accepted(before));
      }
    }
  }

  // ----- what one rotation does, slot by slot -----

  /** The slot at which the renaming stops, or -1. */
  function Stop(d: Disk, i: int, rename: set<nat>): (s: int)
    requires i >= -1
    ensures -1 <= s <= i && (s >= 0 ==> NameOf(s) in d && s in rename)
    decreases i
  {
    if i < 0 then -1 else if NameOf(i) in d && i in rename then i else Stop(d, i - 1, rename)
  }

  lemma {:induction false} StopDependsOnLowSlots(d: Disk, d': Disk, i: int, rename: set<nat>)
    requires i >= -1 && forall j :: 0 <= j <= i ==> (NameOf(j) in d <==> NameOf(j) in d')
    ensures Stop(d, i, rename) == Stop(d', i, rename)
    decreases i
  {
    if i >= 0 { StopDependsOnLowSlots(d, d', i - 1, rename); }
  }

  /** Slot j of d and slot k of d' are both empty or hold the same file. */
  ghost predicate SameSlot(d: Disk, j: nat, d': Disk, k: nat) {
    && (NameOf(j) in d <==> NameOf(k) in d')
    && (NameOf(j) in d ==> d[NameOf(j)] == d'[NameOf(k)])
  }

  /** Every slot from the top of the shift down to the stop moves exactly one up, and everything
      else stays. */
  lemma {:induction false} ShiftDownMovesSlot(d: Disk, i: int, rename: set<nat>, j: nat)
    requires i >= -1 && NameOf(i + 1) !in d
    ensures var o, s := ShiftDown(d, i, rename), Stop(d, i, rename);
            && (s < j <= i ==> SameSlot(d, j, o.disk, j + 1))
            && (j <= s || j > i + 1 ==> SameSlot(d, j, o.disk, j))
    decreases i
  {
    if i >= 0 {
      if NameOf(i) !in d {
        ShiftDownMovesSlot(d, i - 1, rename, j);
        ShiftDownMovesSlot(d, i - 1, rename, i + 1);
      } else if i !in rename {
        var d' := Renamed(d, NameOf(i), NameOf(i + 1));
        StopDependsOnLowSlots(d, d', i - 1, rename);
        ShiftDownMovesSlot(d', i - 1, rename, j);
        ShiftDownMovesSlot(d', i - 1, rename, i + 1);
        assert SameSlot(d, i, d', i + 1);
        assert j != i && j != i + 1 ==> SameSlot(d, j, d', j);
      }
    }
  }

  /** The slot just above the stop is left empty; with no failing rename that is the live slot. */
  lemma {:induction false} ShiftDownLeavesGap(d: Disk, i: int, rename: set<nat>)
    requires i >= -1 && NameOf(i + 1) !in d
    ensures var o, s := ShiftDown(d, i, rename), Stop(d, i, rename);
            && NameOf(s + 1) !in o.disk
            && (o.code == if s == -1 then 0 else -1)
            && (Archive(0) in d <==> Archive(0) in o.disk)
    decreases i
  {
    if i >= 0 {
      if NameOf(i) !in d {
        ShiftDownLeavesGap(d, i - 1, rename);
      } else if i !in rename {
        var d' := Renamed(d, NameOf(i), NameOf(i + 1));
        StopDependsOnLowSlots(d, d', i - 1, rename);
        ShiftDownLeavesGap(d', i - 1, rename);
      }
    }
  }

  lemma ShiftSuccess(d: Disk, n: nat, limit: nat, f: Faults)
    requires n >= 2 && Live in d && Size(d[Live]) >= limit && Shift(d, n, limit, f).code == 0
    ensures Live !in Shift(d, n, limit, f).disk
  {
    if Archive(n - 1) !in d {
      ShiftDownLeavesGap(d, n - 2, f.rename);
    } else {
      ShiftDownLeavesGap(d - {Archive(n - 1)}, n - 2, f.rename);
    }
  }

  /** A write that reports success leaves the live file below the limit, if there are two slots. */
  lemma SuccessBoundsLive(d: Disk, n: nat, limit: nat, e: Entry, f: Faults)
    requires n >= 2 && limit >= 1 && Write(d, n, limit, e, f).code == 0
    ensures Size(Slot(Write(d, n, limit, e, f).disk, 0)) < limit
  {
    var d1 := Appended(d, e);
    if Size(d1[Live]) >= limit { ShiftSuccess(d1, n, limit, f); }
  }

  lemma {:induction false} NoStopIff(d: Disk, i: int, rename: set<nat>)
    requires i >= -1
    ensures Stop(d, i, rename) == -1 <==> forall j :: 0 <= j <= i && NameOf(j) in d ==> j !in rename
    decreases i
  {
    if i >= 0 { NoStopIff(d, i - 1, rename); }
  }

  lemma ShiftDownCode(d: Disk, i: int, rename: set<nat>)
    requires i >= -1 && NameOf(i + 1) !in d
    ensures var moves := forall j :: 0 <= j <= i && NameOf(j) in d ==> j !in rename;
            ShiftDown(d, i, rename).code == if moves then 0 else -1
  {
    ShiftDownLeavesGap(d, i, rename);
    NoStopIff(d, i, rename);
  }

  /** Nothing that stands in the way of a rotation fails. */
  ghost predicate CanRotate(d: Disk, n: nat, f: Faults)
    requires n >= 1
  {
    && (Archive(n - 1) in d ==> !f.remove)
    && forall j :: 0 <= j < n - 1 && NameOf(j) in d ==> j !in f.rename
  }

  lemma ShiftCode(d: Disk, n: nat, limit: nat, f: Faults)
    requires n >= 1 && Live in d
    ensures Shift(d, n, limit, f).code ==
            if !f.stat && (Size(d[Live]) < limit || CanRotate(d, n, f)) then 0 else -1
  {
    if n == 1 {
    } else if Archive(n - 1) !in d {
      ShiftDownCode(d, n - 2, f.rename);
    } else {
      ShiftDownCode(d - {Archive(n - 1)}, n - 2, f.rename);
    }
  }

  /** A write reports success, which is 0, exactly when the file can be opened and its status read, and
      either the entry still fits or nothing that the rotation has to remove or rename fails; otherwise it
      reports -1. */
  lemma WriteSucceedsIff(d: Disk, n: nat, limit: nat, e: Entry, f: Faults)
    requires n >= 1
    ensures var fits := Size(Slot(d, 0)) + |e| < limit;
            Write(d, n, limit, e, f).code ==
            if !f.open && !f.stat && (fits || CanRotate(Appended(d, e), n, f)) then 0 else -1
  {
    ShiftCode(Appended(d, e), n, limit, f);
    assert (Slot(d, 0) + [e])[..|Slot(d, 0)|] == Slot(d, 0);
  }

  /** With one slot nothing is ever renamed: the live file just grows, whatever its size. */
  lemma SingleSlotNeverRotates(d: Disk, limit: nat, e: Entry, f: Faults)
    ensures Slot(Write(d, 1, limit, e, f).disk, 0) == Slot(d, 0) + if f.open then [] else [e]
  {
    var d1 := Appended(d, e);
    assert Slot(d1, 0) == Slot(d, 0) + [e];
    assert ShiftDown(d1, -1, f.rename).disk == d1;
    assert Slot(d1 - {Archive(0)}, 0) == Slot(d1, 0);
  }

  lemma SingleSlotSize(d: Disk, limit: nat, e: Entry, f: Faults)
    requires !f.open
    ensures Size(Slot(Write(d, 1, limit, e, f).disk, 0)) == Size(Slot(d, 0)) + |e|
  {
    SingleSlotNeverRotates(d, limit, e, f);
    assert (Slot(d, 0) + [e])[..|Slot(d, 0)|] == Slot(d, 0);
  }

  /** A write that reports success leaves the live file below the limit exactly when there is a
      second slot or the file still had room for the entry. */
  lemma SuccessBoundsLiveIff(d: Disk, n: nat, limit: nat, e: Entry, f: Faults)
    requires n >= 1 && limit >= 1 && Write(d, n, limit, e, f).code == 0
    ensures Size(Slot(Write(d, n, limit, e, f).disk, 0)) < limit <==> n >= 2 || Size(Slot(d, 0)) + |e| < limit
  {
    if n >= 2 {
      SuccessBoundsLive(d, n, limit, e, f);
    } else {
      SingleSlotSize(d, limit, e, f);
    }
  }

  /** And a single slot takes any entry: without failures the write reports success, however long
      the entry is and however far beyond the limit the file has grown. */
  lemma SingleSlotOutgrowsLimit(d: Disk, limit: nat, e: Entry)
    ensures Write(d, 1, limit, e, NO_FAULTS).code == 0
    ensures |e| >= limit ==> Size(Slot(Write(d, 1, limit, e, NO_FAULTS).disk, 0)) >= limit
  {
    SingleSlotSize(d, limit, e, NO_FAULTS);
  }

  // ----- runs without failures -----

  /** The reference: the entries cut into closed chunks and an open one. */
  datatype Chunks = Chunks(closed: seq<File>, open: File)

  /** A chunk is closed by the entry with which it reaches the limit. */
  function Feed(limit: nat, c: Chunks, e: Entry): Chunks {
    var grown := c.open + [e];
    if Size(grown) < limit then Chunks(c.closed, grown) else Chunks(c.closed + [grown], [])
  }

  function FeedAll(limit: nat, es: File): Chunks {
    if es == [] then Chunks([], []) else Feed(limit, FeedAll(limit, es[..|es| - 1]), es[|es| - 1])
  }

  /** The directory holds exactly the open chunk, as the live file, and the newest closed chunks
      as archives 1, 2, ..., newest first, as far as the slots reach. */
  ghost predicate HoldsChunks(d: Disk, n: nat, c: Chunks) {
    && (Live in d <==> c.open != [])
    && (Live in d ==> d[Live] == c.open)
    && (forall k: nat :: Archive(k) in d <==> 1 <= k < n && k <= |c.closed|)
    && (forall k: nat :: Archive(k) in d ==> d[Archive(k)] == c.closed[|c.closed| - k])
  }

  lemma {:induction false} NoStopWithoutFaults(d: Disk, i: int)
    requires i >= -1
    ensures Stop(d, i, {}) == -1
    decreases i
  {
  }

  /** One failure-free rotation: every slot moves one up, the last is dropped, the first is left
      empty. */
  lemma RotationMovesEverySlot(d: Disk, n: nat, limit: nat, j: nat)
    requires n >= 2 && Live in d && Size(d[Live]) >= limit
    ensures var o := Shift(d, n, limit, NO_FAULTS);
            && o.code == 0 && Live !in o.disk
            && (j < n - 1 ==> SameSlot(d, j, o.disk, j + 1))
            && (j >= n ==> SameSlot(d, j, o.disk, j))
            && (Archive(0) in d <==> Archive(0) in o.disk)
  {
    var d1 := d - {Archive(n - 1)};
    assert Archive(n - 1) !in d ==> d1 == d;
    NoStopWithoutFaults(d1, n - 2);
    ShiftDownLeavesGap(d1, n - 2, {});
    ShiftDownMovesSlot(d1, n - 2, {}, j);
    assert j != n - 1 ==> SameSlot(d, j, d1, j);
  }

  lemma RotatedArchive(d: Disk, n: nat, limit: nat, closed: seq<File>, k: nat)
    requires n >= 2 && Live in d && Size(d[Live]) >= limit
    requires HoldsChunks(d, n, Chunks(closed, d[Live]))
    ensures var r, all := Shift(d, n, limit, NO_FAULTS).disk, closed + [d[Live]];
            && (Archive(k) in r <==> 1 <= k < n && k <= |all|)
            && (Archive(k) in r ==> r[Archive(k)] == all[|all| - k])
  {
    var j := if 1 <= k < n then k - 1 else k;
    RotationMovesEverySlot(d, n, limit, j);
    assert NameOf(j) == if j == 0 then Live else Archive(j);
  }

  lemma WriteFeedsChunks(d: Disk, n: nat, limit: nat, c: Chunks, e: Entry)
    requires n >= 2 && HoldsChunks(d, n, c)
    ensures var o := Write(d, n, limit, e, NO_FAULTS);
            o.code == 0 && HoldsChunks(o.disk, n, Feed(limit, c, e))
  {
    var d1, grown := Appended(d, e), c.open + [e];
    assert HoldsChunks(d1, n, Chunks(c.closed, grown));
    if Size(grown) >= limit {
      RotationMovesEverySlot(d1, n, limit, 0);
      forall k: nat { RotatedArchive(d1, n, limit, c.closed, k); }
    }
  }

  function FaultFree(es: File): (ops: seq<Op>)
    ensures |ops| == |es| && forall k :: 0 <= k < |es| ==> ops[k] == Op(es[k], NO_FAULTS)
  {
    seq(|es|, k requires 0 <= k < |es| => Op(es[k], NO_FAULTS))
  }

  /** From a fresh start and without failures, the directory is at every point exactly the chunks
      the reference cuts the entries into. */
  lemma {:induction false} RunCutsChunks(n: nat, limit: nat, es: File)
    requires n >= 2
    ensures HoldsChunks(Run(map[], n, limit, FaultFree(es)), n, FeedAll(limit, es))
  {
    if es != [] {
      var before := es[..|es| - 1];
      assert FaultFree(es)[..|es| - 1] == FaultFree(before);
      RunCutsChunks(n, limit, before);
      WriteFeedsChunks(Run(map[], n, limit, FaultFree(before)), n, limit, FeedAll(limit, before), es[|es| - 1]);
    }
  }

  function Flatten(fs: seq<File>): File {
    if fs == [] then [] else Flatten(fs[..|fs| - 1]) + fs[|fs| - 1]
  }

  /** A closed chunk has reached the limit, and had not before its last entry. */
  ghost predicate JustReached(limit: nat, f: File) {
    f != [] && limit <= Size(f) < limit + |f[|f| - 1]|
  }

  ghost predicate WellCut(limit: nat, c: Chunks) {
    && Size(c.open) < limit
    && forall k :: 0 <= k < |c.closed| ==> JustReached(limit, c.closed[k])
  }

  lemma FeedKeepsWellCut(limit: nat, c: Chunks, e: Entry)
    requires limit >= 1 && WellCut(limit, c)
    ensures WellCut(limit, Feed(limit, c, e))
    ensures var c' := Feed(limit, c, e); Flatten(c'.closed) + c'.open == Flatten(c.closed) + c.open + [e]
  {
  }

  /** The chunks are the entries, in order; every closed one has just reached the limit and the
      open one has not. */
  lemma {:induction false} ChunksPartition(limit: nat, es: File)
    requires limit >= 1
    ensures var c := FeedAll(limit, es); WellCut(limit, c) && Flatten(c.closed) + c.open == es
  {
    if es != [] {
      var before, e := es[..|es| - 1], es[|es| - 1];
      assert before + [e] == es;
      var c := FeedAll(limit, before);
      ChunksPartition(limit, before);
      FeedKeepsWellCut(limit, c, e);
      assert FeedAll(limit, es) == Feed(limit, c, e);
    }
  }

  /** How many writes of a run rotated the live file away. */
  function Rotations(d: Disk, n: nat, limit: nat, ops: seq<Op>): nat
    requires n >= 1
  {
    if ops == [] then 0
    else Rotations(d, n, limit, ops[..|ops| - 1]) + if Live in Run(d, n, limit, ops) then 0 else 1
  }

  /** Every rotation closes one chunk. */
  lemma {:induction false} RotationsCloseChunks(n: nat, limit: nat, es: File)
    requires n >= 2
    ensures Rotations(map[], n, limit, FaultFree(es)) == |FeedAll(limit, es).closed|
  {
    if es != [] {
      var before := es[..|es| - 1];
      assert FaultFree(es)[..|es| - 1] == FaultFree(before);
      RotationsCloseChunks(n, limit, before);
      RunCutsChunks(n, limit, es);
    }
  }

  /** The rotation bound: live file below the limit, archives exactly 1 .. min(rotations, n - 1),
      each just over the limit. */
  lemma RotationBound(n: nat, limit: nat, es: File)
    requires n >= 2 && limit >= 1
    ensures var ops := FaultFree(es);
            var d, rotations := Run(map[], n, limit, ops), Rotations(map[], n, limit, ops);
            && Size(Slot(d, 0)) < limit
            && (forall k: nat :: Archive(k) in d <==> 1 <= k <= n - 1 && k <= rotations)
            && (forall k: nat :: Archive(k) in d ==> JustReached(limit, d[Archive(k)]))
  {
    RunCutsChunks(n, limit, es);
    RotationsCloseChunks(n, limit, es);
    ChunksPartition(limit, es);
  }

  // ----- a dump in the log -----

  /** The lines a list of messages becomes. */
  function Logged(msgs: seq<string>, time: nat -> string): (es: File)
    ensures |es| == |msgs| && forall k :: 0 <= k < |es| ==> es[k] == Line(time(k), msgs[k])
  {
    seq(|msgs|, k requires 0 <= k < |msgs| => Line(time(k), msgs[k]))
  }

  lemma AcceptedSnoc(ops: seq<Op>, op: Op)
    requires !op.faults.open
    ensures Accepted(ops + [op]) == Accepted(ops) + [op.entry]
  {
    assert (ops + [op])[..|ops|] == ops;
  }

  lemma {:induction false} SendsAccepted(msgs: seq<string>, time: nat -> string, faults: nat -> Faults)
    requires forall k: nat :: !faults(k).open
    ensures Accepted(Sends(msgs, time, faults)) == Logged(msgs, time)
  {
    if msgs != [] {
      var before, k := msgs[..|msgs| - 1], |msgs| - 1;
      SendsAccepted(before, time, faults);
      AcceptedSnoc(Sends(before, time, faults), Op(Line(time(k), msgs[k]), faults(k)));
      assert Sends(msgs, time, faults) == Sends(before, time, faults) + [Op(Line(time(k), msgs[k]), faults(k))];
      assert Logged(msgs, time) == Logged(before, time) + [Line(time(k), msgs[k])];
    }
  }

  /** The time stamp in front of a row and the line feed behind it do not disturb the reader. */
  lemma LoggedRowReads(time: string, cut: Cut)
    requires '|' !in time
    ensures ReadRow(Line(time, cut.Row())) == cut.bytes
  {
    ReadRowOf("[" + time + "] ", cut, "\n");
  }

  lemma LoggedBehind(header: string, msgs: seq<string>, time: nat -> string, k: nat)
    requires k < |msgs|
    ensures Logged([header] + msgs, time)[1..][k] == Line(time(k + 1), msgs[k])
  {
    var all := [header] + msgs;
    assert all[k + 1] == msgs[k];
    assert Logged(all, time)[k + 1] == Line(time(k + 1), all[k + 1]);
  }

  lemma DumpedRowsRead(file: string, line: nat, buf: seq<Byte>, time: nat -> string)
    requires forall k: nat :: '|' !in time(k)
    ensures ReadRows(Logged(Messages(file, line, buf), time)[1..]) == buf
  {
    var cuts, entries := CutsFrom(buf, 0), Logged(Messages(file, line, buf), time)[1..];
    forall k | 0 <= k < |cuts| ensures ReadRow(entries[k]) == cuts[k].bytes {
      LoggedBehind(Header(file, line), Rows(cuts), time, k);
      LoggedRowReads(time(k + 1), cuts[k]);
    }
    ReadRowsOf(entries, cuts);
    CutsHoldBytes(buf, 0);
  }

  /** A dump whose appends succeed: what the rotations removed, followed by what can be read back, is
      what was there, one header line, and lines whose hex columns hold exactly the bytes dumped. */
  lemma DumpSurvives(d: Disk, n: nat, limit: nat, file: string, line: nat, buf: seq<Byte>,
                     time: nat -> string, faults: nat -> Faults)
    requires n >= 1 && (forall k: nat :: '|' !in time(k)) && (forall k: nat :: !faults(k).open)
    ensures var msgs := Messages(file, line, buf);
            var ops, entries := Sends(msgs, time, faults), Logged(msgs, time);
            && Lost(d, n, limit, ops) + ReadBack(Run(d, n, limit, ops), n) == ReadBack(d, n) + entries
            && ReadRows(entries[1..]) == buf
  {
    RunConserves(d, n, limit, Sends(Messages(file, line, buf), time, faults));
    SendsAccepted(Messages(file, line, buf), time, faults);
    DumpedRowsRead(file, line, buf, time);
  }
}
