/** Finding the command that an error of the kernel belongs to (the loops of nft_netlink in
    src/libnftables.c). Errors carry the sequence number of a command, or that of the whole batch. The search
    goes on from where the last error was found, instead of from the first command. */
module ErrorCursor {

  /** struct mnl_err: the sequence number and errno */
  datatype Err = Err(seqnum: nat, err: int)

  /** An error reported on a command (nft_cmd_error), both by their positions. */
  datatype Report = Report(cmd: nat, err: nat)

  /** UINT32_MAX */
  const NO_SEQNUM: nat := 0xffff_ffff

  class Cmd {
    var seqnum: nat

    constructor ()
    {
      seqnum := 0;
    }
  }

  ghost function Seqnums(cmds: seq<Cmd>): (s: seq<nat>)
    reads cmds
    ensures |s| == |cmds| && forall i :: 0 <= i < |cmds| ==> s[i] == cmds[i].seqnum
  {
    if cmds == [] then [] else Seqnums(cmds[..|cmds| - 1]) + [cmds[|cmds| - 1].seqnum]
  }

  ghost predicate Increasing(s: seq<nat>) {
    forall i, j :: 0 <= i < j < |s| ==> s[i] < s[j]
  }

  /** The first loop of nft_netlink: the batch gets the first sequence number, then every command one. */
  method AssignSeqnums(cmds: seq<Cmd>) returns (batchSeqnum: nat)
    requires forall i, j :: 0 <= i < j < |cmds| ==> cmds[i] != cmds[j]
    modifies cmds
    ensures forall i :: 0 <= i < |cmds| ==> batchSeqnum < cmds[i].seqnum
    ensures Increasing(Seqnums(cmds)) && forall i :: 0 <= i < |cmds| ==> cmds[i].seqnum <= |cmds|
  {
    var seqnum := 0;
    batchSeqnum := seqnum;
    seqnum := seqnum + 1;
    for i := 0 to |cmds|
      invariant seqnum == i + 1
      invariant forall k :: 0 <= k < i ==> cmds[k].seqnum == k + 1
    {
      cmds[i].seqnum := seqnum;
      seqnum := seqnum + 1;
    }
  }

  // ------------------------------------------------------------------ a full scan for every error

  predicate Concerns(e: Err, seqnum: nat, batchSeqnum: nat) {
    e.seqnum == seqnum || e.seqnum == batchSeqnum
  }

  /** What a scan of all commands from position `i` on reports for error number `k`. */
  function ScanFrom(s: seq<nat>, i: nat, e: Err, k: nat, batchSeqnum: nat): seq<Report>
    requires i <= |s|
    decreases |s| - i
  {
    if i == |s| then []
    else (if Concerns(e, s[i], batchSeqnum) then [Report(i, k)] else []) + ScanFrom(s, i + 1, e, k, batchSeqnum)
  }

  /** The reports for the first `k` errors. */
  function FullScan(s: seq<nat>, errs: seq<Err>, k: nat, batchSeqnum: nat): seq<Report>
    requires k <= |errs|
  {
    if k == 0 then [] else FullScan(s, errs, k - 1, batchSeqnum) + ScanFrom(s, 0, errs[k - 1], k - 1, batchSeqnum)
  }

  /** Where there is nothing to report. */
  lemma {:induction false} ScanSkips(s: seq<nat>, i: nat, j: nat, e: Err, k: nat, batchSeqnum: nat)
    requires i <= j <= |s| && forall m :: i <= m < j ==> !Concerns(e, s[m], batchSeqnum)
    ensures ScanFrom(s, i, e, k, batchSeqnum) == ScanFrom(s, j, e, k, batchSeqnum)
    decreases j - i
  {
    if i < j {
      ScanSkips(s, i + 1, j, e, k, batchSeqnum);
      assert [] + ScanFrom(s, i + 1, e, k, batchSeqnum) == ScanFrom(s, i + 1, e, k, batchSeqnum);
    }
  }

  /** Every error of a command is reported once, on that command; every error of the batch once on every command. */
  lemma {:induction false} FullScanExact(s: seq<nat>, errs: seq<Err>, k: nat, batchSeqnum: nat, i: nat, j: nat)
    requires k <= |errs| && i < |s| && j < |errs|
    ensures Times(FullScan(s, errs, k, batchSeqnum), Report(i, j))
            == if j < k && (errs[j].seqnum == s[i] || errs[j].seqnum == batchSeqnum) then 1 else 0
  {
    hide FullScan, ScanFrom, Times;
    if k > 0 {
      FullScanExact(s, errs, k - 1, batchSeqnum, i, j);
      ScanExact(s, 0, errs[k - 1], k - 1, batchSeqnum, i, j);
      FullScanTimes(s, errs, k, batchSeqnum, Report(i, j));
    } else {
      NothingScanned(s, errs, batchSeqnum, Report(i, j));
    }
  }

  lemma FullScanTimes(s: seq<nat>, errs: seq<Err>, k: nat, batchSeqnum: nat, r: Report)
    requires 0 < k <= |errs|
    ensures Times(FullScan(s, errs, k, batchSeqnum), r)
            == Times(FullScan(s, errs, k - 1, batchSeqnum), r)
                + Times(ScanFrom(s, 0, errs[k - 1], k - 1, batchSeqnum), r)
  {
    var before, here := FullScan(s, errs, k - 1, batchSeqnum), ScanFrom(s, 0, errs[k - 1], k - 1, batchSeqnum);
    assert FullScan(s, errs, k, batchSeqnum) == before + here;
    hide *;
    TimesAppend(before, here, r);
  }

  lemma NothingScanned(s: seq<nat>, errs: seq<Err>, batchSeqnum: nat, r: Report)
    ensures Times(FullScan(s, errs, 0, batchSeqnum), r) == 0
  {
  }

  /** How often a report is made. */
  ghost function Times(rs: seq<Report>, r: Report): nat {
    multiset(rs)[r]
  }

  lemma TimesAppend(rs: seq<Report>, ts: seq<Report>, r: Report)
    ensures Times(rs + ts, r) == Times(rs, r) + Times(ts, r)
  {
  }

  lemma {:induction false} ScanExact(s: seq<nat>, i0: nat, e: Err, k: nat, batchSeqnum: nat, i: nat, j: nat)
    requires i0 <= |s| && i < |s|
    ensures Times(ScanFrom(s, i0, e, k, batchSeqnum), Report(i, j))
            == if j == k && i0 <= i && Concerns(e, s[i], batchSeqnum) then 1 else 0
    decreases |s| - i0
  {
    hide ScanFrom, Times;
    if i0 < |s| {
      ScanExact(s, i0 + 1, e, k, batchSeqnum, i, j);
      ScanTimes(s, i0, e, k, batchSeqnum, Report(i, j));
    } else {
      NothingLeft(s, e, k, batchSeqnum, Report(i, j));
    }
  }

  lemma NothingLeft(s: seq<nat>, e: Err, k: nat, batchSeqnum: nat, r: Report)
    ensures Times(ScanFrom(s, |s|, e, k, batchSeqnum), r) == 0
  {
  }

  /** How often a report is made on the command at `i0` and on those after it. */
  lemma ScanTimes(s: seq<nat>, i0: nat, e: Err, k: nat, batchSeqnum: nat, r: Report)
    requires i0 < |s|
    ensures Times(ScanFrom(s, i0, e, k, batchSeqnum), r)
            == (if Concerns(e, s[i0], batchSeqnum) && r == Report(i0, k) then 1 else 0)
               + Times(ScanFrom(s, i0 + 1, e, k, batchSeqnum), r)
  {
    var rest := ScanFrom(s, i0 + 1, e, k, batchSeqnum);
    var here := if Concerns(e, s[i0], batchSeqnum) then [Report(i0, k)] else [];
    assert ScanFrom(s, i0, e, k, batchSeqnum) == here + rest;
    OneReport(here, Concerns(e, s[i0], batchSeqnum), Report(i0, k), r);
    hide *;
    TimesAppend(here, rest, r);
  }

  lemma OneReport(here: seq<Report>, reported: bool, r: Report, r': Report)
    requires here == if reported then [r] else []
    ensures Times(here, r') == if reported && r == r' then 1 else 0
  {
  }

  // ------------------------------------------------------------------ the cursor

  /** The cursor is on the command with the last sequence number seen, or will be set to the first command. */
  ghost predicate CursorOk(s: seq<nat>, cursor: nat, last: nat) {
    last == NO_SEQNUM || (cursor < |s| && s[cursor] == last)
  }

  /** The inner loop of nft_netlink for one error, from the cursor on. */
  method MatchError(cmds: seq<Cmd>, cursor0: nat, last0: nat, errno0: int, e: Err, k: nat, batchSeqnum: nat)
      returns (cursor: nat, last: nat, reports: seq<Report>, errno: int)
    requires Increasing(Seqnums(cmds)) && forall i :: 0 <= i < |cmds| ==> batchSeqnum < cmds[i].seqnum < NO_SEQNUM
    requires cursor0 <= |cmds| && CursorOk(Seqnums(cmds), cursor0, last0)
    ensures cursor <= |cmds| && CursorOk(Seqnums(cmds), cursor, last)
    ensures reports == ScanFrom(Seqnums(cmds), 0, e, k, batchSeqnum)
    ensures errno == if reports == [] then errno0 else e.err
  {
    hide ScanFrom, Seqnums, Increasing, Scanned;
    ghost var s := Seqnums(cmds);
    cursor, last, reports, errno := cursor0, last0, [], errno0;
    if e.seqnum < last {
      cursor := 0;
    }
    ghost var start := cursor;
    NothingBefore(s, cursor, last0, e, k, batchSeqnum);
    var found := false;
    ScanStarts(s, cursor, e, k, batchSeqnum);
    while cursor < |cmds| && !found
      invariant start <= cursor <= |cmds|
      invariant found ==> cursor < |cmds| && last == s[cursor] && last != NO_SEQNUM
                          && reports == ScanFrom(s, start, e, k, batchSeqnum)
      invariant !found ==> Scanned(s, start, cursor, e, k, batchSeqnum, reports)
      invariant errno == if reports == [] then errno0 else e.err
      decreases |cmds| - cursor, !found
    {
      last := cmds[cursor].seqnum;
      ScanStep(s, start, cursor, e, k, batchSeqnum, reports);
      if e.seqnum == cmds[cursor].seqnum || e.seqnum == batchSeqnum {
        reports := reports + [Report(cursor, k)];
        errno := e.err;
        if e.seqnum == cmds[cursor].seqnum {
          found := true;
        } else {
          cursor := cursor + 1;
        }
      } else {
        cursor := cursor + 1;
      }
    }
    if !found {
      ScanEnds(s, start, e, k, batchSeqnum, reports);
      last := NO_SEQNUM;
    }
  }

  /** The reports from `start` to before `cursor` are made, those from there on are to come; an error of
      a command that has been passed has been found. */
  ghost predicate Scanned(s: seq<nat>, start: nat, cursor: nat, e: Err, k: nat, batchSeqnum: nat, reports: seq<Report>)
    requires start <= cursor <= |s|
  {
    && reports + ScanFrom(s, cursor, e, k, batchSeqnum) == ScanFrom(s, start, e, k, batchSeqnum)
    && (e.seqnum != batchSeqnum ==> reports == [])
  }

  lemma ScanStarts(s: seq<nat>, start: nat, e: Err, k: nat, batchSeqnum: nat)
    requires start <= |s|
    ensures Scanned(s, start, start, e, k, batchSeqnum, [])
  {
  }

  lemma ScanEnds(s: seq<nat>, start: nat, e: Err, k: nat, batchSeqnum: nat, reports: seq<Report>)
    requires start <= |s| && Scanned(s, start, |s|, e, k, batchSeqnum, reports)
    ensures reports == ScanFrom(s, start, e, k, batchSeqnum)
  {
    assert ScanFrom(s, |s|, e, k, batchSeqnum) == [];
    assert reports + [] == reports;
  }

  lemma ScanStep(s: seq<nat>, start: nat, i: nat, e: Err, k: nat, batchSeqnum: nat, reports: seq<Report>)
    requires Increasing(s) && start <= i < |s| && batchSeqnum < s[i]
    requires Scanned(s, start, i, e, k, batchSeqnum, reports)
    ensures e.seqnum == s[i] ==> reports + [Report(i, k)] == ScanFrom(s, start, e, k, batchSeqnum)
    ensures e.seqnum == batchSeqnum ==> Scanned(s, start, i + 1, e, k, batchSeqnum, reports + [Report(i, k)])
    ensures e.seqnum != s[i] && e.seqnum != batchSeqnum ==> Scanned(s, start, i + 1, e, k, batchSeqnum, reports)
  {
    var rest := ScanFrom(s, i + 1, e, k, batchSeqnum);
    var here := if Concerns(e, s[i], batchSeqnum) then [Report(i, k)] else [];
    assert ScanFrom(s, i, e, k, batchSeqnum) == here + rest;
    if e.seqnum == s[i] {
      NothingAfter(s, i, e, k, batchSeqnum);
    } else {
      hide ScanFrom;
      assert reports + (here + rest) == (reports + here) + rest;
      assert reports + [] == reports;
    }
  }

  lemma NothingBefore(s: seq<nat>, cursor: nat, last: nat, e: Err, k: nat, batchSeqnum: nat)
    requires Increasing(s) && cursor <= |s| && (forall i :: 0 <= i < |s| ==> batchSeqnum < s[i] < NO_SEQNUM)
    requires if e.seqnum < last then cursor == 0 else CursorOk(s, cursor, last)
    ensures ScanFrom(s, cursor, e, k, batchSeqnum) == ScanFrom(s, 0, e, k, batchSeqnum)
  {
    if e.seqnum >= last {
      if last == NO_SEQNUM {
        ScanSkips(s, 0, |s|, e, k, batchSeqnum);
        ScanSkips(s, cursor, |s|, e, k, batchSeqnum);
      } else {
        ScanSkips(s, 0, cursor, e, k, batchSeqnum);
      }
    }
  }

  lemma NothingAfter(s: seq<nat>, i: nat, e: Err, k: nat, batchSeqnum: nat)
    requires Increasing(s) && i < |s| && e.seqnum == s[i] && batchSeqnum < s[i]
    ensures ScanFrom(s, i, e, k, batchSeqnum) == [Report(i, k)]
  {
    ScanSkips(s, i + 1, |s|, e, k, batchSeqnum);
  }

  lemma {:induction false} ScanReports(s: seq<nat>, i: nat, e: Err, k: nat, batchSeqnum: nat)
    requires i <= |s|
    ensures var reports := ScanFrom(s, i, e, k, batchSeqnum); reports != [] ==> reports[|reports| - 1].err == k
    decreases |s| - i
  {
    if i < |s| { ScanReports(s, i + 1, e, k, batchSeqnum); }
  }

  function ErrOf(errs: seq<Err>, k: nat): int {
    if k < |errs| then errs[k].err else 0
  }

  /** errno after the reports: that of the error reported last. */
  function ErrnoAfter(errs: seq<Err>, reports: seq<Report>, errno0: int): int {
    if reports == [] || reports[|reports| - 1].err >= |errs| then errno0 else errs[reports[|reports| - 1].err].err
  }

  /** The error matching of nft_netlink: the reports are those of a full scan for every error. */
  method MatchErrors(cmds: seq<Cmd>, errs: seq<Err>, batchSeqnum: nat, errno0: int)
      returns (reports: seq<Report>, errno: int)
    requires Increasing(Seqnums(cmds)) && forall i :: 0 <= i < |cmds| ==> batchSeqnum < cmds[i].seqnum < NO_SEQNUM
    ensures reports == FullScan(Seqnums(cmds), errs, |errs|, batchSeqnum)
    ensures errno == ErrnoAfter(errs, reports, errno0)
    ensures if reports == [] then errno == errno0
            else reports[|reports| - 1].err < |errs| && errno == errs[reports[|reports| - 1].err].err
  {
    hide ScanFrom, Seqnums, Increasing, ErrnoAfter;
    reports, errno := [], errno0;
    var cursor: nat, last := |cmds|, NO_SEQNUM;
    assert ErrnoAfter(errs, [], errno0) == errno0 by { LastReport(errs, [], [], 0, errno0); }
    for k := 0 to |errs|
      invariant cursor <= |cmds| && CursorOk(Seqnums(cmds), cursor, last)
      invariant reports == FullScan(Seqnums(cmds), errs, k, batchSeqnum)
      invariant errno == ErrnoAfter(errs, reports, errno0)
      invariant reports != [] ==> reports[|reports| - 1].err < k
    {
      var found;
      cursor, last, found, errno := MatchError(cmds, cursor, last, errno, errs[k], k, batchSeqnum);
      ScanReports(Seqnums(cmds), 0, errs[k], k, batchSeqnum);
      LastReport(errs, reports, found, k, errno0);
      reports := reports + found;
    }
    ErrnoIs(errs, reports, errno0);
  }

  lemma ErrnoIs(errs: seq<Err>, reports: seq<Report>, errno0: int)
    requires reports != [] ==> reports[|reports| - 1].err < |errs|
    ensures ErrnoAfter(errs, reports, errno0) == if reports == [] then errno0 else errs[reports[|reports| - 1].err].err
  {
  }

  lemma LastReport(errs: seq<Err>, reports: seq<Report>, found: seq<Report>, k: nat, errno0: int)
    requires found != [] ==> k < |errs| && found[|found| - 1].err == k
    ensures reports == [] ==> ErrnoAfter(errs, reports, errno0) == errno0
    ensures ErrnoAfter(errs, reports + found, errno0)
            == if found == [] then ErrnoAfter(errs, reports, errno0) else ErrOf(errs, k)
  {
    assert found == [] ==> reports + found == reports;
  }
}
