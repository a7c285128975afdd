/** `CanSkip`: whether a module's AutoGen step can be skipped because nothing
    it was generated from has changed since. The time-stamp manifest in the
    module's makefile directory lists the files the step read; the step is
    skipped when the manifest is no older than the workspace's sources and no
    listed file is newer than the manifest. Skipped directories
    (`gSikpAutoGenCache`) and file times (`ModuleAutoGen.TimeDict`) are
    remembered for the rest of the run. */
module SkipCheck {
  import opened Text

  /** A file as `CanSkip` sees it: its modification time (`os.stat(p)[8]`)
      and its lines with the line break removed. */
  datatype Entry = Entry(mtime: int, lines: seq<string>)

  /** The file system: the existing paths. */
  type Disk = map<string, Entry>

  const TimeStampName := "AutoGenTimeStamp"

  /** `TimeStampPath`. */
  function TimeStampPath(makeFileDir: string): string {
    JoinPath(makeFileDir, TimeStampName)
  }

  /** The time of `p` as `CanSkip` compares it: remembered, or else read. */
  function Remembered(times: map<string, int>, disk: Disk, p: string): int
    requires p in times || p in disk
  {
    if p in times then times[p] else disk[p].mtime
  }

  /** The outcome of checking the listed files, with the times remembered by
      then. */
  datatype Check = Check(ok: bool, times: map<string, int>)

  /** The manifest loop from the given line on. */
  function CheckLines(dst: int, disk: Disk, times: map<string, int>, lines: seq<string>): Check
    decreases |lines|
  {
    if lines == [] then Check(true, times)
    else
      var p := lines[0];
      if p !in disk then Check(false, times)
      else
        var times' := if p in times then times else times[p := disk[p].mtime];
        if times'[p] > dst then Check(false, times')
        else CheckLines(dst, disk, times', lines[1..])
  }

  /** What one call decides and what it leaves remembered. */
  datatype Decision = Decision(skip: bool, skipped: set<string>, times: map<string, int>)

  /** The step is skipped exactly when its directory was skipped before, or
      when the manifest exists, is no older than the sources, and each listed
      file exists with a remembered time no later than the manifest's. A skip
      records the directory, and remembered times never change. */
  function Decide(skipped: set<string>, times: map<string, int>, disk: Disk, makeFileDir: string, srcTimeStamp: int): (d: Decision)
    ensures var ts := TimeStampPath(makeFileDir);
            d.skip <==>
              || makeFileDir in skipped
              || (&& ts in disk && srcTimeStamp <= disk[ts].mtime
                  && forall p :: p in disk[ts].lines ==> p in disk && Remembered(times, disk, p) <= disk[ts].mtime)
    ensures d.skipped == (if d.skip then skipped + {makeFileDir} else skipped)
    ensures forall p :: p in times ==> p in d.times && d.times[p] == times[p]
  {
    var ts := TimeStampPath(makeFileDir);
    if makeFileDir in skipped then Decision(true, skipped, times)
    else if ts !in disk then Decision(false, skipped, times)
    else if srcTimeStamp > disk[ts].mtime then Decision(false, skipped, times)
    else
      CheckLinesSpec(disk[ts].mtime, disk, times, disk[ts].lines);
      var c := CheckLines(disk[ts].mtime, disk, times, disk[ts].lines);
      Decision(c.ok, if c.ok then skipped + {makeFileDir} else skipped, c.times)
  }

  // ---- properties ----

  /** `times` only gains entries, and only for listed files that exist, at
      their time on disk. */
  predicate Extends(times: map<string, int>, times': map<string, int>, disk: Disk, lines: seq<string>) {
    && (forall p :: p in times ==> p in times' && times'[p] == times[p])
    && (forall p :: p in times' && p !in times ==> p in lines && p in disk && times'[p] == disk[p].mtime)
  }

  /** The listed files pass exactly when each exists and its remembered time
      is no later than the manifest's; whatever the outcome, the remembered
      times only grow. */
  lemma {:induction false} CheckLinesSpec(dst: int, disk: Disk, times: map<string, int>, lines: seq<string>)
    ensures var c := CheckLines(dst, disk, times, lines);
            && (c.ok <==> forall p :: p in lines ==> p in disk && Remembered(times, disk, p) <= dst)
            && Extends(times, c.times, disk, lines)
    decreases |lines|
  {
    if lines != [] {
      var p := lines[0];
      assert forall q :: q in lines <==> q == p || q in lines[1..] by {
        assert lines == [p] + lines[1..];
      }
      if p in disk {
        var times' := if p in times then times else times[p := disk[p].mtime];
        if times'[p] <= dst {
          CheckLinesSpec(dst, disk, times', lines[1..]);
          forall q | q in disk || q in times
            ensures (q in times' || q in disk) && Remembered(times', disk, q) == Remembered(times, disk, q)
          {
          }
        }
      }
    }
  }

  /** Once a directory is skipped, later calls skip it without looking at the
      disk and change nothing. */
  lemma SkipIsRemembered(skipped: set<string>, times: map<string, int>, disk: Disk, disk': Disk, makeFileDir: string, src: int, src': int)
    requires Decide(skipped, times, disk, makeFileDir, src).skip
    ensures var d := Decide(skipped, times, disk, makeFileDir, src);
            Decide(d.skipped, d.times, disk', makeFileDir, src') == d.(skip := true)
  {
    var d := Decide(skipped, times, disk, makeFileDir, src);
    assert makeFileDir in d.skipped;
  }

  /** A listed file whose remembered time is later than the manifest's keeps the
      step from being skipped, whatever its time on disk now is. */
  lemma RememberedTimeWins(skipped: set<string>, times: map<string, int>, disk: Disk, makeFileDir: string, src: int, p: string)
    requires makeFileDir !in skipped
    requires var ts := TimeStampPath(makeFileDir);
             ts in disk && p in disk[ts].lines && p in times && times[p] > disk[ts].mtime
    ensures !Decide(skipped, times, disk, makeFileDir, src).skip
  {
    var ts := TimeStampPath(makeFileDir);
    assert Remembered(times, disk, p) > disk[ts].mtime;
  }

  /** The run-wide memory of `CanSkip`. */
  class SkipCache {
    /** `gSikpAutoGenCache`. */
    var skipped: set<string>
    /** `ModuleAutoGen.TimeDict`. */
    var times: map<string, int>

    constructor ()
      ensures skipped == {} && times == map[]
    {
      skipped := {};
      times := map[];
    }

    /** `CanSkip` for the module whose makefile directory is `makeFileDir`,
        given the workspace's source time stamp and the file system. */
    method CanSkip(makeFileDir: string, srcTimeStamp: int, disk: Disk) returns (r: bool)
      modifies this
      ensures Decision(r, skipped, times) == Decide(old(skipped), old(times), disk, makeFileDir, srcTimeStamp)
    {
      if makeFileDir in skipped {
        return true;
      }
      var ts := TimeStampPath(makeFileDir);
      if ts !in disk {
        return false;
      }
      var dst := disk[ts].mtime;
      if srcTimeStamp > dst {
        return false;
      }
      var lines := disk[ts].lines;
      var i := 0;
      while i < |lines|
        invariant 0 <= i <= |lines| && skipped == old(skipped)
        invariant CheckLines(dst, disk, times, lines[i..]) == CheckLines(dst, disk, old(times), lines)
      {
        var source := lines[i];
        assert lines[i..][0] == source && lines[i..][1..] == lines[i + 1..];
        if source !in disk {
          return false;
        }
        if source !in times {
          times := times[source := disk[source].mtime];
        }
        if times[source] > dst {
          return false;
        }
        i := i + 1;
      }
      skipped := skipped + {makeFileDir};
      return true;
    }
  }
}
