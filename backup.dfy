/**
  The subscriber's backup writer (saveTelegram): a telegram received at a
  given moment is appended, as a timestamped record, to the file
  base/YYYY/MM/DD.log, creating the directories and the file if needed.
  The clock reading is a parameter and the filesystem a map from paths to
  contents; a path is its sequence of segments.
*/
module Backup {
  import opened Results
  import opened Decimal

  /** A wall-clock reading, as time.Now() gives its calendar fields. */
  datatype Stamp = Stamp(year: nat, month: nat, day: nat, hour: nat, minute: nat, second: nat)

  /** The ranges time.Time guarantees for its fields. */
  predicate ValidStamp(t: Stamp) {
    1 <= t.month <= 12 && 1 <= t.day <= 31 && t.hour < 24 && t.minute < 60 && t.second < 60
  }

  /** Two readings on the same calendar day. */
  predicate SameDay(t: Stamp, u: Stamp) {
    t.year == u.year && t.month == u.month && t.day == u.day
  }

  type Path = seq<string>

  /** base/YYYY/MM: the directory of the day's file, its segments below the base reading back as the year and the month. */
  function DirPath(base: string, t: Stamp): (p: Path)
    ensures |p| == 3 && p[0] == base
    ensures AllDigits(p[1]) && |p[1]| >= 4 && Value(p[1]) == t.year
    ensures AllDigits(p[2]) && |p[2]| >= 2 && Value(p[2]) == t.month
  {
    ZeroPadRoundTrip(t.year, 4);
    ZeroPadRoundTrip(t.month, 2);
    [base, ZeroPad(t.year, 4), ZeroPad(t.month, 2)]
  }

  /** base/YYYY/MM/DD.log: the file a telegram received at t is appended to, inside the day's directory. */
  function FilePath(base: string, t: Stamp): (p: Path)
    ensures |p| == 4 && p[..3] == DirPath(base, t)
    ensures var f := p[3]; |f| >= 6 && f[|f| - 4..] == ".log"
    ensures var f := p[3]; AllDigits(f[..|f| - 4]) && Value(f[..|f| - 4]) == t.day
  {
    var d := ZeroPad(t.day, 2);
    ZeroPadRoundTrip(t.day, 2);
    assert (d + ".log")[..|d|] == d && (d + ".log")[|d|..] == ".log";
    DirPath(base, t) + [d + ".log"]
  }

  /**
    The layout "2006-01-02 15:04:05" applied to t: at least 19 characters,
    and for a four-digit year exactly 19, with the separators in place.
  */
  function Timestamp(t: Stamp): (s: string)
    ensures |s| >= 19
    ensures ValidStamp(t) && t.year < 10000 ==>
      |s| == 19 && s[4] == '-' && s[7] == '-' && s[10] == ' ' && s[13] == ':' && s[16] == ':'
  {
    var y, mo, d := ZeroPad(t.year, 4), ZeroPad(t.month, 2), ZeroPad(t.day, 2);
    var h, mi, sec := ZeroPad(t.hour, 2), ZeroPad(t.minute, 2), ZeroPad(t.second, 2);
    if ValidStamp(t) && t.year < 10000 then
      Widths(t);
      LayoutSlices(y, mo, d, h, mi, sec);
      y + "-" + mo + "-" + d + " " + h + ":" + mi + ":" + sec
    else
      y + "-" + mo + "-" + d + " " + h + ":" + mi + ":" + sec
  }

  /** The record written for one telegram: the bracketed timestamp line, then the payload and a newline. */
  function Record(t: Stamp, payload: string): (r: string)
    ensures var n := |Timestamp(t)|; |r| == n + |payload| + 4 && r[0] == '['
    ensures var n := |Timestamp(t)|; r[1..n + 1] == Timestamp(t) && r[n + 1] == ']' && r[n + 2] == '\n'
    ensures var n := |Timestamp(t)|; r[n + 3..|r| - 1] == payload && r[|r| - 1] == '\n'
  {
    RecordSlices(Timestamp(t), payload);
    "[" + Timestamp(t) + "]\n" + payload + "\n"
  }

  lemma RecordSlices(ts: string, payload: string)
    ensures var r := "[" + ts + "]\n" + payload + "\n"; var n := |ts|;
      |r| == n + |payload| + 4 && r[0] == '[' && r[1..n + 1] == ts && r[n + 1] == ']' && r[n + 2] == '\n' &&
      r[n + 3..|r| - 1] == payload && r[|r| - 1] == '\n'
  {
    var r := "[" + ts + "]\n" + payload + "\n";
    assert r[1..|ts| + 1] == ts;
    assert r[|ts| + 3..|r| - 1] == payload;
  }

  /** Reads a timestamp back from its 19-character layout. */
  function ParseTimestamp(s: string): Option<Stamp> {
    if |s| == 19 && s[4] == '-' && s[7] == '-' && s[10] == ' ' && s[13] == ':' && s[16] == ':'
       && AllDigits(s[0..4]) && AllDigits(s[5..7]) && AllDigits(s[8..10])
       && AllDigits(s[11..13]) && AllDigits(s[14..16]) && AllDigits(s[17..19])
    then Some(Stamp(Value(s[0..4]), Value(s[5..7]), Value(s[8..10]),
                    Value(s[11..13]), Value(s[14..16]), Value(s[17..19])))
    else None
  }

  /** Reads a record back into its timestamp and payload. */
  function ParseRecord(r: string): Option<(Stamp, string)> {
    if |r| >= 23 && r[0] == '[' && r[20] == ']' && r[21] == '\n' && r[|r| - 1] == '\n' then
      match ParseTimestamp(r[1..20])
      case None => None
      case Some(t) => Some((t, r[22..|r| - 1]))
    else None
  }

  /** The contents of a file, the empty string when it does not exist. */
  function Content(files: map<Path, string>, p: Path): string {
    if p in files then files[p] else ""
  }

  /** Appending text to the file at p, creating it if it is absent (O_APPEND|O_CREATE). */
  function Appended(files: map<Path, string>, p: Path, text: string): (r: map<Path, string>)
    ensures r.Keys == files.Keys + {p}
    ensures r[p] == Content(files, p) + text
    ensures Content(files, p) <= r[p]
    ensures forall q :: q in files && q != p ==> r[q] == files[q]
  {
    files[p := Content(files, p) + text]
  }

  /** The directories MkdirAll makes sure exist for dir: every non-empty prefix of it. */
  function Ancestors(dir: Path): (r: set<Path>)
    ensures forall k :: 1 <= k <= |dir| ==> dir[..k] in r
    ensures forall q :: q in r ==> 1 <= |q| <= |dir| && q == dir[..|q|]
  {
    set k | 1 <= k <= |dir| :: dir[..k]
  }

  /** Every file lies in a directory that exists. */
  predicate WellFormed(files: map<Path, string>, dirs: set<Path>) {
    forall p :: p in files ==> |p| > 0 && p[..|p| - 1] in dirs
  }

  /** Which step of saveTelegram fails, if any; the filesystem decides this, not the bridge. */
  datatype Fault = NoFault | MkdirFails | OpenFails | WriteFails(written: nat)

  /** The distinct errors saveTelegram reports. */
  datatype SaveError = MkdirError(dir: Path) | OpenError(file: Path) | WriteError

  /** The timestamp layout has fixed width and reads back as the reading it was made from. */
  lemma TimestampRoundTrip(t: Stamp)
    requires ValidStamp(t) && t.year < 10000
    ensures |Timestamp(t)| == 19
    ensures ParseTimestamp(Timestamp(t)) == Some(t)
  {
    Widths(t);
    RoundTrips(t);
    LayoutSlices(ZeroPad(t.year, 4), ZeroPad(t.month, 2), ZeroPad(t.day, 2),
                 ZeroPad(t.hour, 2), ZeroPad(t.minute, 2), ZeroPad(t.second, 2));
  }

  lemma LayoutSlices(y: string, mo: string, d: string, h: string, mi: string, s: string)
    requires |y| == 4 && |mo| == 2 && |d| == 2 && |h| == 2 && |mi| == 2 && |s| == 2
    ensures var ts := y + "-" + mo + "-" + d + " " + h + ":" + mi + ":" + s;
      |ts| == 19 && ts[4] == '-' && ts[7] == '-' && ts[10] == ' ' && ts[13] == ':' && ts[16] == ':' &&
      ts[0..4] == y && ts[5..7] == mo && ts[8..10] == d && ts[11..13] == h && ts[14..16] == mi && ts[17..19] == s
  {
    var ts := y + "-" + mo + "-" + d + " " + h + ":" + mi + ":" + s;
    assert ts[0..4] == y;
    assert ts[5..7] == mo;
    assert ts[8..10] == d;
    assert ts[11..13] == h;
    assert ts[14..16] == mi;
    assert ts[17..19] == s;
  }

  lemma Widths(t: Stamp)
    requires ValidStamp(t) && t.year < 10000
    ensures |ZeroPad(t.year, 4)| == 4 && |ZeroPad(t.month, 2)| == 2 && |ZeroPad(t.day, 2)| == 2
    ensures |ZeroPad(t.hour, 2)| == 2 && |ZeroPad(t.minute, 2)| == 2 && |ZeroPad(t.second, 2)| == 2
  {
    ZeroPadWidth(t.year, 4);
    ZeroPadWidth(t.month, 2);
    ZeroPadWidth(t.day, 2);
    ZeroPadWidth(t.hour, 2);
    ZeroPadWidth(t.minute, 2);
    ZeroPadWidth(t.second, 2);
  }

  lemma RoundTrips(t: Stamp)
    ensures Value(ZeroPad(t.year, 4)) == t.year && Value(ZeroPad(t.month, 2)) == t.month
    ensures Value(ZeroPad(t.day, 2)) == t.day && Value(ZeroPad(t.hour, 2)) == t.hour
    ensures Value(ZeroPad(t.minute, 2)) == t.minute && Value(ZeroPad(t.second, 2)) == t.second
  {
    ZeroPadRoundTrip(t.year, 4);
    ZeroPadRoundTrip(t.month, 2);
    ZeroPadRoundTrip(t.day, 2);
    ZeroPadRoundTrip(t.hour, 2);
    ZeroPadRoundTrip(t.minute, 2);
    ZeroPadRoundTrip(t.second, 2);
  }

  /** A record reads back as the reading and the payload it was written from, whatever the payload holds. */
  lemma RecordRoundTrip(t: Stamp, payload: string)
    requires ValidStamp(t) && t.year < 10000
    ensures ParseRecord(Record(t, payload)) == Some((t, payload))
  {
    TimestampRoundTrip(t);
    var r := Record(t, payload);
    assert r == "[" + Timestamp(t) + "]\n" + payload + "\n";
    assert r[1..20] == Timestamp(t);
    assert r[22..|r| - 1] == payload;
  }

  /**
    The backup file is named by the calendar day alone: two readings map to
    the same file exactly when they fall on the same day.
  */
  lemma SameFileIffSameDay(base: string, t: Stamp, u: Stamp)
    ensures FilePath(base, t) == FilePath(base, u) <==> SameDay(t, u)
  {
    if FilePath(base, t) == FilePath(base, u) {
      var p, q := FilePath(base, t), FilePath(base, u);
      assert p[1] == q[1] && p[2] == q[2] && p[3] == q[3];
      var dt, du := ZeroPad(t.day, 2), ZeroPad(u.day, 2);
      assert dt + ".log" == du + ".log";
      assert |dt| == |du|;
      assert dt == (dt + ".log")[..|dt|];
      assert du == (du + ".log")[..|du|];
      ZeroPadInjective(t.year, u.year, 4);
      ZeroPadInjective(t.month, u.month, 2);
      ZeroPadInjective(t.day, u.day, 2);
    }
  }

  /** The path segments below the base are the year, month and day numerals, zero-padded to 4, 2 and 2 digits. */
  lemma FilePathLayout(base: string, t: Stamp)
    requires ValidStamp(t) && t.year < 10000
    ensures |FilePath(base, t)| == 4 && FilePath(base, t)[0] == base
    ensures var y := FilePath(base, t)[1]; |y| == 4 && AllDigits(y) && Value(y) == t.year
    ensures var m := FilePath(base, t)[2]; |m| == 2 && AllDigits(m) && Value(m) == t.month
    ensures var f := FilePath(base, t)[3]; |f| == 6 && f[2..] == ".log" && AllDigits(f[..2]) && Value(f[..2]) == t.day
  {
    Widths(t);
    RoundTrips(t);
    var f := FilePath(base, t)[3];
    assert f[..2] == ZeroPad(t.day, 2);
  }

  /** Two saves on the same calendar day land in one file, the second after the first, nothing truncated. */
  lemma SameDayAppendsAccumulate(files: map<Path, string>, base: string, t: Stamp, u: Stamp, r1: string, r2: string)
    requires SameDay(t, u)
    ensures var once := Appended(files, FilePath(base, t), r1);
            Appended(once, FilePath(base, u), r2)[FilePath(base, t)] == Content(files, FilePath(base, t)) + r1 + r2
  {
    SameFileIffSameDay(base, t, u);
  }

  /** The filesystem the subscriber writes its backups to. */
  class Disk {
    var files: map<Path, string>
    var dirs: set<Path>

    ghost predicate Valid()
      reads this
    {
      WellFormed(files, dirs)
    }

    constructor (files0: map<Path, string>, dirs0: set<Path>)
      requires WellFormed(files0, dirs0)
      ensures Valid() && files == files0 && dirs == dirs0
    {
      files := files0;
      dirs := dirs0;
    }

    /**
      saveTelegram: make the day's directory, open the day's file for
      appending and write the record. A failing step returns its own error
      and leaves the later steps undone; no step before the write touches a
      file's contents.
    */
    method SaveTelegram(base: string, now: Stamp, telegram: string, fault: Fault) returns (r: Outcome<SaveError>)
      requires Valid() && ValidStamp(now)
      modifies this
      ensures Valid()
      ensures fault == MkdirFails ==>
        r == Fail(MkdirError(DirPath(base, now))) && files == old(files) && dirs == old(dirs)
      ensures fault != MkdirFails ==> dirs == old(dirs) + Ancestors(DirPath(base, now))
      ensures fault == OpenFails ==> r == Fail(OpenError(FilePath(base, now))) && files == old(files)
      ensures fault.WriteFails? ==> r == Fail(WriteError)
      ensures fault.WriteFails? ==>
        var record := Record(now, telegram);
        files == Appended(old(files), FilePath(base, now), record[..Min(fault.written, |record|)])
      ensures fault == NoFault ==>
        r == Pass && files == Appended(old(files), FilePath(base, now), Record(now, telegram))
    {
      var dirPath := DirPath(base, now);
      if fault == MkdirFails {
        return Fail(MkdirError(dirPath));
      }
      dirs := dirs + Ancestors(dirPath);
      assert dirPath[..|dirPath|] == dirPath;
      var filePath := dirPath + [ZeroPad(now.day, 2) + ".log"];
      assert filePath[..|filePath| - 1] == dirPath;
      if fault == OpenFails {
        return Fail(OpenError(filePath));
      }
      var record := Record(now, telegram);
      if fault.WriteFails? {
        files := Appended(files, filePath, record[..Min(fault.written, |record|)]);
        return Fail(WriteError);
      }
      files := Appended(files, filePath, record);
      r := Pass;
    }
  }

  function Min(a: nat, b: nat): nat {
    if a <= b then a else b
  }
}
