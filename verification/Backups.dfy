/** Backups of a log file: their names, the first free one, and which of them retention keeps. */
module Backups {
  import opened Decimals

  const EXTENSION: string := ".bak"
  const MAX_SUFFIX: nat := 1000

  predicate StartsWith(text: string, prefix: string) {
    |prefix| <= |text| && text[..|prefix|] == prefix
  }

  predicate EndsWith(text: string, suffix: string) {
    |suffix| <= |text| && text[|text| - |suffix|..] == suffix
  }

  /** The index of the first '.', or the length. */
  function FindDot(text: string): (index: nat)
    ensures index <= |text| && (index < |text| ==> text[index] == '.')
    ensures forall i :: 0 <= i < index ==> text[i] != '.'
  {
    if text == "" || text[0] == '.' then 0 else 1 + FindDot(text[1..])
  }

  /** "YYYY-MM-DD" in front. */
  predicate HasDate(stamp: string) {
    |stamp| >= 10 && AreDigits(stamp[..4]) && stamp[4] == '-' && AreDigits(stamp[5..7]) && stamp[7] == '-' &&
    AreDigits(stamp[8..10])
  }

  /** "_HHMMSS_mmm" in front. */
  predicate HasTimeOfDay(rest: string) {
    |rest| >= 11 && rest[0] == '_' && AreDigits(rest[1..7]) && rest[7] == '_' && AreDigits(rest[8..11])
  }

  /** "YYYY-MM-DD" or "YYYY-MM-DD_HHMMSS_mmm", either one followed by "_N" or not. */
  predicate IsBackupTimeLabel(stamp: string) {
    && HasDate(stamp)
    && var rest := if HasTimeOfDay(stamp[10..]) then stamp[21..] else stamp[10..];
       rest == "" || (rest[0] == '_' && AreDigits(rest[1..]))
  }

  predicate IsBackupName(fileName: string, stem: string) {
    if |fileName| <= |stem| + 1 + |EXTENSION| || !StartsWith(fileName, stem) || fileName[|stem|] != '.' ||
       !EndsWith(fileName, EXTENSION)
    then false
    else
      var reasonAndLabel := fileName[|stem| + 1..|fileName| - |EXTENSION|];
      var reasonEnd := FindDot(reasonAndLabel);
      reasonEnd < |reasonAndLabel| && IsBackupTimeLabel(reasonAndLabel[reasonEnd + 1..])
  }

  // ---- Names ---------------------------------------------------------------------

  lemma LabelHasNoDot(stamp: string)
    requires IsBackupTimeLabel(stamp)
    ensures forall i :: 0 <= i < |stamp| ==> stamp[i] != '.'
  {
    var end := if HasTimeOfDay(stamp[10..]) then 21 else 10;
    var rest := stamp[end..];
    forall i | 0 <= i < |stamp| ensures stamp[i] != '.' {
      if i < 4 {
        assert stamp[..4][i] == stamp[i];
      } else if 5 <= i < 7 {
        assert stamp[5..7][i - 5] == stamp[i];
      } else if 8 <= i < 10 {
        assert stamp[8..10][i - 8] == stamp[i];
      } else if 10 <= i < end {
        TimeOfDayHasNoDot(stamp[10..], i - 10);
        assert stamp[10..][i - 10] == stamp[i];
      } else if i > end {
        assert rest[1..][i - end - 1] == stamp[i];
      }
    }
  }

  lemma TimeOfDayHasNoDot(rest: string, i: nat)
    requires HasTimeOfDay(rest) && i < 11
    ensures rest[i] != '.'
  {
    if 1 <= i < 7 {
      assert rest[1..7][i - 1] == rest[i];
    } else if i >= 8 {
      assert rest[8..11][i - 8] == rest[i];
    }
  }

  function Stamped(stamp: string, suffix: nat): string {
    stamp + (if suffix == 0 then "" else "_" + Decimal(suffix))
  }

  /** A name as rotation makes it; the suffix is left out if it is 0. */
  function BackupName(stem: string, reason: string, timeLabel: string, suffix: nat): string {
    stem + "." + reason + "." + Stamped(timeLabel, suffix) + EXTENSION
  }

  /** The stamps rotation uses: a date, or a date and a time of day. */
  predicate IsRotationStamp(stamp: string) {
    HasDate(stamp) && (|stamp| == 10 || (|stamp| == 21 && HasTimeOfDay(stamp[10..])))
  }

  /** "YYYY-MM-DDTHH:mm:ss.mmm" in front. */
  predicate IsISOTime(iso: string) {
    |iso| >= 23 && HasDate(iso) && AreDigits(iso[11..13]) && AreDigits(iso[14..16]) && AreDigits(iso[17..19]) &&
    AreDigits(iso[20..23])
  }

  function ToBackupTimeLabel(iso: string): (stamp: string)
    requires IsISOTime(iso)
  {
    iso[..10] + "_" + iso[11..13] + iso[14..16] + iso[17..19] + "_" + iso[20..23]
  }

  lemma DigitsJoin(a: string, b: string)
    requires AreDigits(a) && AreDigits(b)
    ensures AreDigits(a + b)
  {
  }

  lemma TimeLabelIsStamp(iso: string)
    requires IsISOTime(iso)
    ensures IsRotationStamp(ToBackupTimeLabel(iso))
  {
    var clock := iso[11..13] + iso[14..16] + iso[17..19];
    var stamp := ToBackupTimeLabel(iso);
    var rest := "_" + clock + "_" + iso[20..23];
    DigitsJoin(iso[11..13], iso[14..16]);
    DigitsJoin(iso[11..13] + iso[14..16], iso[17..19]);
    assert stamp == iso[..10] + rest;
    assert stamp[10..] == rest && rest[1..7] == clock && rest[8..11] == iso[20..23];
    assert stamp[..4] == iso[..4] && stamp[5..7] == iso[5..7] && stamp[8..10] == iso[8..10];
  }

  lemma StampIsTimeLabel(stamp: string)
    requires IsRotationStamp(stamp)
    ensures IsBackupTimeLabel(stamp)
  {
  }

  lemma StampWithTail(stamp: string, tail: string)
    requires IsRotationStamp(stamp) && tail != "" && tail[0] == '_' && AreDigits(tail[1..])
    ensures IsBackupTimeLabel(stamp + tail)
  {
    var all := stamp + tail;
    assert all[..4] == stamp[..4] && all[5..7] == stamp[5..7] && all[8..10] == stamp[8..10];
    if |stamp| == 10 {
      assert all[10..] == tail;
      if |tail| >= 11 {
        assert tail[1..][6] == tail[7];
      }
    } else {
      assert all[10..] == stamp[10..] + tail;
      assert all[10..][1..7] == stamp[10..][1..7];
      assert all[10..][8..11] == stamp[10..][8..11];
      assert HasTimeOfDay(all[10..]) && all[21..] == tail;
    }
  }

  lemma StampedIsTimeLabel(stamp: string, suffix: nat)
    requires IsRotationStamp(stamp)
    ensures IsBackupTimeLabel(Stamped(stamp, suffix))
  {
    if suffix == 0 {
      assert Stamped(stamp, suffix) == stamp;
      StampIsTimeLabel(stamp);
    } else {
      assert ("_" + Decimal(suffix))[1..] == Decimal(suffix);
      StampWithTail(stamp, "_" + Decimal(suffix));
    }
  }

  lemma FirstDotAt(text: string, i: nat)
    requires i < |text| && text[i] == '.' && forall j :: 0 <= j < i ==> text[j] != '.'
    ensures FindDot(text) == i
  {
  }

  lemma NameParts(stem: string, reason: string, last: string)
    ensures var name := stem + "." + reason + "." + last + EXTENSION;
      && |name| > |stem| + 1 + |EXTENSION| && StartsWith(name, stem) && name[|stem|] == '.' && EndsWith(name, EXTENSION)
      && name[|stem| + 1..|name| - |EXTENSION|] == reason + "." + last
  {
    var name := stem + "." + reason + "." + last + EXTENSION;
    assert name == stem + ("." + reason + "." + last + EXTENSION);
  }

  /** "YYYY-MM-DD" or, with 21 characters, "YYYY-MM-DD_HHMMSS_mmm". */
  predicate IsStampText(text: string) {
    (|text| == 10 || |text| == 21) &&
    forall i :: 0 <= i < |text| ==>
      if i == 4 || i == 7 then text[i] == '-' else if i == 10 || i == 17 then text[i] == '_' else '0' <= text[i] <= '9'
  }

  lemma StampMeans(text: string)
    ensures IsRotationStamp(text) <==> IsStampText(text)
  {
    if |text| == 10 || |text| == 21 {
      DateMeans(text);
      if |text| == 21 {
        TimeOfDayMeans(text[10..]);
        assert forall i :: 10 <= i < 21 ==> text[i] == text[10..][i - 10];
      }
    }
  }

  lemma DateMeans(text: string)
    requires |text| >= 10
    ensures HasDate(text) <==>
      forall i :: 0 <= i < 10 ==> if i == 4 || i == 7 then text[i] == '-' else '0' <= text[i] <= '9'
  {
    assert forall i :: 0 <= i < 4 ==> text[..4][i] == text[i];
    assert forall i :: 5 <= i < 7 ==> text[5..7][i - 5] == text[i];
    assert forall i :: 8 <= i < 10 ==> text[8..10][i - 8] == text[i];
  }

  lemma TimeOfDayMeans(rest: string)
    requires |rest| >= 11
    ensures HasTimeOfDay(rest) <==>
      forall i :: 0 <= i < 11 ==> if i == 0 || i == 7 then rest[i] == '_' else '0' <= rest[i] <= '9'
  {
    assert forall i :: 1 <= i < 7 ==> rest[1..7][i - 1] == rest[i];
    assert forall i :: 8 <= i < 11 ==> rest[8..11][i - 8] == rest[i];
  }

  /** Nothing, or '_' and digits. */
  predicate IsTail(text: string, n: nat)
    requires n <= |text|
  {
    n == |text| || (text[n] == '_' && AreDigits(text[n + 1..]))
  }

  /** A time label is a stamp, with or without '_' and digits behind it. */
  lemma LabelMeans(timeLabel: string)
    ensures IsBackupTimeLabel(timeLabel) <==>
      exists n :: 0 <= n <= |timeLabel| && IsStampText(timeLabel[..n]) && IsTail(timeLabel, n)
  {
    if IsBackupTimeLabel(timeLabel) {
      var n := if HasTimeOfDay(timeLabel[10..]) then 21 else 10;
      StampBefore(timeLabel, n);
      assert timeLabel[n..] == "" || timeLabel[n..][1..] == timeLabel[n + 1..];
    }
    if n :| 0 <= n <= |timeLabel| && IsStampText(timeLabel[..n]) && IsTail(timeLabel, n) {
      StampBefore(timeLabel, n);
      if n == 10 && HasTimeOfDay(timeLabel[10..]) {
        assert timeLabel[10..][7] == timeLabel[11..][6];
        assert !IsDigit(timeLabel[11..][6]);
      }
      assert n < |timeLabel| ==> timeLabel[n..][1..] == timeLabel[n + 1..];
    }
  }

  lemma StampBefore(timeLabel: string, n: nat)
    requires n <= |timeLabel| && (n == 10 || n == 21)
    ensures IsStampText(timeLabel[..n]) <==> HasDate(timeLabel) && (n == 21 ==> HasTimeOfDay(timeLabel[10..]))
  {
    var stamp := timeLabel[..n];
    StampMeans(stamp);
    DateMeans(stamp);
    DateMeans(timeLabel);
    assert forall i :: 0 <= i < n ==> stamp[i] == timeLabel[i];
    if n == 21 {
      TimeOfDayMeans(stamp[10..]);
      TimeOfDayMeans(timeLabel[10..]);
      assert forall i :: 0 <= i < 11 ==> stamp[10..][i] == timeLabel[10..][i];
    }
  }

  /** A file is a backup of a log if and only if its name is the log's stem, a reason without a dot, a time label and the
      extension, with dots between them. */
  lemma NameMeans(fileName: string, stem: string)
    ensures IsBackupName(fileName, stem) <==>
      exists reason, timeLabel :: IsNameOf(fileName, stem, reason, timeLabel)
  {
    hide IsBackupTimeLabel;
    if IsBackupName(fileName, stem) {
      var reason, timeLabel := PartsOf(fileName, stem);
    }
    if exists reason, timeLabel :: IsNameOf(fileName, stem, reason, timeLabel) {
      var reason, timeLabel :| IsNameOf(fileName, stem, reason, timeLabel);
      LabelIsLong(timeLabel);
      NameParts(stem, reason, timeLabel);
      FirstDotAt(reason + "." + timeLabel, |reason|);
      assert (reason + "." + timeLabel)[|reason| + 1..] == timeLabel;
    }
  }

  lemma PartsOf(fileName: string, stem: string) returns (reason: string, timeLabel: string)
    requires IsBackupName(fileName, stem)
    ensures IsNameOf(fileName, stem, reason, timeLabel)
  {
    hide IsBackupTimeLabel;
    var inside := fileName[|stem| + 1..|fileName| - |EXTENSION|];
    var dot := FindDot(inside);
    reason, timeLabel := inside[..dot], inside[dot + 1..];
    NameInParts(fileName, stem);
    DotBetween(inside, dot);
    JoinsInside(stem, reason, timeLabel);
  }

  lemma NameInParts(fileName: string, stem: string)
    requires |fileName| > |stem| + 1 + |EXTENSION| && StartsWith(fileName, stem) && fileName[|stem|] == '.'
    requires EndsWith(fileName, EXTENSION)
    ensures fileName == stem + "." + fileName[|stem| + 1..|fileName| - |EXTENSION|] + EXTENSION
  {
  }

  lemma DotBetween(inside: string, dot: nat)
    requires dot < |inside| && inside[dot] == '.'
    ensures inside == inside[..dot] + "." + inside[dot + 1..]
  {
  }

  lemma JoinsInside(stem: string, reason: string, timeLabel: string)
    ensures stem + "." + (reason + "." + timeLabel) + EXTENSION == stem + "." + reason + "." + timeLabel + EXTENSION
  {
  }

  predicate IsNameOf(fileName: string, stem: string, reason: string, timeLabel: string) {
    '.' !in reason && IsBackupTimeLabel(timeLabel) && fileName == stem + "." + reason + "." + timeLabel + ".bak"
  }

  lemma LabelIsLong(timeLabel: string)
    requires IsBackupTimeLabel(timeLabel)
    ensures |timeLabel| >= 10
  {
  }

  /** A backup is recognised as one of its log if and only if the reason it was made for has no '.'. */
  lemma BackupIsRecognised(stem: string, reason: string, stamp: string, suffix: nat)
    requires IsRotationStamp(stamp)
    ensures IsBackupName(BackupName(stem, reason, stamp, suffix), stem) <==> '.' !in reason
  {
    hide IsRotationStamp, IsBackupTimeLabel, Decimal;
    var last := Stamped(stamp, suffix);
    var inside := reason + "." + last;
    StampedIsTimeLabel(stamp, suffix);
    NameParts(stem, reason, last);
    var dot := FindDot(inside);
    assert inside[|reason|] == '.';
    if '.' !in reason {
      FirstDotAt(inside, |reason|);
      assert inside[|reason| + 1..] == last;
    } else {
      var i :| 0 <= i < |reason| && reason[i] == '.';
      assert inside[i] == '.' && dot <= i;
      var rest := inside[dot + 1..];
      assert rest[|reason| - dot - 1] == '.';
      if IsBackupTimeLabel(rest) {
        LabelHasNoDot(rest);
      }
    }
  }

  /** The name of a backup has exactly one '.' between the one after its stem and its extension. */
  lemma OneDotInside(fileName: string, stem: string)
    requires IsBackupName(fileName, stem)
    ensures var dot := |stem| + 1 + FindDot(fileName[|stem| + 1..|fileName| - |EXTENSION|]);
      && |stem| < dot < |fileName| - |EXTENSION| && fileName[|stem|] == fileName[dot] == '.'
      && forall i :: |stem| < i < |fileName| - |EXTENSION| && i != dot ==> fileName[i] != '.'
  {
    hide IsBackupTimeLabel;
    var inside := fileName[|stem| + 1..|fileName| - |EXTENSION|];
    var end := FindDot(inside);
    var last := inside[end + 1..];
    LabelHasNoDot(last);
    forall i | |stem| < i < |fileName| - |EXTENSION| && i != |stem| + 1 + end ensures fileName[i] != '.' {
      var k := i - |stem| - 1;
      assert inside[k] == fileName[i];
      if k > end {
        assert last[k - end - 1] == inside[k];
      }
    }
  }

  /** No file is a backup of two logs. */
  lemma OneStem(fileName: string, stem: string, other: string)
    requires IsBackupName(fileName, stem) && IsBackupName(fileName, other)
    ensures stem == other
  {
    OneDotInside(fileName, stem);
    OneDotInside(fileName, other);
    if |stem| == |other| {
      assert stem == fileName[..|stem|] == other;
    }
  }

  // ---- The first free name ------------------------------------------------------------

  datatype Found = NoName | Found(name: string, suffix: nat)

  /** What looking for a file says. */
  datatype Files = Files(taken: set<string>, unknown: set<string>)

  /** Every name up to this suffix is taken. */
  predicate AllTaken(files: Files, stem: string, reason: string, timeLabel: string, count: nat) {
    forall i :: 0 <= i < count ==>
      BackupName(stem, reason, timeLabel, i) in files.taken && BackupName(stem, reason, timeLabel, i) !in files.unknown
  }

  /** Finds the first name that isn't taken, and gives up exactly if all are taken or, before it, one can't be checked. So
      an existing file is never replaced; and the name found is recognised as a backup exactly if the reason has no '.'. */
  method FindFreeBackupPath(stem: string, reason: string, timeLabel: string, files: Files) returns (found: Found)
    requires IsRotationStamp(timeLabel)
    ensures found.Found? ==>
      && found.suffix <= 1000 && found.name == BackupName(stem, reason, timeLabel, found.suffix)
      && found.name !in files.taken && found.name !in files.unknown
      && AllTaken(files, stem, reason, timeLabel, found.suffix)
      && (IsBackupName(found.name, stem) <==> '.' !in reason)
    ensures found.NoName? <==>
      || AllTaken(files, stem, reason, timeLabel, 1001)
      || exists i :: 0 <= i <= 1000 && BackupName(stem, reason, timeLabel, i) in files.unknown
                     && AllTaken(files, stem, reason, timeLabel, i)
  {
    hide BackupName, IsRotationStamp, IsBackupName;
    for suffix := 0 to MAX_SUFFIX + 1
      invariant AllTaken(files, stem, reason, timeLabel, suffix)
    {
      var candidate := BackupName(stem, reason, timeLabel, suffix);
      if candidate in files.unknown {
        return NoName;
      }
      if candidate !in files.taken {
        BackupIsRecognised(stem, reason, timeLabel, suffix);
        FreeIsFirst(files, stem, reason, timeLabel, suffix);
        return Found(candidate, suffix);
      }
    }
    return NoName;
  }

  lemma FreeIsFirst(files: Files, stem: string, reason: string, timeLabel: string, suffix: nat)
    requires suffix <= MAX_SUFFIX && AllTaken(files, stem, reason, timeLabel, suffix)
    requires var name := BackupName(stem, reason, timeLabel, suffix); name !in files.taken && name !in files.unknown
    ensures !AllTaken(files, stem, reason, timeLabel, MAX_SUFFIX + 1)
    ensures forall i :: 0 <= i <= MAX_SUFFIX && AllTaken(files, stem, reason, timeLabel, i) ==>
              BackupName(stem, reason, timeLabel, i) !in files.unknown
  {
    hide BackupName;
  }

  lemma {:induction false} DecimalOfDigits(n: nat, m: nat)
    requires Decimal(n) == Decimal(m)
    ensures n == m
    decreases n
  {
    var a, b := Decimal(n), Decimal(m);
    assert a[|a| - 1] == '0' + (n % 10) as char && b[|b| - 1] == '0' + (m % 10) as char;
    if n >= 10 && m >= 10 {
      assert Decimal(n / 10) == a[..|a| - 1] && Decimal(m / 10) == b[..|b| - 1];
      DecimalOfDigits(n / 10, m / 10);
    }
  }

  /** Different suffixes are different names, so that a name is taken by no more than one backup. */
  lemma SuffixesDiffer(stem: string, reason: string, stamp: string, n: nat, m: nat)
    requires BackupName(stem, reason, stamp, n) == BackupName(stem, reason, stamp, m)
    ensures n == m
  {
    hide Decimal;
    var front := stem + "." + reason + ".";
    var a, b := Stamped(stamp, n), Stamped(stamp, m);
    assert BackupName(stem, reason, stamp, n) == front + a + EXTENSION;
    assert BackupName(stem, reason, stamp, m) == front + b + EXTENSION;
    SameMiddle(front, a, b, EXTENSION);
    var c, d := if n == 0 then "" else "_" + Decimal(n), if m == 0 then "" else "_" + Decimal(m);
    assert a == stamp + c && b == stamp + d;
    assert stamp + c + "" == stamp + d + "";
    SameMiddle(stamp, c, d, "");
    if n > 0 && m > 0 {
      assert c[1..] == Decimal(n) && d[1..] == Decimal(m);
      DecimalOfDigits(n, m);
    }
  }

  lemma SameMiddle(front: string, a: string, b: string, back: string)
    requires front + a + back == front + b + back
    ensures a == b
  {
    var x, y := front + a + back, front + b + back;
    assert a == x[|front|..|x| - |back|] && b == y[|front|..|y| - |back|];
  }

  // ---- Retention --------------------------------------------------------------------------

  datatype Backup = Backup(name: string, lastWrite: int, size: nat)

  /** A rule of 0 is none. */
  datatype Rules = Rules(maxAge: nat, maxFiles: nat, maxBytes: nat)

  predicate NewestFirst(backups: seq<Backup>) {
    forall i, j :: 0 <= i < j < |backups| ==> backups[i].lastWrite >= backups[j].lastWrite
  }

  function TotalSize(backups: seq<Backup>): nat {
    if backups == [] then 0 else TotalSize(backups[..|backups| - 1]) + backups[|backups| - 1].size
  }

  /** The backups meet the rules together. */
  predicate Meets(backups: seq<Backup>, rules: Rules, now: int) {
    && (rules.maxAge > 0 ==> forall i :: 0 <= i < |backups| ==> backups[i].lastWrite >= now - rules.maxAge)
    && (rules.maxFiles > 0 ==> |backups| <= rules.maxFiles)
    && (rules.maxBytes > 0 ==> TotalSize(backups) <= rules.maxBytes)
  }

  lemma {:induction false} SizesGrow(backups: seq<Backup>, k: nat)
    requires k <= |backups|
    ensures TotalSize(backups[..k]) <= TotalSize(backups)
    decreases |backups|
  {
    if k < |backups| {
      assert backups[..|backups| - 1][..k] == backups[..k];
      SizesGrow(backups[..|backups| - 1], k);
    } else {
      assert backups[..k] == backups;
    }
  }

  /** Fewer of the newest still meet the rules. */
  lemma MeetsFewer(backups: seq<Backup>, rules: Rules, now: int, k: nat)
    requires k <= |backups| && Meets(backups, rules, now)
    ensures Meets(backups[..k], rules, now)
  {
    SizesGrow(backups, k);
  }

  /** Keeps the newest backups as long as they meet the rules together, and deletes the others. The bytes left are never
      less than none, so the subtraction doesn't wrap. */
  method DeleteOldBackups(backups: seq<Backup>, rules: Rules, now: int) returns (kept: seq<Backup>, deleted: seq<Backup>)
    requires NewestFirst(backups)
    ensures kept + deleted == backups
    ensures Meets(kept, rules, now)
    ensures forall k :: |kept| < k <= |backups| ==> !Meets(backups[..k], rules, now)
  {
    hide Meets, TotalSize;
    if rules == Rules(0, 0, 0) {
      NoRules(backups, now);
      return backups, [];
    }
    kept, deleted := [], [];
    NoneMeets(rules, now);
    var cutoff := now - rules.maxAge;
    var keptCount: nat, keptBytes, isOverLimit := 0, 0, false;
    for i := 0 to |backups|
      invariant keptCount <= i && kept == backups[..keptCount] && deleted == backups[keptCount..i]
      invariant keptBytes == TotalSize(kept) && (rules.maxBytes > 0 ==> keptBytes <= rules.maxBytes)
      invariant Meets(kept, rules, now)
      invariant keptCount < i ==> !Meets(backups[..keptCount + 1], rules, now)
      invariant isOverLimit ==> keptCount < i
      invariant !isOverLimit && keptCount < i ==> rules.maxAge > 0 && backups[keptCount].lastWrite < cutoff
    {
      var backup := backups[i];
      OneMore(backups, keptCount, rules, now);
      if !isOverLimit {
        isOverLimit := (rules.maxFiles > 0 && keptCount >= rules.maxFiles) ||
                       (rules.maxBytes > 0 && backup.size > rules.maxBytes - keptBytes);
      }
      var isExpired := rules.maxAge > 0 && backup.lastWrite < cutoff;
      if !isOverLimit && !isExpired {
        assert keptCount == i;
        kept := kept + [backup];
        keptCount := keptCount + 1;
        keptBytes := keptBytes + backup.size;
      } else {
        deleted := deleted + [backup];
      }
    }
    if keptCount < |backups| {
      forall k | keptCount < k <= |backups| ensures !Meets(backups[..k], rules, now) {
        if Meets(backups[..k], rules, now) {
          assert backups[..k][..keptCount + 1] == backups[..keptCount + 1];
          MeetsFewer(backups[..k], rules, now, keptCount + 1);
        }
      }
    }
  }

  lemma NoRules(backups: seq<Backup>, now: int)
    ensures Meets(backups, Rules(0, 0, 0), now)
  {
  }

  lemma NoneMeets(rules: Rules, now: int)
    ensures Meets([], rules, now) && TotalSize([]) == 0
  {
  }

  /** Whether the next backup can be kept too, as the loop tests it. */
  lemma OneMore(backups: seq<Backup>, k: nat, rules: Rules, now: int)
    requires k < |backups| && Meets(backups[..k], rules, now)
    ensures var kept, next := backups[..k], backups[..k + 1];
      && next == kept + [backups[k]] && TotalSize(next) == TotalSize(kept) + backups[k].size
      && (rules.maxBytes > 0 ==> TotalSize(kept) <= rules.maxBytes)
      && (Meets(next, rules, now) <==>
            !(rules.maxFiles > 0 && k >= rules.maxFiles) &&
            !(rules.maxBytes > 0 && backups[k].size > rules.maxBytes - TotalSize(kept)) &&
            !(rules.maxAge > 0 && backups[k].lastWrite < now - rules.maxAge))
  {
    var kept, next := backups[..k], backups[..k + 1];
    assert next[..k] == kept && next[k] == backups[k];
  }
}
