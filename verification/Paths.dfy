/**
 * The names the upload handler gives its files: the saved upload is
 * `uploads/<stamp><original name>`, where the stamp is the local time as
 * `strftime("%Y%m%d_%H%M%S_")`, and the subtitle file is that path with
 * everything from its last `.` on replaced by `.srt`.
 */
module Paths {
  import opened Wrappers
  import opened Decimal

  /** The configured upload directory. */
  const UploadFolder: string := "uploads"

  /** Position of the last `c` in `s`, if there is one. */
  function LastIndexOf(s: string, c: char): (r: Option<nat>)
    ensures r.Some? ==> r.value < |s| && s[r.value] == c
                        && forall k :: r.value < k < |s| ==> s[k] != c
    ensures r.None? ==> forall k :: 0 <= k < |s| ==> s[k] != c
  {
    if s == [] then None
    else if s[|s| - 1] == c then Some(|s| - 1)
    else LastIndexOf(s[..|s| - 1], c)
  }

  /** `s.rsplit(sep, 1)[0]`: everything before the last `sep`, or all of `s`. */
  function BeforeLast(s: string, sep: char): string
  {
    match LastIndexOf(s, sep)
    case None => s
    case Some(i) => s[..i]
  }

  /** The subtitle path: `path.rsplit(".", 1)[0] + ".srt"`. */
  function SrtPath(path: string): (r: string)
    ensures |r| >= 4 && r[|r| - 4..] == ".srt"
  {
    var stem := BeforeLast(path, '.');
    assert (stem + ".srt")[|stem|..] == ".srt";
    stem + ".srt"
  }

  /** The last occurrence is unique: any position holding `c` with no `c`
      after it is the one LastIndexOf finds. */
  lemma LastIndexOfIs(s: string, c: char, i: nat)
    requires i < |s| && s[i] == c && forall k :: i < k < |s| ==> s[k] != c
    ensures LastIndexOf(s, c) == Some(i)
  {
  }

  /** A path with an extension keeps its stem and gets `.srt` for the
      extension (only the last extension of `a.tar.gz` is replaced). */
  lemma SrtPathReplacesExtension(stem: string, ext: string)
    requires '.' !in ext
    ensures SrtPath(stem + "." + ext) == stem + ".srt"
  {
    var p := stem + "." + ext;
    forall k | |stem| < k < |p| ensures p[k] != '.' {
      assert p[k] == ext[k - |stem| - 1];
    }
    LastIndexOfIs(p, '.', |stem|);
    assert p[..|stem|] == stem;
  }

  /** A path without a dot gets `.srt` appended whole. */
  lemma SrtPathNoExtension(path: string)
    requires '.' !in path
    ensures SrtPath(path) == path + ".srt"
  {
  }

  /** Deriving the subtitle path of a subtitle path changes nothing. */
  lemma SrtPathIdempotent(path: string)
    ensures SrtPath(SrtPath(path)) == SrtPath(path)
  {
    var r := SrtPath(path);
    var stem := BeforeLast(path, '.');
    assert r == stem + "." + "srt";
    SrtPathReplacesExtension(stem, "srt");
  }

  /** A dot-free directory prefix is carried over untouched: the extension
      replaced is always the one of the file name. */
  lemma SrtPathUnderPrefix(dir: string, name: string)
    requires '.' !in dir
    ensures SrtPath(dir + name) == dir + SrtPath(name)
  {
    BeforeLastUnderPrefix(dir, name);
  }

  /** Cutting at the last `.` of `dir + name` cuts inside `name` when `dir`
      has no `.`. */
  lemma BeforeLastUnderPrefix(dir: string, name: string)
    requires '.' !in dir
    ensures BeforeLast(dir + name, '.') == dir + BeforeLast(name, '.')
  {
    var p := dir + name;
    match LastIndexOf(name, '.')
    case None =>
      forall k | 0 <= k < |p| ensures p[k] != '.' {
        if k >= |dir| { assert p[k] == name[k - |dir|]; }
      }
      assert LastIndexOf(p, '.') == None;
    case Some(i) =>
      forall k | |dir| + i < k < |p| ensures p[k] != '.' {
        assert p[k] == name[k - |dir|];
      }
      LastIndexOfIs(p, '.', |dir| + i);
      assert p[..|dir| + i] == dir + name[..i];
  }

  /** `os.path.join(a, b)` for POSIX paths: an absolute `b` replaces `a`,
      otherwise a separator is inserted unless `a` is empty or ends in one. */
  function Join(a: string, b: string): (r: string)
    ensures |b| <= |r| && r[|r| - |b|..] == b
  {
    if b != [] && b[0] == '/' then b
    else if a == [] || a[|a| - 1] == '/' then a + b
    else a + "/" + b
  }

  /** Joining a non-empty directory and a plain file name makes that name
      the last path component. */
  lemma JoinBaseName(a: string, b: string)
    requires a != [] && b != [] && '/' !in b
    ensures var r := Join(a, b); LastIndexOf(r, '/') == Some(|r| - |b| - 1)
  {
    var r := Join(a, b);
    var dir := if a[|a| - 1] == '/' then a else a + "/";
    assert r == dir + b;
    forall k | |dir| <= k < |r| ensures r[k] != '/' {
      assert r[k] == b[k - |dir|];
    }
    LastIndexOfIs(r, '/', |dir| - 1);
  }

  /** A local date and time as `datetime` holds it. */
  datatype DateTime = DateTime(year: nat, month: nat, day: nat, hour: nat, minute: nat, second: nat)

  predicate ValidDateTime(d: DateTime)
  {
    && 1 <= d.year <= 9999 && 1 <= d.month <= 12 && 1 <= d.day <= 31
    && d.hour < 24 && d.minute < 60 && d.second < 60
  }

  /** `strftime("%Y%m%d_%H%M%S_")`. */
  function StampPrefix(d: DateTime): string
    requires ValidDateTime(d)
  {
    ZeroPad(d.year, 4) + ZeroPad(d.month, 2) + ZeroPad(d.day, 2) + "_"
    + ZeroPad(d.hour, 2) + ZeroPad(d.minute, 2) + ZeroPad(d.second, 2) + "_"
  }

  /** A number below 10^width pads to exactly `width` digits that read back to it. */
  lemma ZeroPadExact(n: nat, width: nat)
    requires width >= 1 && n < Pow10(width)
    ensures |ZeroPad(n, width)| == width && ParseNat(ZeroPad(n, width)) == Some(n)
  {
    DigitsWidth(n, width);
    ZeroPadValue(n, width);
  }

  /** Where the six fields and the two underscores sit in a stamp. */
  lemma StampSlices(y: string, mo: string, dd: string, h: string, mi: string, s: string)
    requires |y| == 4 && |mo| == 2 && |dd| == 2 && |h| == 2 && |mi| == 2 && |s| == 2
    ensures var r := y + mo + dd + "_" + h + mi + s + "_";
      && |r| == 16 && r[..4] == y && r[4..6] == mo && r[6..8] == dd && r[8] == '_'
      && r[9..11] == h && r[11..13] == mi && r[13..15] == s && r[15] == '_'
  {
  }

  /** The stamp is sixteen characters, digits and two underscores, and its
      fields read back as the date and time it was made from. */
  lemma StampPrefixRoundTrip(d: DateTime)
    requires ValidDateTime(d)
    ensures var r := StampPrefix(d);
      && |r| == 16
      && (forall k :: 0 <= k < |r| ==> IsDigit(r[k]) || r[k] == '_')
      && ParseNat(r[..4]) == Some(d.year) && ParseNat(r[4..6]) == Some(d.month)
      && ParseNat(r[6..8]) == Some(d.day) && r[8] == '_'
      && ParseNat(r[9..11]) == Some(d.hour) && ParseNat(r[11..13]) == Some(d.minute)
      && ParseNat(r[13..15]) == Some(d.second) && r[15] == '_'
  {
    assert Pow10(2) == 100;
    assert Pow10(4) == 10000;
    ZeroPadExact(d.year, 4);
    ZeroPadExact(d.month, 2);
    ZeroPadExact(d.day, 2);
    ZeroPadExact(d.hour, 2);
    ZeroPadExact(d.minute, 2);
    ZeroPadExact(d.second, 2);
    var y, mo, dd := ZeroPad(d.year, 4), ZeroPad(d.month, 2), ZeroPad(d.day, 2);
    var h, mi, s := ZeroPad(d.hour, 2), ZeroPad(d.minute, 2), ZeroPad(d.second, 2);
    StampSlices(y, mo, dd, h, mi, s);
    var r := StampPrefix(d);
    forall k | 0 <= k < |r| ensures IsDigit(r[k]) || r[k] == '_' {
      if k < 4 { assert r[k] == y[k]; }
      else if k < 6 { assert r[k] == r[4..6][k - 4]; }
      else if k < 8 { assert r[k] == r[6..8][k - 6]; }
      else if 8 < k < 11 { assert r[k] == r[9..11][k - 9]; }
      else if 11 <= k < 13 { assert r[k] == r[11..13][k - 11]; }
      else if 13 <= k < 15 { assert r[k] == r[13..15][k - 13]; }
    }
  }

  /** The saved file's name: the stamp followed by the client's file name. */
  function UploadName(d: DateTime, filename: string): (r: string)
    requires ValidDateTime(d)
    ensures |filename| <= |r| && r[|r| - |filename|..] == filename
  {
    var stamp := StampPrefix(d);
    assert (stamp + filename)[|stamp|..] == filename;
    stamp + filename
  }

  /** Distinct uploads get distinct names unless they share both the second
      they arrived in and the client's file name. */
  lemma UploadNameInjective(d1: DateTime, f1: string, d2: DateTime, f2: string)
    requires ValidDateTime(d1) && ValidDateTime(d2)
    requires UploadName(d1, f1) == UploadName(d2, f2)
    ensures d1 == d2 && f1 == f2
  {
    StampPrefixRoundTrip(d1);
    StampPrefixRoundTrip(d2);
    var n := UploadName(d1, f1);
    var p1, p2 := StampPrefix(d1), StampPrefix(d2);
    assert n[..16] == p1 && n[16..] == f1 by { assert n == p1 + f1; }
    assert n[..16] == p2 && n[16..] == f2 by { assert n == p2 + f2; }
  }

  /** Where the upload is saved: `os.path.join(UPLOAD_FOLDER, filename)`. */
  function UploadPath(d: DateTime, filename: string): string
    requires ValidDateTime(d)
  {
    Join(UploadFolder, UploadName(d, filename))
  }

  /** The stamp starts with a digit, so the client's name can never make
      the saved path absolute: the upload always lands inside the folder. */
  lemma UploadPathInFolder(d: DateTime, filename: string)
    requires ValidDateTime(d)
    ensures UploadPath(d, filename) == UploadFolder + "/" + StampPrefix(d) + filename
  {
    StampPrefixRoundTrip(d);
    var name := UploadName(d, filename);
    assert name[0] == StampPrefix(d)[0];
  }

  /** The subtitle file sits beside the upload: the folder, the stamp, and
      the client's file name with its last extension replaced by `.srt`. */
  lemma UploadSrtPath(d: DateTime, filename: string)
    requires ValidDateTime(d)
    ensures SrtPath(UploadPath(d, filename)) == UploadFolder + "/" + StampPrefix(d) + SrtPath(filename)
  {
    UploadPathInFolder(d, filename);
    StampPrefixRoundTrip(d);
    var dir := UploadFolder + "/" + StampPrefix(d);
    assert '.' !in dir by {
      forall k | 0 <= k < |dir| ensures dir[k] != '.' {
        if k >= 8 { assert dir[k] == StampPrefix(d)[k - 8]; }
      }
    }
    SrtPathUnderPrefix(dir, filename);
  }
}
