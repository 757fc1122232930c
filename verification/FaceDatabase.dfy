/**
 * The table of face profiles: at most a hundred entries in memory, printed to a text
 * file and read back with the scanning rules of the C library.
 */
module FaceDatabase {
  import opened Bytes
  import opened Hub

  const MAX_PROFILES := 100
  const MAX_NAME := 255

  const LF: byte := 10
  const CR: byte := 13
  const COLON: byte := 58

  /** A name is what its C string holds: no NUL, and shorter than its array. */
  datatype Profile = Profile(faceId: uint32, name: seq<byte>)

  type Table = seq<Profile>

  predicate IsCString(name: seq<byte>)
  {
    |name| <= MAX_NAME && 0 !in name
  }

  predicate ValidTable(t: Table)
  {
    |t| <= MAX_PROFILES && forall i :: 0 <= i < |t| ==> IsCString(t[i].name)
  }

  // ---- The table in memory ----

  predicate Has(t: Table, faceId: uint32)
  {
    exists i :: 0 <= i < |t| && t[i].faceId == faceId
  }

  predicate UniqueIds(t: Table)
  {
    forall i, j :: 0 <= i < j < |t| ==> t[i].faceId != t[j].faceId
  }

  /** The table with the name of the first entry for the id replaced. */
  function Renamed(t: Table, faceId: uint32, name: seq<byte>): (r: Table)
    ensures |r| == |t|
    ensures forall i :: 0 <= i < |t| ==> r[i].faceId == t[i].faceId
  {
    if t == [] then []
    else if t[0].faceId == faceId then [Profile(faceId, name)] + t[1..]
    else [t[0]] + Renamed(t[1..], faceId, name)
  }

  /** Renaming touches the one entry of the id and nothing else. */
  lemma {:induction false} RenamedEntries(t: Table, faceId: uint32, name: seq<byte>)
    requires UniqueIds(t)
    ensures forall i :: 0 <= i < |t| ==>
      Renamed(t, faceId, name)[i] == if t[i].faceId == faceId then Profile(faceId, name) else t[i]
  {
    if t != [] && t[0].faceId != faceId {
      RenamedEntries(t[1..], faceId, name);
    }
  }

  lemma {:induction false} RenamedAt(t: Table, faceId: uint32, name: seq<byte>, i: nat)
    requires i < |t| && t[i].faceId == faceId && !Has(t[..i], faceId)
    ensures Renamed(t, faceId, name) == t[i := Profile(faceId, name)]
  {
    if i > 0 {
      assert t[..i][0] == t[0];
      var front := t[1..][..i - 1];
      assert forall k :: 0 <= k < |front| ==> front[k] == t[..i][k + 1];
      RenamedAt(t[1..], faceId, name, i - 1);
    }
  }

  class FaceDb {
    const profiles: array<Profile>
    var count: nat
    var file: seq<byte>

    ghost predicate Valid()
      reads this, profiles
    {
      profiles.Length == MAX_PROFILES && count <= MAX_PROFILES && ValidTable(Contents())
    }

    ghost function Contents(): Table
      requires profiles.Length == MAX_PROFILES && count <= MAX_PROFILES
      reads this, profiles
    {
      profiles[..count]
    }

    constructor (file: seq<byte>)
      ensures Valid() && fresh(profiles) && Contents() == [] && this.file == file
    {
      profiles := new Profile[MAX_PROFILES](_ => Profile(0, []));
      count, this.file := 0, file;
    }

    method Rename(faceId: uint32, name: seq<byte>) returns (found: bool)
      requires Valid() && IsCString(name)
      modifies profiles
      ensures Valid() && found == Has(old(Contents()), faceId) && Contents() == Renamed(old(Contents()), faceId, name)
    {
      ghost var t := Contents();
      for i := 0 to count
        invariant Contents() == t && !Has(t[..i], faceId)
      {
        assert profiles[i] == t[i] && t[..i + 1] == t[..i] + [t[i]];
        if profiles[i].faceId == faceId {
          profiles[i] := Profile(faceId, name);
          RenamedAt(t, faceId, name, i);
          assert Contents() == t[i := Profile(faceId, name)];
          return true;
        }
      }
      assert t[..count] == t;
      NothingToRename(t, faceId, name);
      found := false;
    }

    /** Renames a profile; there is none to rename if the id is unknown. */
    method UpdateFaceProfile(faceId: uint32, name: seq<byte>) returns (updated: bool)
      requires Valid() && IsCString(name)
      modifies profiles
      ensures Valid() && updated == Has(old(Contents()), faceId) && Contents() == Renamed(old(Contents()), faceId, name)
    {
      updated := Rename(faceId, name);
    }

    /** Adds a profile or renames the one there is. A full table refuses both, although the interface promises
        that a known profile is overwritten. */
    method AddFaceProfile(faceId: uint32, name: seq<byte>) returns (added: bool)
      requires Valid() && IsCString(name)
      modifies this`count, profiles
      ensures Valid() && added == (|old(Contents())| < MAX_PROFILES)
      ensures Contents() == Added(old(Contents()), faceId, name)
    {
      if count >= MAX_PROFILES {
        return false;
      }
      var found := Rename(faceId, name);
      if found {
        return true;
      }
      NothingToRename(old(Contents()), faceId, name);
      profiles[count] := Profile(faceId, name);
      count := count + 1;
      assert Contents() == old(Contents()) + [Profile(faceId, name)];
      added := true;
    }

    /** Prints the table over the old file and cuts off what is left of that. */
    method FlushToDisk()
      requires Valid()
      modifies this`file
      ensures file == Printed(Contents())
    {
      var position := 0;
      ghost var t := Contents();
      for i := 0 to count
        invariant 0 <= position <= |file| && file[..position] == Printed(t[..i])
      {
        var line := Line(profiles[i]);
        PrintedGrows(t, i);
        file := file[..position] + line + (if position + |line| <= |file| then file[position + |line|..] else []);
        position := position + |line|;
      }
      file := file[..position];
      assert t[..count] == t;
    }

    /** Fills the table with what a scanner finds. */
    method ReadProfiles(scan: Scanner)
      requires profiles.Length == MAX_PROFILES && forall text :: scan(text).Some? ==> IsCString(scan(text).value.0.name)
      modifies this`count, profiles
      ensures Valid() && Contents() == Scanned(scan, file, MAX_PROFILES)
    {
      count := 0;
      var rest := file;
      ghost var whole := Scanned(scan, file, MAX_PROFILES);
      while count < MAX_PROFILES
        invariant 0 <= count <= MAX_PROFILES && ValidTable(Contents())
        invariant count <= |whole| && Contents() == whole[..count]
        invariant Scanned(scan, rest, MAX_PROFILES - count) == whole[count..]
      {
        var found := scan(rest);
        if found.None? {
          break;
        }
        FrontAndRest(whole, count, found.value.0, Scanned(scan, found.value.1, MAX_PROFILES - count - 1));
        ghost var before := Contents();
        profiles[count] := found.value.0;
        assert profiles[..count + 1] == before + [found.value.0];
        rest := found.value.1;
        count := count + 1;
      }
      assert whole[count..] == [];
    }

    /** Rebuilds the table from the file. */
    method Init()
      requires profiles.Length == MAX_PROFILES
      modifies this`count, profiles
      ensures Valid() && Contents() == Scanned(ScanProfile, file, MAX_PROFILES)
    {
      ReadProfiles(ScanProfile);
    }
  }

  lemma FrontAndRest(whole: Table, i: nat, p: Profile, rest: Table)
    requires i <= |whole| && whole[i..] == [p] + rest
    ensures i < |whole| && whole[i] == p && whole[i + 1..] == rest && whole[..i + 1] == whole[..i] + [p]
  {
    assert whole[i..][0] == p && whole[i..][1..] == rest;
  }

  function Added(t: Table, faceId: uint32, name: seq<byte>): Table
  {
    if |t| >= MAX_PROFILES then t
    else if Has(t, faceId) then Renamed(t, faceId, name)
    else t + [Profile(faceId, name)]
  }

  lemma {:induction false} NothingToRename(t: Table, faceId: uint32, name: seq<byte>)
    requires !Has(t, faceId)
    ensures Renamed(t, faceId, name) == t
  {
    if t != [] {
      assert t[0].faceId != faceId;
      assert !Has(t[1..], faceId) by {
        assert forall i :: 0 <= i < |t[1..]| ==> t[1..][i] == t[i + 1];
      }
      NothingToRename(t[1..], faceId, name);
    }
  }

  /** Adding a profile, entry by entry: nothing in a full table, a new name for an id that is there, and
      otherwise one more entry at the end. */
  lemma AddedEntries(t: Table, faceId: uint32, name: seq<byte>)
    requires UniqueIds(t)
    ensures var r := Added(t, faceId, name);
            && (|t| >= 100 ==> r == t)
            && (|t| < 100 && (forall i :: 0 <= i < |t| ==> t[i].faceId != faceId) ==> r == t + [Profile(faceId, name)])
            && (|t| < 100 && (exists i :: 0 <= i < |t| && t[i].faceId == faceId) ==>
                 |r| == |t| && forall i :: 0 <= i < |t| ==> r[i] == if t[i].faceId == faceId then Profile(faceId, name) else t[i])
  {
    RenamedEntries(t, faceId, name);
  }

  /** Ids stay unique, and after an addition the id carries the new name exactly when the table was not full. */
  lemma AddedKeepsIdsUnique(t: Table, faceId: uint32, name: seq<byte>)
    requires UniqueIds(t)
    ensures UniqueIds(Added(t, faceId, name))
    ensures |t| < MAX_PROFILES ==> Profile(faceId, name) in Added(t, faceId, name)
    ensures |t| >= MAX_PROFILES && Profile(faceId, name) !in t ==> Profile(faceId, name) !in Added(t, faceId, name)
    ensures forall p :: p in t && p.faceId != faceId ==> p in Added(t, faceId, name)
  {
    var r := Added(t, faceId, name);
    RenamedEntries(t, faceId, name);
    if |t| < MAX_PROFILES {
      if Has(t, faceId) {
        var i :| 0 <= i < |t| && t[i].faceId == faceId;
        assert r[i] == Profile(faceId, name);
      } else {
        assert r[|t|] == Profile(faceId, name);
      }
    }
    forall p | p in t && p.faceId != faceId ensures p in r {
      var i :| 0 <= i < |t| && t[i] == p;
      assert r[i] == p;
    }
  }

  // ---- Printing ----

  /** A decimal number, as %u prints it. */
  function Digits(n: nat): (s: seq<byte>)
    ensures |s| >= 1
  {
    (if n < 10 then [] else Digits(n / 10)) + [48 + n % 10]
  }

  function Line(p: Profile): seq<byte>
  {
    Digits(p.faceId) + [COLON] + p.name + [LF]
  }

  function Printed(t: Table): seq<byte>
  {
    if t == [] then [] else Line(t[0]) + Printed(t[1..])
  }

  /** The profile 42 of "Al" is the line "42:Al", ended by a line feed. */
  lemma LineOfAProfile()
    ensures Printed([Profile(42, [65, 108])]) == [52, 50, 58, 65, 108, 10]
  {
    assert Digits(4) == [52];
    assert Printed([Profile(42, [65, 108])]) == Line(Profile(42, [65, 108])) + Printed([]);
  }

  lemma {:induction false} PrintedGrows(t: Table, i: nat)
    requires i < |t|
    ensures Printed(t[..i + 1]) == Printed(t[..i]) + Line(t[i])
  {
    if i == 0 {
      assert t[..1] == [t[0]] && t[..0] == [];
      assert Printed([t[0]]) == Line(t[0]) + Printed([]);
    } else {
      PrintedGrows(t[1..], i - 1);
      assert t[..i + 1][1..] == t[1..][..i] && t[..i][1..] == t[1..][..i - 1];
    }
  }

  /** A full table refuses even to rename a profile that it has. */
  lemma FullTableRefusesAKnownProfile()
    ensures var t := seq(MAX_PROFILES, i requires 0 <= i < MAX_PROFILES => Profile(i, [97]));
            && ValidTable(t) && UniqueIds(t) && Has(t, 5)
            && Added(t, 5, [98]) == t && Profile(5, [98]) !in t
  {
    var t := seq(MAX_PROFILES, i requires 0 <= i < MAX_PROFILES => Profile(i, [97]));
    assert t[5] == Profile(5, [97]);
  }

  // ---- Scanning ----

  predicate IsSpace(c: byte)
  {
    c == 32 || 9 <= c <= 13
  }

  predicate IsDigit(c: byte)
  {
    48 <= c <= 57
  }

  function SkipSpace(text: seq<byte>): (rest: seq<byte>)
    ensures rest != [] ==> !IsSpace(rest[0])
  {
    if text != [] && IsSpace(text[0]) then SkipSpace(text[1..]) else text
  }

  /** The length of the run of digits at the front. */
  function DigitRun(text: seq<byte>): (n: nat)
    ensures n <= |text|
  {
    if text != [] && IsDigit(text[0]) then 1 + DigitRun(text[1..]) else 0
  }

  function DigitsValue(digits: seq<byte>): int
  {
    if digits == [] then 0 else 10 * DigitsValue(digits[..|digits| - 1]) + digits[|digits| - 1] - 48
  }

  /** The 64-bit conversion behind %u, stored into 32 bits: too large a number saturates, a sign negates. */
  function Stored(value: int, negative: bool): uint32
  {
    if value >= 0x1_0000_0000_0000_0000 then 0xFFFF_FFFF
    else (if negative then -value else value) % 0x1_0000_0000
  }

  /** %u: white space, an optional sign, at least one digit. */
  function ScanUnsigned(text: seq<byte>): Option<(uint32, seq<byte>)>
  {
    var number := SkipSpace(text);
    var signed := number != [] && (number[0] == 43 || number[0] == 45);
    var digits := if signed then number[1..] else number;
    var n := DigitRun(digits);
    if n == 0 then None else Some((Stored(DigitsValue(digits[..n]), signed && number[0] == 45), digits[n..]))
  }

  /** The length of the run at the front without a line feed, at most `limit`. */
  function LineRun(text: seq<byte>, limit: nat): (n: nat)
    ensures n <= |text| && n <= limit
  {
    if text != [] && limit > 0 && text[0] != LF then 1 + LineRun(text[1..], limit - 1) else 0
  }

  /** The part before the first carriage return, line feed or NUL. */
  function CutName(s: seq<byte>): (name: seq<byte>)
    ensures |name| <= |s| && CR !in name && LF !in name && 0 !in name
  {
    if s == [] || s[0] == CR || s[0] == LF || s[0] == 0 then [] else [s[0]] + CutName(s[1..])
  }

  /** One turn of the scan "%u:%255[^\n]", with the name cut at the end of its line. */
  function ScanProfile(text: seq<byte>): (r: Option<(Profile, seq<byte>)>)
    ensures r.Some? ==> IsLineName(r.value.0.name)
  {
    var id := ScanUnsigned(text);
    if id.None? || id.value.1 == [] || id.value.1[0] != COLON then None else
    var behind := id.value.1[1..];
    var n := LineRun(behind, MAX_NAME);
    if n == 0 then None else Some((Profile(id.value.0, CutName(behind[..n])), behind[n..]))
  }

  type Scanner = seq<byte> -> Option<(Profile, seq<byte>)>

  /** The profiles found one after the other, at most `limit` of them. */
  function Scanned(scan: Scanner, text: seq<byte>, limit: nat): Table
    decreases limit
  {
    if limit == 0 then [] else
    var found := scan(text);
    if found.None? then [] else [found.value.0] + Scanned(scan, found.value.1, limit - 1)
  }

  // ---- Round trip ----

  /** A name that survives the file. */
  predicate IsClean(name: seq<byte>)
  {
    name != [] && CR !in name && LF !in name
  }

  lemma {:induction false} AllDigits(n: nat)
    ensures forall i :: 0 <= i < |Digits(n)| ==> IsDigit(Digits(n)[i])
  {
    if n >= 10 {
      AllDigits(n / 10);
    }
  }

  lemma {:induction false} ValueOfDigits(n: nat)
    ensures DigitsValue(Digits(n)) == n
  {
    var front := if n < 10 then [] else Digits(n / 10);
    assert Digits(n)[..|Digits(n)| - 1] == front;
    if n >= 10 {
      ValueOfDigits(n / 10);
    }
  }

  lemma {:induction false} DigitRunConcat(front: seq<byte>, rest: seq<byte>)
    requires forall i :: 0 <= i < |front| ==> IsDigit(front[i])
    ensures DigitRun(front + rest) == |front| + DigitRun(rest)
  {
    if front == [] {
      assert front + rest == rest;
    } else {
      DigitRunConcat(front[1..], rest);
      assert (front + rest)[1..] == front[1..] + rest;
    }
  }

  lemma SmallNumbersAreStored(n: uint32)
    ensures Stored(n, false) == n
  {
  }

  /** Scanning takes the whole run of digits at the front. */
  lemma DigitsAreScanned(digits: seq<byte>, rest: seq<byte>)
    requires digits != [] && forall i :: 0 <= i < |digits| ==> IsDigit(digits[i])
    requires rest != [] && rest[0] == COLON
    ensures ScanUnsigned(digits + rest) == Some((Stored(DigitsValue(digits), false), rest))
  {
    var text := digits + rest;
    assert IsDigit(digits[0]) && text[0] == digits[0];
    assert SkipSpace(text) == text;
    DigitRunConcat(digits, rest);
    assert DigitRun(rest) == 0;
    assert text[..|digits|] == digits && text[|digits|..] == rest;
  }

  /** Scanning reads back every 32-bit number that was printed, up to the colon. */
  lemma NumberIsRead(n: uint32, rest: seq<byte>)
    requires rest != [] && rest[0] == COLON
    ensures ScanUnsigned(Digits(n) + rest) == Some((n, rest))
  {
    AllDigits(n);
    DigitsAreScanned(Digits(n), rest);
    ValueOfDigits(n);
    SmallNumbersAreStored(n);
  }

  lemma {:induction false} LineRunStops(name: seq<byte>, rest: seq<byte>, limit: nat)
    requires |name| <= limit
    ensures LineRun(name + [LF] + rest, limit) == LineRun(name, limit)
    ensures LineRun(name, limit) == |name| <==> LF !in name
  {
    var text := name + [LF] + rest;
    if name != [] && name[0] != LF {
      LineRunStops(name[1..], rest, limit - 1);
      assert text[1..] == name[1..] + [LF] + rest;
      assert name == [name[0]] + name[1..];
    }
  }

  lemma {:induction false} CutNameIsWholeIff(s: seq<byte>)
    ensures CutName(s) == s <==> CR !in s && LF !in s && 0 !in s
  {
    if s != [] {
      CutNameIsWholeIff(s[1..]);
      assert s == [s[0]] + s[1..];
      if CutName(s) == s {
        assert CutName(s)[1..] == s[1..];
      }
    }
  }

  /** What the scan makes of a number, a colon and the text behind it. */
  lemma LineScan(faceId: uint32, behind: seq<byte>)
    ensures var n := LineRun(behind, MAX_NAME);
            ScanProfile(Digits(faceId) + ([COLON] + behind)) ==
            if n == 0 then None else Some((Profile(faceId, CutName(behind[..n])), behind[n..]))
  {
    NumberIsRead(faceId, [COLON] + behind);
    assert ([COLON] + behind)[1..] == behind;
  }

  lemma LineSplits(p: Profile, rest: seq<byte>)
    ensures Line(p) + rest == Digits(p.faceId) + ([COLON] + (p.name + [LF] + rest))
  {
  }

  /** The run up to the end of the line, cut, is the whole name exactly if that is clean. */
  lemma NameIsRead(name: seq<byte>, rest: seq<byte>)
    requires IsCString(name)
    ensures var behind := name + [LF] + rest;
            var n := LineRun(behind, MAX_NAME);
            && (n > 0 && CutName(behind[..n]) == name <==> IsClean(name))
            && (IsClean(name) ==> behind[n..] == [LF] + rest)
  {
    var behind := name + [LF] + rest;
    LineRunStops(name, rest, MAX_NAME);
    var n := LineRun(name, MAX_NAME);
    assert behind[..n] == name[..n];
    CutNameIsWholeIff(name[..n]);
    if n == |name| {
      assert name[..n] == name && behind[n..] == [LF] + rest;
    }
  }

  /** A printed line is read back as the profile it shows exactly when its name is clean; the scan then stands
      at the end of the line. */
  lemma LineIsRead(p: Profile, rest: seq<byte>)
    requires IsCString(p.name)
    ensures ReadsLine(ScanProfile(Line(p) + rest), p, rest)
  {
    LineSplits(p, rest);
    LineScan(p.faceId, p.name + [LF] + rest);
    NameIsRead(p.name, rest);
  }

  /** What the round trip needs of a scanner: it ends at the end, a line feed in front does not matter, and a
      printed line is read back exactly if its name is clean. */
  ghost predicate ReadsLines(scan: Scanner)
  {
    && scan([]).None?
    && (forall text: seq<byte> :: scan([LF] + text) == scan(text))
    && (forall p: Profile, rest: seq<byte> :: IsCString(p.name) ==> ReadsLine(scan(Line(p) + rest), p, rest))
  }

  predicate ReadsLine(found: Option<(Profile, seq<byte>)>, p: Profile, rest: seq<byte>)
  {
    && (found.Some? && found.value.0 == p <==> IsClean(p.name))
    && (IsClean(p.name) ==> found == Some((p, [LF] + rest)))
  }

  lemma ScanProfileReadsLines()
    ensures ReadsLines(ScanProfile)
  {
    forall text: seq<byte>
      ensures ScanProfile([LF] + text) == ScanProfile(text)
    {
      assert SkipSpace([LF] + text) == SkipSpace(text) by {
        assert ([LF] + text)[1..] == text;
      }
    }
    forall p: Profile, rest: seq<byte> | IsCString(p.name)
      ensures ReadsLine(ScanProfile(Line(p) + rest), p, rest)
    {
      LineIsRead(p, rest);
    }
  }

  predicate AllClean(t: Table)
  {
    forall i :: 0 <= i < |t| ==> IsClean(t[i].name)
  }

  lemma CleanFirstAndRest(t: Table)
    requires t != []
    ensures AllClean(t) <==> IsClean(t[0].name) && AllClean(t[1..])
  {
    assert forall i :: 0 <= i < |t[1..]| ==> t[1..][i] == t[i + 1];
  }

  /** A line feed in front of the text does not matter to the whole scan either. */
  lemma LeadingLineFeed(scan: Scanner, text: seq<byte>, limit: nat)
    requires ReadsLines(scan)
    ensures Scanned(scan, [LF] + text, limit) == Scanned(scan, text, limit)
  {
    assert scan([LF] + text) == scan(text);
  }

  /** The scan agrees with the table exactly if it agrees on the first entry and on the rest. */
  lemma FirstScanned(scan: Scanner, t: Table, limit: nat)
    requires ReadsLines(scan) && 0 < |t| <= limit && IsCString(t[0].name)
    ensures Scanned(scan, Printed(t), limit) == t <==> IsClean(t[0].name) && Scanned(scan, Printed(t[1..]), limit - 1) == t[1..]
  {
    var text, rest := Printed(t), Printed(t[1..]);
    assert ReadsLine(scan(Line(t[0]) + rest), t[0], rest);
    LeadingLineFeed(scan, rest, limit - 1);
    var r := Scanned(scan, text, limit);
    assert t == [t[0]] + t[1..];
    if scan(text).Some? {
      assert r[0] == scan(text).value.0 && r[1..] == Scanned(scan, scan(text).value.1, limit - 1);
    }
  }

  lemma {:induction false} ReadBackIffClean(scan: Scanner, t: Table, limit: nat)
    requires ReadsLines(scan) && |t| <= limit && forall i :: 0 <= i < |t| ==> IsCString(t[i].name)
    ensures Scanned(scan, Printed(t), limit) == t <==> AllClean(t)
    decreases |t|
  {
    if t != [] {
      FirstScanned(scan, t, limit);
      ReadBackIffClean(scan, t[1..], limit - 1);
      CleanFirstAndRest(t);
    }
  }

  /** A table survives printing and scanning, entry by entry and in order, exactly when every name is non-empty
      and free of carriage returns and line feeds. */
  lemma ReloadedIffClean(t: Table)
    requires ValidTable(t)
    ensures Scanned(ScanProfile, Printed(t), MAX_PROFILES) == t <==>
            forall i :: 0 <= i < |t| ==> t[i].name != [] && 13 !in t[i].name && 10 !in t[i].name
  {
    assert AllClean(t) <==> forall i :: 0 <= i < |t| ==> t[i].name != [] && CR !in t[i].name && LF !in t[i].name;
    ScanProfileReadsLines();
    ReadBackIffClean(ScanProfile, t, MAX_PROFILES);
  }

  /** The scan gives up at an empty name, and everything behind it is lost with it. */
  lemma EmptyNameLosesTheRest(faceId: uint32, t: Table)
    ensures Scanned(ScanProfile, Printed([Profile(faceId, [])] + t), MAX_PROFILES) == []
  {
    var whole := [Profile(faceId, [])] + t;
    assert whole[0] == Profile(faceId, []) && whole[1..] == t;
    LineSplits(whole[0], Printed(t));
    LineScan(faceId, [] + [LF] + Printed(t));
  }

  /** What was read from any file survives the next flush and start exactly when no name came out empty. */
  lemma ReloadedTwiceIff(file: seq<byte>)
    ensures var t := Scanned(ScanProfile, file, MAX_PROFILES);
            Scanned(ScanProfile, Printed(t), MAX_PROFILES) == t <==> forall i :: 0 <= i < |t| ==> t[i].name != []
  {
    var t := Scanned(ScanProfile, file, MAX_PROFILES);
    ScannedNames(ScanProfile, file, MAX_PROFILES);
    assert ValidTable(t);
    ReloadedIffClean(t);
  }

  predicate IsLineName(name: seq<byte>)
  {
    IsCString(name) && CR !in name && LF !in name
  }

  lemma {:induction false} ScannedNames(scan: Scanner, file: seq<byte>, limit: nat)
    requires forall text :: scan(text).Some? ==> IsLineName(scan(text).value.0.name)
    ensures var t := Scanned(scan, file, limit);
            |t| <= limit && forall i :: 0 <= i < |t| ==> IsLineName(t[i].name)
    decreases limit
  {
    if limit > 0 && scan(file).Some? {
      ScannedNames(scan, scan(file).value.1, limit - 1);
    }
  }

  /** Flush and restart: the database comes back as it was, exactly when all its names are clean. */
  method FlushAndRestart(db: FaceDb) returns (restarted: FaceDb)
    requires db.Valid()
    modifies db`file
    ensures restarted.Valid() && fresh(restarted)
    ensures restarted.Contents() == db.Contents() <==>
            forall i :: 0 <= i < |db.Contents()| ==>
              db.Contents()[i].name != [] && 13 !in db.Contents()[i].name && 10 !in db.Contents()[i].name
  {
    db.FlushToDisk();
    restarted := new FaceDb(db.file);
    restarted.Init();
    ReloadedIffClean(db.Contents());
  }
}
