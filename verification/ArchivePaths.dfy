// Relative paths of archive members: which names are safe, and which names Windows confuses.
module ArchivePaths {
  import opened Wrappers
  import opened Ordering

  // The parts of a relative path.
  type Path = seq<string>

  const RESERVED_NAMES := [
    "con", "prn", "aux", "nul",
    "com1", "com2", "com3", "com4", "com5", "com6", "com7", "com8", "com9",
    "lpt1", "lpt2", "lpt3", "lpt4", "lpt5", "lpt6", "lpt7", "lpt8", "lpt9"]

  function Slashed(c: char): char {
    if c == '\\' then '/' else c
  }

  // str.split("/")
  function Split(s: string): (r: seq<string>)
    ensures r != []
  {
    if s == "" then [""]
    else
      var rest := Split(s[1..]);
      if s[0] == '/' then [""] + rest else [[s[0]] + rest[0]] + rest[1..]
  }

  // "/".join(parts)
  function Posix(p: Path): string {
    if p == [] then "" else if |p| == 1 then p[0] else p[0] + "/" + Posix(p[1..])
  }

  // part.rstrip(" .")
  function RStrip(part: string): string {
    if part != "" && part[|part| - 1] in " ." then RStrip(part[..|part| - 1]) else part
  }

  // part.split(".", 1)[0]
  function Stem(part: string): string {
    if part == "" || part[0] == '.' then "" else [part[0]] + Stem(part[1..])
  }

  predicate IsSafePart(fold: string -> string, part: string) {
    && part != "" && part != "." && part != ".." && ':' !in part
    && RStrip(part) != ""
    && fold(Stem(RStrip(part))) !in RESERVED_NAMES
  }

  // safe_relative
  function SafeRelative(fold: string -> string, value: string): Option<Path> {
    var raw := Map(Slashed, value);
    if raw == "" || raw[0] == '/' then None
    else
      var parts := Split(raw);
      if forall i :: 0 <= i < |parts| ==> IsSafePart(fold, parts[i]) then Some(parts) else None
  }

  function AliasPart(fold: string -> string, part: string): string {
    fold(RStrip(part))
  }

  // windows_path_alias
  function Alias(fold: string -> string, p: Path): string {
    Posix(Map(part => AliasPart(fold, part), p))
  }

  predicate IsPlainName(part: string) {
    '/' !in part && '\\' !in part
  }

  // A path that keeps its parts when it is written and read again.
  predicate IsSafePath(fold: string -> string, p: Path) {
    && p != []
    && forall i :: 0 <= i < |p| ==> IsSafePart(fold, p[i]) && IsPlainName(p[i])
  }

  // ---------------------------------------------------------------- split and join

  lemma {:induction false} SplitOfName(name: string, rest: string)
    requires '/' !in name
    ensures Split(name) == [name]
    ensures Split(name + "/" + rest) == [name] + Split(rest)
  {
    if name == "" {
      assert name + "/" + rest == "/" + rest;
      assert ("/" + rest)[1..] == rest;
    } else {
      var s := name + "/" + rest;
      assert '/' !in name[1..];
      SplitOfName(name[1..], rest);
      assert s[1..] == name[1..] + "/" + rest;
      assert name == [name[0]] + name[1..];
    }
  }

  lemma {:induction false} SplitOfPosix(p: Path)
    requires p != [] && forall i :: 0 <= i < |p| ==> '/' !in p[i]
    ensures Split(Posix(p)) == p
  {
    if |p| == 1 {
      SplitOfName(p[0], "");
    } else {
      SplitOfPosix(p[1..]);
      SplitOfName(p[0], Posix(p[1..]));
    }
  }

  lemma {:induction false} PosixOfSplit(s: string)
    ensures Posix(Split(s)) == s
    ensures forall i :: 0 <= i < |Split(s)| ==> '/' !in Split(s)[i]
    ensures '\\' !in s ==> forall i :: 0 <= i < |Split(s)| ==> '\\' !in Split(s)[i]
  {
    if s != "" {
      PosixOfSplit(s[1..]);
      var rest := Split(s[1..]);
      if s[0] == '/' {
        assert ([""] + rest)[1..] == rest;
        assert Posix([""] + rest) == "" + "/" + Posix(rest);
      } else {
        var joined := [[s[0]] + rest[0]] + rest[1..];
        assert joined[1..] == rest[1..];
        assert |rest| > 1 ==> Posix(joined) == [s[0]] + rest[0] + "/" + Posix(rest[1..]);
        assert |rest| > 1 ==> Posix(rest) == rest[0] + "/" + Posix(rest[1..]);
      }
    }
  }

  lemma {:induction false} PosixIsPlain(p: Path)
    requires forall i :: 0 <= i < |p| ==> '\\' !in p[i]
    ensures '\\' !in Posix(p)
  {
    if |p| > 1 {
      PosixIsPlain(p[1..]);
    }
  }

  lemma SlashedPlain(s: string)
    ensures '\\' !in Map(Slashed, s)
    ensures '\\' !in s ==> Map(Slashed, s) == s
  {
    forall i | 0 <= i < |s| ensures Map(Slashed, s)[i] != '\\' {
    }
  }

  // Exactly the safe paths of plain names come back as they were.
  lemma SafeRelativeOfPosix(fold: string -> string, p: Path)
    ensures SafeRelative(fold, Posix(p)) == Some(p) <==> IsSafePath(fold, p)
  {
    hide IsSafePart;
    var raw := Map(Slashed, Posix(p));
    SlashedPlain(Posix(p));
    if IsSafePath(fold, p) {
      PosixIsPlain(p);
      SplitOfPosix(p);
      assert IsSafePart(fold, p[0]) && p[0] != "" by {
        PartIsNotEmpty(fold, p[0]);
      }
      assert p[0][0] in p[0] && Posix(p)[0] == p[0][0];
    }
    if SafeRelative(fold, Posix(p)) == Some(p) {
      PosixOfSplit(raw);
    }
  }

  lemma PartIsNotEmpty(fold: string -> string, part: string)
    requires IsSafePart(fold, part)
    ensures part != ""
  {
  }

  // Every path the check lets through is one it lets through unchanged.
  lemma SafeRelativeIsSafe(fold: string -> string, value: string)
    requires SafeRelative(fold, value).Some?
    ensures IsSafePath(fold, SafeRelative(fold, value).value)
    ensures SafeRelative(fold, Posix(SafeRelative(fold, value).value)) == SafeRelative(fold, value)
  {
    hide IsSafePart;
    var raw := Map(Slashed, value);
    SlashedPlain(value);
    PosixOfSplit(raw);
    SafeRelativeOfPosix(fold, Split(raw));
  }

  lemma PosixIsInjective(fold: string -> string, p: Path, q: Path)
    requires IsSafePath(fold, p) && IsSafePath(fold, q) && Posix(p) == Posix(q)
    ensures p == q
  {
    SafeRelativeOfPosix(fold, p);
    SafeRelativeOfPosix(fold, q);
  }

  // ---------------------------------------------------------------- harmless names

  // What is left of a part without its trailing spaces and dots.
  ghost predicate IsCoreOf(core: string, part: string) {
    && core <= part
    && (forall i :: |core| <= i < |part| ==> part[i] == ' ' || part[i] == '.')
    && (core != "" ==> core[|core| - 1] != ' ' && core[|core| - 1] != '.')
  }

  // What comes before the first dot.
  ghost predicate IsStemOf(stem: string, core: string) {
    && stem <= core
    && (forall i :: 0 <= i < |stem| ==> stem[i] != '.')
    && (|stem| < |core| ==> core[|stem|] == '.')
  }

  ghost predicate IsDeviceName(name: string) {
    || name == "con" || name == "prn" || name == "aux" || name == "nul"
    || (|name| == 4 && (name[..3] == "com" || name[..3] == "lpt") && '1' <= name[3] <= '9')
  }

  // A part that names a file or directory where it stands: not the directory itself or the one above,
  // no drive or stream, not blank, and not a device of Windows under any extension.
  ghost predicate IsHarmlessPart(fold: string -> string, part: string) {
    && part != "" && part != "." && part != ".."
    && (forall i :: 0 <= i < |part| ==> part[i] != ':' && part[i] != '/' && part[i] != '\\')
    && (exists i | 0 <= i < |part| :: part[i] != ' ' && part[i] != '.')
    && (forall core, stem :: IsCoreOf(core, part) && IsStemOf(stem, core) ==> !IsDeviceName(fold(stem)))
  }

  ghost predicate IsHarmlessPath(fold: string -> string, p: Path) {
    p != [] && forall i :: 0 <= i < |p| ==> IsHarmlessPart(fold, p[i])
  }

  lemma {:induction false} CoreExactly(part: string, core: string)
    ensures IsCoreOf(core, part) <==> core == RStrip(part)
  {
    if part != "" && part[|part| - 1] in " ." {
      var n := |part| - 1;
      CoreExactly(part[..n], core);
      assert part == part[..n] + [part[n]];
    }
  }

  lemma {:induction false} StemExactly(core: string, stem: string)
    ensures IsStemOf(stem, core) <==> stem == Stem(core)
  {
    if core != "" && core[0] != '.' && stem != "" {
      StemExactly(core[1..], stem[1..]);
      assert stem == [stem[0]] + stem[1..];
    }
  }

  lemma NumberedDevice(d: char)
    requires '1' <= d <= '9'
    ensures "com" + [d] in RESERVED_NAMES && "lpt" + [d] in RESERVED_NAMES
  {
    assert RESERVED_NAMES[4] == "com1" && RESERVED_NAMES[5] == "com2" && RESERVED_NAMES[6] == "com3";
    assert RESERVED_NAMES[7] == "com4" && RESERVED_NAMES[8] == "com5" && RESERVED_NAMES[9] == "com6";
    assert RESERVED_NAMES[10] == "com7" && RESERVED_NAMES[11] == "com8" && RESERVED_NAMES[12] == "com9";
    assert RESERVED_NAMES[13] == "lpt1" && RESERVED_NAMES[14] == "lpt2" && RESERVED_NAMES[15] == "lpt3";
    assert RESERVED_NAMES[16] == "lpt4" && RESERVED_NAMES[17] == "lpt5" && RESERVED_NAMES[18] == "lpt6";
    assert RESERVED_NAMES[19] == "lpt7" && RESERVED_NAMES[20] == "lpt8" && RESERVED_NAMES[21] == "lpt9";
    var c, l := "com" + [d], "lpt" + [d];
    assert c == "com1" || c == "com2" || c == "com3" || c == "com4" || c == "com5" || c == "com6" || c == "com7"
      || c == "com8" || c == "com9";
    assert l == "lpt1" || l == "lpt2" || l == "lpt3" || l == "lpt4" || l == "lpt5" || l == "lpt6" || l == "lpt7"
      || l == "lpt8" || l == "lpt9";
  }

  lemma DevicesExactly(name: string)
    ensures name in RESERVED_NAMES <==> IsDeviceName(name)
  {
    if IsDeviceName(name) && |name| == 4 {
      NumberedDevice(name[3]);
      assert name == name[..3] + [name[3]];
    }
    assert forall k :: 0 <= k < |RESERVED_NAMES| ==> IsDeviceName(RESERVED_NAMES[k]);
  }

  lemma {:induction false} BlankExactly(part: string)
    ensures RStrip(part) != "" <==> exists i | 0 <= i < |part| :: part[i] != ' ' && part[i] != '.'
  {
    if part != "" && part[|part| - 1] in " ." {
      BlankExactly(part[..|part| - 1]);
    }
  }

  lemma SafePartExactly(fold: string -> string, part: string)
    ensures IsHarmlessPart(fold, part) <==> IsSafePart(fold, part) && IsPlainName(part)
  {
    BlankExactly(part);
    CoreExactly(part, RStrip(part));
    StemExactly(RStrip(part), Stem(RStrip(part)));
    DevicesExactly(fold(Stem(RStrip(part))));
    forall core, stem | IsCoreOf(core, part) && IsStemOf(stem, core) ensures stem == Stem(RStrip(part)) {
      CoreExactly(part, core);
      StemExactly(core, stem);
    }
    hide RStrip, Stem, IsCoreOf, IsStemOf, IsDeviceName;
    hide RESERVED_NAMES;
  }

  // The text with its backslashes as slashes.
  ghost predicate IsSlashed(value: string, raw: string) {
    |raw| == |value| && forall i :: 0 <= i < |value| ==> raw[i] == if value[i] == '\\' then '/' else value[i]
  }

  // A name is let through exactly when it is not empty, is relative, and splits at its slashes and
  // backslashes into harmless parts; what it becomes are those parts.
  lemma SafeRelativeExactly(fold: string -> string, value: string, p: Path)
    ensures SafeRelative(fold, value) == Some(p) <==>
      value != "" && value[0] != '/' && value[0] != '\\' && IsHarmlessPath(fold, p) && IsSlashed(value, Posix(p))
  {
    var raw := Map(Slashed, value);
    SlashedPlain(value);
    PosixOfSplit(raw);
    forall part ensures IsHarmlessPart(fold, part) <==> IsSafePart(fold, part) && IsPlainName(part) {
      SafePartExactly(fold, part);
    }
    hide IsHarmlessPart, IsSafePart, Split, Posix;
    if IsHarmlessPath(fold, p) && IsSlashed(value, Posix(p)) {
      assert Posix(p) == raw;
      SplitOfPosix(p);
    }
  }

  // ---------------------------------------------------------------- names Windows confuses

  // Parts that differ only in their case and in trailing spaces and dots.
  ghost predicate AreTwinParts(fold: string -> string, a: string, b: string) {
    forall core, other :: IsCoreOf(core, a) && IsCoreOf(other, b) ==> fold(core) == fold(other)
  }

  ghost predicate AreTwins(fold: string -> string, p: Path, q: Path) {
    |p| == |q| && forall i :: 0 <= i < |p| ==> AreTwinParts(fold, p[i], q[i])
  }

  ghost predicate FoldsBySegment(fold: string -> string) {
    forall s {:trigger fold(s)} :: '/' !in s ==> '/' !in fold(s)
  }

  lemma TwinPartsExactly(fold: string -> string, a: string, b: string)
    ensures AreTwinParts(fold, a, b) <==> AliasPart(fold, a) == AliasPart(fold, b)
  {
    CoreExactly(a, RStrip(a));
    CoreExactly(b, RStrip(b));
    forall core, other | IsCoreOf(core, a) && IsCoreOf(other, b) ensures core == RStrip(a) && other == RStrip(b) {
      CoreExactly(a, core);
      CoreExactly(b, other);
    }
    hide IsCoreOf, RStrip;
  }

  lemma {:induction false} RStripIsPart(part: string)
    requires '/' !in part
    ensures '/' !in RStrip(part)
  {
    if part != "" && part[|part| - 1] in " ." {
      RStripIsPart(part[..|part| - 1]);
    }
  }

  // Two harmless paths have one alias exactly when they are twins.
  lemma AliasExactly(fold: string -> string, p: Path, q: Path)
    requires FoldsBySegment(fold) && IsHarmlessPath(fold, p) && IsHarmlessPath(fold, q)
    ensures Alias(fold, p) == Alias(fold, q) <==> AreTwins(fold, p, q)
  {
    hide AliasPart, AreTwinParts, IsHarmlessPart, Posix, Split;
    var a, b := Map(part => AliasPart(fold, part), p), Map(part => AliasPart(fold, part), q);
    AliasPartsAreNames(fold, p);
    AliasPartsAreNames(fold, q);
    SplitOfPosix(a);
    SplitOfPosix(b);
    forall i | 0 <= i < |p| && i < |q| ensures AreTwinParts(fold, p[i], q[i]) <==> a[i] == b[i] {
      TwinPartsExactly(fold, p[i], q[i]);
    }
    if AreTwins(fold, p, q) {
      assert a == b;
    }
  }

  lemma AliasPartsAreNames(fold: string -> string, p: Path)
    requires FoldsBySegment(fold) && IsHarmlessPath(fold, p)
    ensures forall i :: 0 <= i < |p| ==> '/' !in AliasPart(fold, p[i])
  {
    forall i | 0 <= i < |p| ensures '/' !in AliasPart(fold, p[i]) {
      assert '/' !in p[i] by {
        assert IsHarmlessPart(fold, p[i]);
      }
      RStripIsPart(p[i]);
    }
  }
}
