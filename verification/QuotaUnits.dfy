// Names of metered resources: the registry-key and version grammars, and the hashed units made of them.
module QuotaUnits {
  import opened Wrappers
  import opened Framing

  const MAX_KEY_BYTES := 128
  const NUL: string := [0 as char]
  const UNIT_DOMAIN: string := "carsinos.execass.technical-resource.unit.v1" + NUL

  // Unicode normalisation form C, and SHA-256 in lower-case hex.
  datatype Library = Library(nfc: string -> string, sha256: string -> string) {
    ghost predicate Valid() {
      && (forall s {:trigger this.nfc(s)} :: IsAscii(s) ==> this.nfc(s) == s)
      && (forall s {:trigger this.sha256(s)} :: |this.sha256(s)| == 64 && AllOf(IsLowerHex, this.sha256(s)))
    }
  }

  predicate AllOf(test: char -> bool, s: string) {
    forall i :: 0 <= i < |s| ==> test(s[i])
  }

  predicate IsAscii(s: string) {
    forall i :: 0 <= i < |s| ==> s[i] as int < 128
  }

  predicate IsLowerLetter(c: char) {
    'a' <= c <= 'z'
  }

  predicate IsDigit(c: char) {
    '0' <= c <= '9'
  }

  predicate IsLowerHex(c: char) {
    IsDigit(c) || 'a' <= c <= 'f'
  }

  predicate IsAlnum(c: char) {
    IsLowerLetter(c) || IsDigit(c)
  }

  predicate IsSeparator(c: char) {
    c == '.' || c == '-'
  }

  // ---------------------------------------------------------------- the grammar of registry keys

  // ([.-][a-z0-9]+)*
  ghost predicate IsKeyTail(s: string)
    decreases |s|
  {
    s == "" || exists n :: 2 <= n <= |s| && IsSegment(s[..n]) && IsKeyTail(s[n..])
  }

  // [.-][a-z0-9]+
  predicate IsSegment(s: string) {
    |s| >= 2 && IsSeparator(s[0]) && AllOf(IsAlnum, s[1..])
  }

  // [a-z][a-z0-9]*
  predicate IsKeyHead(s: string) {
    s != "" && IsLowerLetter(s[0]) && AllOf(IsAlnum, s[1..])
  }

  // [a-z][a-z0-9]*([.-][a-z0-9]+)*
  ghost predicate IsRegistryKey(s: string) {
    exists n :: 0 < n <= |s| && IsKeyHead(s[..n]) && IsKeyTail(s[n..])
  }

  // ---------------------------------------------------------------- the automaton

  // What may follow in a key, given whether the last character was a separator.
  predicate IsRest(s: string, afterSeparator: bool) {
    if s == "" then !afterSeparator
    else if IsAlnum(s[0]) then IsRest(s[1..], false)
    else IsSeparator(s[0]) && !afterSeparator && IsRest(s[1..], true)
  }

  // What may follow inside a segment: more of it, and then further segments.
  ghost predicate IsContinuation(s: string) {
    exists n :: 0 <= n <= |s| && AllOf(IsAlnum, s[..n]) && IsKeyTail(s[n..])
  }

  lemma {:induction false} RestIsContinuation(s: string)
    ensures IsRest(s, false) <==> IsContinuation(s)
    ensures IsRest(s, true) <==> s != "" && IsAlnum(s[0]) && IsContinuation(s[1..])
    decreases |s|
  {
    if s == "" {
      assert AllOf(IsAlnum, s[..0]) && IsKeyTail(s[0..]);
    } else {
      RestIsContinuation(s[1..]);
      if IsAlnum(s[0]) {
        ContinuationThroughAlnum(s);
      } else {
        ContinuationThroughSeparator(s);
      }
    }
  }

  lemma ContinuationThroughAlnum(s: string)
    requires s != "" && IsAlnum(s[0])
    ensures IsContinuation(s) <==> IsContinuation(s[1..])
  {
    hide IsKeyTail;
    var t := s[1..];
    if IsContinuation(t) {
      var n :| 0 <= n <= |t| && AllOf(IsAlnum, t[..n]) && IsKeyTail(t[n..]);
      assert s[..n + 1] == [s[0]] + t[..n] && s[n + 1..] == t[n..];
    }
    if IsContinuation(s) {
      var n :| 0 <= n <= |s| && AllOf(IsAlnum, s[..n]) && IsKeyTail(s[n..]);
      TailStartsWithSeparator(s[n..]);
      assert n > 0;
      assert t[..n - 1] == s[..n][1..] && t[n - 1..] == s[n..];
    }
  }

  lemma TailStartsWithSeparator(s: string)
    requires IsKeyTail(s)
    ensures s != "" ==> IsSeparator(s[0])
  {
    if s != "" {
      var n :| 2 <= n <= |s| && IsSegment(s[..n]) && IsKeyTail(s[n..]);
      assert s[0] == s[..n][0];
    }
  }

  lemma FirstOfAll(s: string, n: nat)
    requires n <= |s| && AllOf(IsAlnum, s[..n])
    ensures n > 0 ==> IsAlnum(s[0])
  {
    if n > 0 {
      assert s[0] == s[..n][0];
    }
  }

  lemma SegmentAt(s: string, m: nat)
    requires 2 <= m <= |s|
    ensures IsSegment(s[..m]) <==> IsSeparator(s[0]) && IsAlnum(s[1]) && AllOf(IsAlnum, s[2..][..m - 2])
    ensures s[m..] == s[2..][m - 2..]
  {
    assert s[..m][0] == s[0];
    assert s[..m][1..] == [s[1]] + s[2..][..m - 2];
    var rest := s[2..][..m - 2];
    assert AllOf(IsAlnum, [s[1]] + rest) <==> IsAlnum(s[1]) && AllOf(IsAlnum, rest) by {
      assert forall i :: 0 <= i < |rest| ==> ([s[1]] + rest)[i + 1] == rest[i];
    }
  }

  lemma ContinuationThroughSeparator(s: string)
    requires s != "" && !IsAlnum(s[0])
    ensures IsContinuation(s) <==> IsSeparator(s[0]) && |s| > 1 && IsAlnum(s[1]) && IsContinuation(s[2..])
  {
    hide AllOf, IsAlnum, IsSeparator, IsSegment;
    if IsContinuation(s) {
      var n :| 0 <= n <= |s| && AllOf(IsAlnum, s[..n]) && IsKeyTail(s[n..]);
      FirstOfAll(s, n);
      assert s[0..] == s;
      var m :| 2 <= m <= |s| && IsSegment(s[..m]) && IsKeyTail(s[m..]);
      SegmentAt(s, m);
      Continues(s[2..], m - 2);
    }
    if IsSeparator(s[0]) && |s| > 1 && IsAlnum(s[1]) && IsContinuation(s[2..]) {
      var n := ContinuationEnd(s[2..]);
      SegmentAt(s, n + 2);
      assert IsKeyTail(s);
      assert AllOf(IsAlnum, s[..0]) by {
        NothingFails(s);
      }
      assert s[0..] == s;
      Continues(s, 0);
    }
  }

  lemma NothingFails(s: string)
    ensures AllOf(IsAlnum, s[..0])
  {
  }

  lemma SplitAfterFirst(s: string, n: nat)
    requires 0 < n <= |s|
    ensures s[..n][0] == s[0] && s[..n][1..] == s[1..][..n - 1] && s[n..] == s[1..][n - 1..]
  {
  }

  lemma RegistryKeyIsHeadAndRest(s: string)
    ensures IsRegistryKey(s) <==> s != "" && IsLowerLetter(s[0]) && IsRest(s[1..], false)
  {
    hide IsKeyTail, IsRest, AllOf, IsAlnum, IsLowerLetter, IsContinuation;
    if IsRegistryKey(s) {
      var n :| 0 < n <= |s| && IsKeyHead(s[..n]) && IsKeyTail(s[n..]);
      SplitAfterFirst(s, n);
      Continues(s[1..], n - 1);
      RestIsContinuation(s[1..]);
    }
    if s != "" && IsLowerLetter(s[0]) && IsRest(s[1..], false) {
      RestIsContinuation(s[1..]);
      var n := ContinuationEnd(s[1..]);
      SplitAfterFirst(s, n + 1);
      assert IsKeyHead(s[..n + 1]);
    }
  }

  lemma Continues(t: string, n: nat)
    requires n <= |t| && AllOf(IsAlnum, t[..n]) && IsKeyTail(t[n..])
    ensures IsContinuation(t)
  {
    hide AllOf, IsKeyTail;
  }

  lemma ContinuationEnd(t: string) returns (n: nat)
    requires IsContinuation(t)
    ensures n <= |t| && AllOf(IsAlnum, t[..n]) && IsKeyTail(t[n..])
  {
    hide AllOf, IsKeyTail;
    n :| 0 <= n <= |t| && AllOf(IsAlnum, t[..n]) && IsKeyTail(t[n..]);
  }

  lemma {:induction false} RestIsPlain(s: string, afterSeparator: bool)
    requires IsRest(s, afterSeparator)
    ensures IsAscii(s) && 0 as char !in s
  {
    if s != "" {
      RestIsPlain(s[1..], !IsAlnum(s[0]));
      assert s == [s[0]] + s[1..];
    }
  }

  lemma RegistryKeyIsPlain(s: string)
    requires IsRegistryKey(s)
    ensures IsAscii(s) && 0 as char !in s && s != ""
  {
    RegistryKeyIsHeadAndRest(s);
    RestIsPlain(s[1..], false);
    assert s == [s[0]] + s[1..];
  }

  // validate_lower_ascii_registry_key accepts the grammar, up to 128 bytes.
  method ValidateRegistryKey(lib: Library, value: string) returns (ok: bool)
    requires lib.Valid()
    ensures ok <==> IsRegistryKey(value) && |value| <= MAX_KEY_BYTES
  {
    hide IsRegistryKey;
    RegistryKeyIsHeadAndRest(value);
    if IsRegistryKey(value) {
      RegistryKeyIsPlain(value);
    }
    if lib.nfc(value) != value {
      return false;
    }
    if value == "" || |value| > MAX_KEY_BYTES || !IsAscii(value) {
      return false;
    }
    var previousSeparator := false;
    var index := 0;
    while index < |value|
      invariant 0 <= index <= |value|
      invariant index == 0 ==> !previousSeparator
      invariant index > 0 ==> IsLowerLetter(value[0])
      invariant index > 0 ==> (IsRest(value[1..], false) <==> IsRest(value[index..], previousSeparator))
    {
      var byte := value[index];
      var separator := IsSeparator(byte);
      var valid := IsLowerLetter(byte) || (index > 0 && IsDigit(byte)) || (index > 0 && separator && !previousSeparator);
      if !valid {
        return false;
      }
      assert value[index..][1..] == value[index + 1..];
      previousSeparator := separator;
      index := index + 1;
    }
    return !previousSeparator;
  }

  // ---------------------------------------------------------------- versions

  // v[1-9][0-9]*
  predicate IsVersion(s: string) {
    |s| >= 2 && s[0] == 'v' && s[1] != '0' && AllOf(IsDigit, s[1..])
  }

  lemma VersionIsAscii(s: string)
    requires IsVersion(s)
    ensures IsAscii(s)
  {
    forall i | 0 <= i < |s| ensures s[i] as int < 128 {
      assert i > 0 ==> IsDigit(s[1..][i - 1]);
    }
  }

  // validate_connector_version
  method ValidateConnectorVersion(lib: Library, value: string) returns (ok: bool)
    requires lib.Valid()
    ensures ok <==> IsVersion(value)
  {
    if IsVersion(value) {
      VersionIsAscii(value);
    }
    if lib.nfc(value) != value {
      return false;
    }
    if value == "" || value[0] != 'v' {
      return false;
    }
    var number := value[1..];
    if number == "" || !AllOf(IsDigit, number) || number[0] == '0' {
      return false;
    }
    return true;
  }

  // ---------------------------------------------------------------- hashed units

  function Material(identity: string, version: string): string {
    UNIT_DOMAIN + (identity + NUL + version)
  }

  // canonical_hashed_unit
  function HashedUnit(lib: Library, prefix: string, identity: string, version: string): string {
    prefix + ":" + lib.sha256(Material(identity, version))
  }

  method CanonicalConnectorCallUnit(lib: Library, identity: string, version: string) returns (r: Option<string>)
    requires lib.Valid()
    ensures r == if IsRegistryKey(identity) && |identity| <= MAX_KEY_BYTES && IsVersion(version)
                 then Some(HashedUnit(lib, "connector", identity, version)) else None
  {
    var named := ValidateRegistryKey(lib, identity);
    var versioned := ValidateConnectorVersion(lib, version);
    return if named && versioned then Some(HashedUnit(lib, "connector", identity, version)) else None;
  }

  method CanonicalResourceUnit(lib: Library, identity: string, scope: string) returns (r: Option<string>)
    requires lib.Valid()
    ensures r == if IsRegistryKey(identity) && |identity| <= MAX_KEY_BYTES
                    && IsRegistryKey(scope) && |scope| <= MAX_KEY_BYTES
                 then Some(HashedUnit(lib, "resource", identity, scope)) else None
  {
    var named := ValidateRegistryKey(lib, identity);
    var scoped := ValidateRegistryKey(lib, scope);
    return if named && scoped then Some(HashedUnit(lib, "resource", identity, scope)) else None;
  }

  function FirstNul(s: string): nat {
    if s == "" || s[0] == 0 as char then 0 else 1 + FirstNul(s[1..])
  }

  lemma {:induction false} FirstNulOfJoin(a: string, u: string)
    requires 0 as char !in a
    ensures FirstNul(a + NUL + u) == |a|
  {
    if a != "" {
      FirstNulOfJoin(a[1..], u);
      assert (a + NUL + u)[1..] == a[1..] + NUL + u;
    }
  }

  // A text without NUL can be read off the front of a NUL-joined text.
  lemma NulJoinIsInjective(a: string, u: string, b: string, v: string)
    requires 0 as char !in a && 0 as char !in b
    requires a + NUL + u == b + NUL + v
    ensures a == b && u == v
  {
    FirstNulOfJoin(a, u);
    FirstNulOfJoin(b, v);
    Associate(a, NUL, u);
    Associate(b, NUL, v);
    SplitEqual(a, NUL + u, b, NUL + v);
    SplitEqual(NUL, u, NUL, v);
  }

  // A unit determines what it was made of, unless SHA-256 confuses the two materials.
  lemma UnitDeterminesIdentity(lib: Library, prefix: string, a: string, u: string, other: string, b: string, v: string)
    requires lib.Valid()
    requires IsRegistryKey(a) && IsRegistryKey(b)
    requires lib.sha256(Material(a, u)) == lib.sha256(Material(b, v)) ==> Material(a, u) == Material(b, v)
    ensures HashedUnit(lib, prefix, a, u) == HashedUnit(lib, other, b, v) <==> prefix == other && a == b && u == v
  {
    hide IsRegistryKey, Material;
    if HashedUnit(lib, prefix, a, u) == HashedUnit(lib, other, b, v) {
      var h, k := lib.sha256(Material(a, u)), lib.sha256(Material(b, v));
      assert |prefix + ":"| == |other + ":"|;
      SplitEqual(prefix + ":", h, other + ":", k);
      SplitEqual(prefix, ":", other, ":");
      SameMaterial(a, u, b, v);
    }
  }

  lemma SameMaterial(a: string, u: string, b: string, v: string)
    requires IsRegistryKey(a) && IsRegistryKey(b) && Material(a, u) == Material(b, v)
    ensures a == b && u == v
  {
    hide IsRegistryKey;
    RegistryKeyIsPlain(a);
    RegistryKeyIsPlain(b);
    SplitEqual(UNIT_DOMAIN, a + NUL + u, UNIT_DOMAIN, b + NUL + v);
    NulJoinIsInjective(a, u, b, v);
  }
}
