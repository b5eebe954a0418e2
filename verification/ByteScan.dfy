// The raw-byte scanner: every registered canary has encoded variants, and a stream read in chunks is
// searched for all of them. A string holds one character per byte.
module ByteScan {
  import opened Wrappers

  datatype Canary = Canary(identifier: string, value: string)

  datatype Variant = Variant(name: string, bytes: string)

  // One entry of the pattern dictionary, which keeps its insertion order.
  datatype Pattern = Pattern(bytes: string, labels: seq<string>)

  datatype Finding = Finding(tag: string, surface: string, locator: string)

  // A read returns bytes or raises.
  datatype Read = Chunk(bytes: string) | Broken

  // ---------------------------------------------------------------- occurrences

  predicate OccursAt(pattern: string, data: string, k: int) {
    0 <= k <= |data| - |pattern| && data[k..k + |pattern|] == pattern
  }

  predicate Occurs(pattern: string, data: string) {
    exists k :: 0 <= k <= |data| - |pattern| && OccursAt(pattern, data, k)
  }

  // The last n bytes, or all of them.
  function Last(data: string, n: nat): string {
    if |data| <= n then data else data[|data| - n..]
  }

  lemma LastOfLonger(data: string, chunk: string, n: nat)
    ensures Last(Last(data, n) + chunk, n) == Last(data + chunk, n)
  {
    if |data| > n {
      var t := data[|data| - n..];
      assert |t + chunk| == n + |chunk|;
      if |chunk| > 0 {
        assert (t + chunk)[|chunk|..] == (data + chunk)[|data| + |chunk| - n..];
      } else {
        assert t + chunk == t && data + chunk == data;
      }
    }
  }

  lemma OccursInSlice(pattern: string, whole: string, lo: nat, hi: nat, k: int)
    requires lo <= k && k + |pattern| <= hi <= |whole|
    ensures OccursAt(pattern, whole[lo..hi], k - lo) <==> OccursAt(pattern, whole, k)
  {
    var slice := whole[lo..hi];
    var a, b := slice[k - lo..k - lo + |pattern|], whole[k..k + |pattern|];
    assert |a| == |b| && forall x :: 0 <= x < |a| ==> a[x] == slice[k - lo + x] == whole[k + x] == b[x];
    assert a == b;
  }

  // A pattern that ends in the new chunk starts at most |pattern| - 1 bytes before it.
  lemma OccursInLonger(pattern: string, data: string, chunk: string, n: nat)
    requires 0 < |pattern| <= n + 1
    ensures Occurs(pattern, data + chunk) <==> Occurs(pattern, data) || Occurs(pattern, Last(data, n) + chunk)
  {
    hide OccursAt;
    var whole, part := data + chunk, Last(data, n) + chunk;
    var shift := |data| - |Last(data, n)|;
    assert whole[shift..|whole|] == part && whole[0..|data|] == data;
    if k :| 0 <= k <= |whole| - |pattern| && OccursAt(pattern, whole, k) {
      if k + |pattern| <= |data| {
        OccursInSlice(pattern, whole, 0, |data|, k);
      } else {
        OccursInSlice(pattern, whole, shift, |whole|, k);
      }
    }
    if k :| 0 <= k <= |data| - |pattern| && OccursAt(pattern, data, k) {
      OccursInSlice(pattern, whole, 0, |data|, k);
    }
    if k :| 0 <= k <= |part| - |pattern| && OccursAt(pattern, part, k) {
      OccursInSlice(pattern, whole, shift, |whole|, k + shift);
    }
  }

  // ---------------------------------------------------------------- the pattern dictionary

  ghost predicate WellFormed(patterns: seq<Pattern>) {
    && (forall i :: 0 <= i < |patterns| ==> patterns[i].bytes != "")
    && (forall i, j :: 0 <= i < j < |patterns| ==> patterns[i].bytes != patterns[j].bytes)
  }

  // The label is filed under these bytes.
  ghost predicate Labels(patterns: seq<Pattern>, bytes: string, tag: string) {
    exists i :: 0 <= i < |patterns| && patterns[i].bytes == bytes && tag in patterns[i].labels
  }

  function LabelOf(canary: Canary, variant: Variant): string {
    canary.identifier + ":" + variant.name
  }

  predicate IsValidCanary(variants: Canary -> seq<Variant>, canary: Canary) {
    && canary.identifier != "" && canary.value != ""
    && forall i :: 0 <= i < |variants(canary)| ==> variants(canary)[i].bytes != ""
  }

  // One of the first n variants of the canary has these bytes and this label.
  ghost predicate IsVariant(variants: Canary -> seq<Variant>, canary: Canary, n: nat, bytes: string, tag: string) {
    exists i :: 0 <= i < |variants(canary)| && i < n
      && variants(canary)[i].bytes == bytes && LabelOf(canary, variants(canary)[i]) == tag
  }

  ghost predicate IsVariantOfAny(variants: Canary -> seq<Variant>, canaries: seq<Canary>, bytes: string, tag: string) {
    exists i :: 0 <= i < |canaries| && IsVariant(variants, canaries[i], |variants(canaries[i])|, bytes, tag)
  }

  // dict.setdefault(bytes, []).append(label)
  method File(patterns: seq<Pattern>, bytes: string, tag: string) returns (r: seq<Pattern>)
    requires WellFormed(patterns) && bytes != ""
    ensures WellFormed(r)
    ensures forall b, l :: Labels(r, b, l) <==> Labels(patterns, b, l) || (b == bytes && l == tag)
  {
    var i := 0;
    while i < |patterns| && patterns[i].bytes != bytes
      invariant 0 <= i <= |patterns|
      invariant forall j :: 0 <= j < i ==> patterns[j].bytes != bytes
    {
      i := i + 1;
    }
    if i == |patterns| {
      r := patterns + [Pattern(bytes, [tag])];
      assert r[i] == Pattern(bytes, [tag]);
      assert forall j :: 0 <= j < i ==> r[j] == patterns[j];
    } else {
      r := patterns[i := Pattern(bytes, patterns[i].labels + [tag])];
      assert forall j :: 0 <= j < |patterns| && j != i ==> r[j] == patterns[j];
      assert forall l :: l in r[i].labels <==> l in patterns[i].labels || l == tag;
    }
    forall b, l | Labels(patterns, b, l) || (b == bytes && l == tag) ensures Labels(r, b, l) {
      if Labels(patterns, b, l) {
        var j :| 0 <= j < |patterns| && patterns[j].bytes == b && l in patterns[j].labels;
        assert r[j].bytes == b && l in r[j].labels;
      } else {
        assert r[i].bytes == b && l in r[i].labels;
      }
    }
  }

  // _patterns: what is filed is what some canary has for a variant.
  method Patterns(variants: Canary -> seq<Variant>, canaries: seq<Canary>) returns (r: Option<seq<Pattern>>)
    ensures r.Some? <==> forall i :: 0 <= i < |canaries| ==> IsValidCanary(variants, canaries[i])
    ensures r.Some? ==> WellFormed(r.value)
    ensures r.Some? ==>
      forall b, l :: Labels(r.value, b, l) <==> IsVariantOfAny(variants, canaries, b, l)
  {
    var patterns: seq<Pattern> := [];
    var i := 0;
    while i < |canaries|
      invariant 0 <= i <= |canaries| && WellFormed(patterns)
      invariant forall k :: 0 <= k < i ==> IsValidCanary(variants, canaries[k])
      invariant forall b, l :: Labels(patterns, b, l) <==> IsVariantOfAny(variants, canaries[..i], b, l)
    {
      var canary := canaries[i];
      if canary.identifier == "" || canary.value == "" {
        return None;
      }
      ghost var before := patterns;
      var j := 0;
      while j < |variants(canary)|
        invariant 0 <= j <= |variants(canary)| && WellFormed(patterns)
        invariant forall k :: 0 <= k < j ==> variants(canary)[k].bytes != ""
        invariant forall b, l :: Labels(patterns, b, l) <==> Labels(before, b, l) || IsVariant(variants, canary, j, b, l)
      {
        if variants(canary)[j].bytes == "" {
          return None;
        }
        NextVariant(variants, canary, j);
        patterns := File(patterns, variants(canary)[j].bytes, LabelOf(canary, variants(canary)[j]));
        j := j + 1;
      }
      NextCanary(variants, canaries, i);
      i := i + 1;
    }
    assert canaries[..|canaries|] == canaries;
    return Some(patterns);
  }

  lemma NextVariant(variants: Canary -> seq<Variant>, canary: Canary, j: nat)
    requires j < |variants(canary)|
    ensures forall b, l :: IsVariant(variants, canary, j + 1, b, l) <==>
      IsVariant(variants, canary, j, b, l)
      || (variants(canary)[j].bytes == b && LabelOf(canary, variants(canary)[j]) == l)
  {
    hide LabelOf;
    var own := variants(canary);
    forall b, l | IsVariant(variants, canary, j + 1, b, l)
      ensures IsVariant(variants, canary, j, b, l) || (own[j].bytes == b && LabelOf(canary, own[j]) == l)
    {
      var i :| 0 <= i < |own| && i < j + 1 && own[i].bytes == b && LabelOf(canary, own[i]) == l;
    }
    forall b, l | IsVariant(variants, canary, j, b, l) || (own[j].bytes == b && LabelOf(canary, own[j]) == l)
      ensures IsVariant(variants, canary, j + 1, b, l)
    {
      var i :| 0 <= i <= j && own[i].bytes == b && LabelOf(canary, own[i]) == l;
    }
  }

  lemma NextCanary(variants: Canary -> seq<Variant>, canaries: seq<Canary>, i: nat)
    requires i < |canaries|
    ensures forall b, l :: IsVariantOfAny(variants, canaries[..i + 1], b, l) <==>
      IsVariantOfAny(variants, canaries[..i], b, l)
      || IsVariant(variants, canaries[i], |variants(canaries[i])|, b, l)
  {
    hide IsVariant;
    var before, after := canaries[..i], canaries[..i + 1];
    assert after[i] == canaries[i];
    forall b, l | IsVariantOfAny(variants, before, b, l) ensures IsVariantOfAny(variants, after, b, l) {
      var k :| 0 <= k < i && IsVariant(variants, before[k], |variants(before[k])|, b, l);
      assert after[k] == before[k];
    }
    forall b, l | IsVariantOfAny(variants, after, b, l)
      ensures IsVariantOfAny(variants, before, b, l) || IsVariant(variants, canaries[i], |variants(canaries[i])|, b, l)
    {
      var k :| 0 <= k <= i && IsVariant(variants, after[k], |variants(after[k])|, b, l);
      if k < i {
        assert after[k] == before[k];
      }
    }
  }

  // ---------------------------------------------------------------- scanning a stream

  // The findings a search of the whole data gives.
  ghost predicate IsFinding(patterns: seq<Pattern>, data: string, surface: string, locator: string, f: Finding) {
    && f.surface == surface && f.locator == locator
    && exists i :: 0 <= i < |patterns| && Occurs(patterns[i].bytes, data) && f.tag in patterns[i].labels
  }

  ghost predicate AreFindings(patterns: seq<Pattern>, data: string, surface: string, locator: string,
                              findings: seq<Finding>)
  {
    forall f :: f in findings <==> IsFinding(patterns, data, surface, locator, f)
  }

  function FindingsFor(labels: seq<string>, surface: string, locator: string): (r: seq<Finding>)
    ensures forall f :: f in r <==> f.surface == surface && f.locator == locator && f.tag in labels
  {
    if labels == [] then []
    else [Finding(labels[0], surface, locator)] + FindingsFor(labels[1..], surface, locator)
  }

  // _find_bytes; the locator is the hashed one.
  method FindBytes(data: string, patterns: seq<Pattern>, surface: string, locator: string)
    returns (found: seq<Finding>)
    ensures AreFindings(patterns, data, surface, locator, found)
  {
    found := [];
    var i := 0;
    while i < |patterns|
      invariant 0 <= i <= |patterns|
      invariant AreFindings(patterns[..i], data, surface, locator, found)
    {
      NextPattern(patterns, i, data, surface, locator);
      if Occurs(patterns[i].bytes, data) {
        found := found + FindingsFor(patterns[i].labels, surface, locator);
      }
      i := i + 1;
    }
    assert patterns[..|patterns|] == patterns;
  }

  lemma NextPattern(patterns: seq<Pattern>, i: nat, data: string, surface: string, locator: string)
    requires i < |patterns|
    ensures forall f :: IsFinding(patterns[..i + 1], data, surface, locator, f) <==>
      || IsFinding(patterns[..i], data, surface, locator, f)
      || (f.surface == surface && f.locator == locator && Occurs(patterns[i].bytes, data)
          && f.tag in patterns[i].labels)
  {
    hide Occurs;
    var before, after := patterns[..i], patterns[..i + 1];
    assert after[i] == patterns[i];
    assert forall k :: 0 <= k < i ==> after[k] == before[k];
  }

  function Longest(patterns: seq<Pattern>): (r: nat)
    ensures forall i :: 0 <= i < |patterns| ==> |patterns[i].bytes| <= r
    ensures patterns == [] || exists i :: 0 <= i < |patterns| && |patterns[i].bytes| == r
  {
    if patterns == [] then 0
    else
      var rest := Longest(patterns[..|patterns| - 1]);
      var last := |patterns[|patterns| - 1].bytes|;
      if last > rest then last else rest
  }

  // What a reader delivers before its first empty read, and whether a read before that raises.
  function Stream(script: seq<Read>): string {
    if script == [] || script[0].Broken? || script[0].bytes == "" then "" else script[0].bytes + Stream(script[1..])
  }

  predicate Breaks(script: seq<Read>) {
    script != [] && (script[0].Broken? || (script[0].bytes != "" && Breaks(script[1..])))
  }

  class Reader {
    var pending: seq<Read>

    constructor (script: seq<Read>)
      ensures pending == script
    {
      pending := script;
    }

    method ReadChunk() returns (r: Read)
      modifies this
      ensures r == if old(pending) == [] then Chunk("") else old(pending)[0]
      ensures pending == if old(pending) == [] then [] else old(pending)[1..]
    {
      if pending == [] {
        return Chunk("");
      }
      r := pending[0];
      pending := pending[1..];
    }
  }

  // Findings in what was read so far, and in the overlap with the next chunk, are all the findings.
  lemma ChunkFindings(patterns: seq<Pattern>, data: string, chunk: string, n: nat, surface: string, locator: string)
    requires WellFormed(patterns) && forall i :: 0 <= i < |patterns| ==> |patterns[i].bytes| <= n + 1
    ensures forall f :: IsFinding(patterns, data + chunk, surface, locator, f) <==>
      || IsFinding(patterns, data, surface, locator, f)
      || IsFinding(patterns, Last(data, n) + chunk, surface, locator, f)
  {
    hide Occurs, Last;
    forall i | 0 <= i < |patterns|
      ensures Occurs(patterns[i].bytes, data + chunk) <==>
        Occurs(patterns[i].bytes, data) || Occurs(patterns[i].bytes, Last(data, n) + chunk)
    {
      OccursInLonger(patterns[i].bytes, data, chunk, n);
    }
  }

  // _scan_reader: exactly the patterns that occur anywhere in the stream, however it is cut.
  method ScanReader(source: Reader, patterns: seq<Pattern>, surface: string, locator: string, maximum: nat)
    returns (r: Option<seq<Finding>>)
    requires WellFormed(patterns)
    modifies source
    ensures r.None? <==> Breaks(old(source.pending)) || |Stream(old(source.pending))| > maximum
    ensures r.Some? ==> AreFindings(patterns, Stream(old(source.pending)), surface, locator, r.value)
  {
    hide IsFinding, Last, Occurs;
    var remaining := maximum;
    var overlap := if patterns == [] then 0 else Longest(patterns) - 1;
    var tail := "";
    var findings: seq<Finding> := [];
    ghost var seen := "";
    Nothing(patterns, surface, locator, overlap);
    while true
      invariant remaining == maximum - |seen|
      invariant seen + Stream(source.pending) == Stream(old(source.pending))
      invariant Breaks(source.pending) == Breaks(old(source.pending))
      invariant remaining >= 0
      invariant tail == Last(seen, overlap)
      invariant AreFindings(patterns, seen, surface, locator, findings)
      decreases |source.pending|
    {
      var chunk := source.ReadChunk();
      if chunk.Broken? {
        return None;
      }
      if chunk.bytes == "" {
        assert seen + "" == seen;
        return Some(findings);
      }
      remaining := remaining - |chunk.bytes|;
      if remaining < 0 {
        return None;
      }
      var found := FindBytes(tail + chunk.bytes, patterns, surface, locator);
      findings := findings + found;
      ChunkFindings(patterns, seen, chunk.bytes, overlap, surface, locator);
      LastOfLonger(seen, chunk.bytes, overlap);
      tail := Last(tail + chunk.bytes, overlap);
      seen := seen + chunk.bytes;
    }
  }

  // require_clean: no findings.
  predicate IsClean(findings: seq<Finding>) {
    findings == []
  }

  // A clean scan with the filed patterns: no variant of any canary occurs in the stream.
  lemma CleanMeansAbsent(variants: Canary -> seq<Variant>, canaries: seq<Canary>, patterns: seq<Pattern>, data: string,
                         surface: string, locator: string, findings: seq<Finding>)
    requires forall b, l :: Labels(patterns, b, l) <==> IsVariantOfAny(variants, canaries, b, l)
    requires AreFindings(patterns, data, surface, locator, findings)
    ensures IsClean(findings) <==>
      forall b, l :: IsVariantOfAny(variants, canaries, b, l) ==> !Occurs(b, data)
  {
    hide Occurs, IsVariantOfAny;
    if f :| f in findings {
      assert IsFinding(patterns, data, surface, locator, f);
      var i :| 0 <= i < |patterns| && Occurs(patterns[i].bytes, data) && f.tag in patterns[i].labels;
      assert Labels(patterns, patterns[i].bytes, f.tag);
    }
    if b, l :| IsVariantOfAny(variants, canaries, b, l) && Occurs(b, data) {
      assert Labels(patterns, b, l);
      assert IsFinding(patterns, data, surface, locator, Finding(l, surface, locator));
    }
    assert findings != [] ==> findings[0] in findings;
  }

  lemma Nothing(patterns: seq<Pattern>, surface: string, locator: string, n: nat)
    requires WellFormed(patterns)
    ensures AreFindings(patterns, "", surface, locator, []) && Last("", n) == ""
  {
  }
}
