// Texts joined with NULs, and the segments they are read back as.
module NulSegments {
  import opened Framing
  import opened QuotaUnits
  import opened Quota

  predicate IsNulFree(s: string) {
    0 as char !in s
  }

  // The segments between the NULs of a text.
  function NulSplit(s: string): (r: seq<string>)
    ensures r != []
  {
    if s == "" then [""]
    else
      var rest := NulSplit(s[1..]);
      if s[0] == 0 as char then [""] + rest else [[s[0]] + rest[0]] + rest[1..]
  }

  lemma {:induction false} NulJoinOfSplit(s: string)
    ensures NulJoin(NulSplit(s)) == s
    ensures forall i :: 0 <= i < |NulSplit(s)| ==> IsNulFree(NulSplit(s)[i])
  {
    if s != "" {
      NulJoinOfSplit(s[1..]);
      var rest := NulSplit(s[1..]);
      assert s == [s[0]] + s[1..];
      if s[0] == 0 as char {
        assert ([""] + rest)[1..] == rest;
        assert "" + NUL + NulJoin(rest) == [s[0]] + NulJoin(rest);
      } else {
        var joined := [[s[0]] + rest[0]] + rest[1..];
        assert joined[1..] == rest[1..];
        if |rest| > 1 {
          HeadOfJoin([s[0]], rest[0], NulJoin(rest[1..]));
        }
      }
    }
  }

  lemma HeadOfJoin(c: string, head: string, tail: string)
    ensures c + head + NUL + tail == c + (head + NUL + tail)
  {
    Associate(c, head, NUL);
    Associate(c, head + NUL, tail);
  }

  lemma {:induction false} SplitOfNulFree(s: string)
    requires IsNulFree(s)
    ensures NulSplit(s) == [s]
  {
    if s != "" {
      SplitOfNulFree(s[1..]);
      assert s == [s[0]] + s[1..];
    }
  }

  lemma {:induction false} SplitOfConcat(a: string, b: string)
    ensures NulSplit(a + NUL + b) == NulSplit(a) + NulSplit(b)
  {
    TailOfConcat(a, b);
    if a != "" {
      SplitOfConcat(a[1..], b);
      var rest := NulSplit(a[1..]);
      assert (rest + NulSplit(b))[1..] == rest[1..] + NulSplit(b);
    }
  }

  lemma TailOfConcat(a: string, b: string)
    ensures var s := a + NUL + b;
      if a == "" then s[0] == 0 as char && s[1..] == b else s[0] == a[0] && s[1..] == a[1..] + NUL + b
  {
  }

  function Segments(parts: seq<string>): seq<string> {
    if parts == [] then [] else NulSplit(parts[0]) + Segments(parts[1..])
  }

  // Joining loses only where one part ends and the next begins.
  lemma {:induction false} SplitOfJoin(parts: seq<string>)
    requires parts != []
    ensures NulSplit(NulJoin(parts)) == Segments(parts)
  {
    if |parts| > 1 {
      SplitOfJoin(parts[1..]);
      SplitOfConcat(parts[0], NulJoin(parts[1..]));
    } else {
      assert Segments(parts[1..]) == [];
    }
  }

  lemma SegmentsOfCons(part: string, rest: seq<string>)
    ensures Segments([part] + rest) == NulSplit(part) + Segments(rest)
  {
    hide NulSplit;
    assert ([part] + rest)[1..] == rest;
  }

  lemma {:induction false} SplitOfSegments(parts: seq<string>)
    requires parts != [] && forall i :: 0 <= i < |parts| ==> IsNulFree(parts[i])
    ensures NulSplit(NulJoin(parts)) == parts
  {
    hide NulSplit, IsNulFree;
    SplitOfJoin(parts);
    SegmentsOfNulFree(parts);
  }

  lemma {:induction false} SegmentsOfNulFree(parts: seq<string>)
    requires forall i :: 0 <= i < |parts| ==> IsNulFree(parts[i])
    ensures Segments(parts) == parts
  {
    hide NulSplit, IsNulFree;
    if parts != [] {
      SplitOfNulFree(parts[0]);
      SegmentsOfNulFree(parts[1..]);
    }
  }

  lemma SameSegmentsSameText(a: string, b: string)
    requires NulSplit(a) == NulSplit(b)
    ensures a == b
  {
    hide NulSplit, NulJoin, IsNulFree;
    NulJoinOfSplit(a);
    NulJoinOfSplit(b);
  }

  lemma JoinOfOne(s: string)
    ensures NulJoin([s]) == s
  {
  }

  lemma OneSegment(s: string)
    ensures |NulSplit(s)| == 1 <==> IsNulFree(s)
  {
    hide NulSplit, NulJoin, IsNulFree;
    NulJoinOfSplit(s);
    if IsNulFree(s) {
      SplitOfNulFree(s);
    }
    JoinOfOne(NulSplit(s)[0]);
    if |NulSplit(s)| == 1 {
      assert NulSplit(s) == [NulSplit(s)[0]];
    }
  }
}
