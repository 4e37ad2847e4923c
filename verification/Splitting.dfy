/**
 DataList::Split and DataList::ToString with a separator (src/core/data_list.h), on strings. Splitting
 scans from the left for a separator in the text followed by one separator.
 */
module Splitting {

  predicate Occurs(data: string, sep: string, p: nat) {
    p + |sep| <= |data| && forall k :: 0 <= k < |sep| ==> data[p + k] == sep[k]
  }

  /** std::string::find: the first occurrence from `i` on, or -1. */
  function Find(data: string, sep: string, i: nat): (p: int)
    ensures p == -1 || (i <= p && Occurs(data, sep, p))
    ensures forall q :: i <= q && Occurs(data, sep, q) ==> 0 <= p <= q
    decreases |data| - i
  {
    if i + |sep| > |data| then -1
    else if Occurs(data, sep, i) then i
    else Find(data, sep, i + 1)
  }

  /** What the loop of Split adds from `i` on. */
  function Pieces(data: string, sep: string, i: nat): seq<string>
    requires sep != ""
    decreases |data| - i
  {
    var p := Find(data, sep, i);
    if p == -1 then [] else [data[i..p]] + Pieces(data, sep, p + |sep|)
  }

  function Split(s: string, sep: string): seq<string>
    requires sep != ""
  {
    if s == "" then [] else Pieces(s + sep, sep, 0)
  }

  predicate EndsWith(str: string, sep: string) {
    |str| >= |sep| && Occurs(str, sep, |str| - |sep|)
  }

  /** Every string followed by a separator. */
  function Glue(parts: seq<string>, sep: string): string {
    if parts == [] then "" else parts[0] + sep + Glue(parts[1..], sep)
  }

  lemma {:induction false} GlueEnds(parts: seq<string>, sep: string)
    requires parts != []
    ensures EndsWith(Glue(parts, sep), sep)
    decreases |parts|
  {
    var g, rest := Glue(parts, sep), Glue(parts[1..], sep);
    if |parts| > 1 {
      GlueEnds(parts[1..], sep);
      assert g[|g| - |sep|..] == rest[|rest| - |sep|..];
    } else {
      assert rest == "" && g == parts[0] + sep;
    }
  }

  /** ToString: the strings with the separator between them. */
  function Join(parts: seq<string>, sep: string): string {
    if parts == [] then "" else
      GlueEnds(parts, sep);
      Glue(parts, sep)[..|Glue(parts, sep)| - |sep|]
  }

  // ------------------------------------------------------------------------------------------
  // Joining what was split
  // ------------------------------------------------------------------------------------------

  /** The end of the last separator found from `i` on. */
  function End(data: string, sep: string, i: nat): (e: nat)
    requires sep != "" && i <= |data|
    ensures i <= e <= |data|
    decreases |data| - i
  {
    var p := Find(data, sep, i);
    if p == -1 then i else End(data, sep, p + |sep|)
  }

  lemma ThreeSlices(data: string, i: nat, p: nat, sep: string, e: nat)
    requires i <= p && p + |sep| <= e <= |data| && data[p..p + |sep|] == sep
    ensures data[i..p] + sep + data[p + |sep|..e] == data[i..e]
  {
    assert data[i..e] == data[i..p] + data[p..p + |sep|] + data[p + |sep|..e];
  }

  lemma GlueCons(part: string, parts: seq<string>, sep: string)
    ensures Glue([part] + parts, sep) == part + sep + Glue(parts, sep)
  {
    assert ([part] + parts)[1..] == parts;
  }

  lemma {:induction false} GluedPieces(data: string, sep: string, i: nat)
    requires sep != "" && i <= |data|
    ensures Glue(Pieces(data, sep, i), sep) == data[i..End(data, sep, i)]
    decreases |data| - i
  {
    var p := Find(data, sep, i);
    if p != -1 {
      var q := p + |sep|;
      var rest, e := Pieces(data, sep, q), End(data, sep, q);
      calc {
        Glue(Pieces(data, sep, i), sep);
        Glue([data[i..p]] + rest, sep);
        { GlueCons(data[i..p], rest, sep); }
        data[i..p] + sep + Glue(rest, sep);
        { GluedPieces(data, sep, q); }
        data[i..p] + sep + data[q..e];
        { ThreeSlices(data, i, p, sep, e); }
        data[i..e];
      }
    }
  }

  /** No proper part of the separator both begins and ends it; true of every one-character separator. */
  predicate Unbordered(sep: string) {
    forall k :: 0 < k < |sep| ==> sep[..k] != sep[|sep| - k..]
  }

  lemma OverlapIsBorder(data: string, sep: string, p: nat, q: nat)
    requires Occurs(data, sep, p) && Occurs(data, sep, q) && p < q < p + |sep|
    ensures sep[..p + |sep| - q] == sep[q - p..]
  {
    assert sep[..p + |sep| - q] == data[q..p + |sep|] == sep[q - p..];
  }

  /** Two different occurrences of an unbordered separator do not overlap. */
  lemma NoOverlap(data: string, sep: string, p: nat, q: nat)
    requires Unbordered(sep) && Occurs(data, sep, p) && Occurs(data, sep, q) && p < q
    ensures p + |sep| <= q
  {
    if q < p + |sep| {
      OverlapIsBorder(data, sep, p, q);
    }
  }

  lemma {:induction false} ScanReachesTheEnd(s: string, sep: string, i: nat)
    requires sep != "" && Unbordered(sep) && i <= |s|
    ensures End(s + sep, sep, i) == |s + sep|
    decreases |s| - i
  {
    var data := s + sep;
    assert Occurs(data, sep, |s|);
    var p := Find(data, sep, i);
    if p < |s| {
      NoOverlap(data, sep, p, |s|);
      ScanReachesTheEnd(s, sep, p + |sep|);
    } else {
      assert Find(data, sep, |data|) == -1;
    }
  }

  /** Joining gives back the text exactly when the scan uses up the separator put behind it. */
  lemma JoinAfterSplit(s: string, sep: string)
    requires sep != "" && s != ""
    ensures Join(Split(s, sep), sep) == s <==> End(s + sep, sep, 0) == |s + sep|
  {
    var data := s + sep;
    assert Occurs(data, sep, |s|);
    GluedPieces(data, sep, 0);
    assert data[..|s|] == s && data[0..|data|] == data;
  }

  /** For a separator with a border, the text that ends where the border begins is not given back. */
  lemma BorderLosesText(sep: string, k: nat)
    requires 0 < k < |sep| && sep[..k] == sep[|sep| - k..]
    ensures Join(Split(sep[..|sep| - k], sep), sep) != sep[..|sep| - k]
  {
    var s := sep[..|sep| - k];
    var data := s + sep;
    assert data[0..|sep|] == s + sep[..k] == sep;
    assert Occurs(data, sep, 0) && Find(data, sep, 0) == 0;
    assert Find(data, sep, |sep|) == -1;
    assert End(data, sep, 0) == End(data, sep, |sep|) == |sep|;
    JoinAfterSplit(s, sep);
  }

  /** ToString after Split gives back every string if and only if the separator has no border. */
  lemma JoinUndoesSplitIff(sep: string)
    requires sep != ""
    ensures (forall s :: Join(Split(s, sep), sep) == s) <==> Unbordered(sep)
  {
    if Unbordered(sep) {
      forall s: string
        ensures Join(Split(s, sep), sep) == s
      {
        if s != "" {
          ScanReachesTheEnd(s, sep, 0);
          JoinAfterSplit(s, sep);
        }
      }
    } else {
      var k :| 0 < k < |sep| && sep[..k] == sep[|sep| - k..];
      BorderLosesText(sep, k);
    }
  }

  // ------------------------------------------------------------------------------------------
  // Splitting what was joined
  // ------------------------------------------------------------------------------------------

  /** The first separator in the part with a separator behind it is that one. */
  predicate StandsAlone(part: string, sep: string) {
    forall p: nat :: p < |part| ==> !Occurs(part + sep, sep, p)
  }

  lemma OccursInSlice(data: string, sep: string, i: nat, e: nat, q: nat)
    requires i <= e <= |data| && q + |sep| <= e - i
    ensures Occurs(data[i..e], sep, q) <==> Occurs(data, sep, i + q)
  {
    var x, y := data[i..e][q..q + |sep|], data[i + q..i + q + |sep|];
    assert forall k :: 0 <= k < |sep| ==> x[k] == data[i + q + k] == y[k];
    assert x == y;
  }

  lemma FindsInTime(data: string, sep: string, i: nat, at: nat)
    requires i <= at && Occurs(data, sep, at)
    ensures i <= Find(data, sep, i) <= at
  {
  }

  lemma PartAndSeparator(data: string, sep: string, i: nat, at: nat)
    requires i <= at && Occurs(data, sep, at)
    ensures data[i..at + |sep|] == data[i..at] + sep
  {
  }

  /** The separator occurs in the part and the separator behind it where it does in the text. */
  lemma OccursInPart(data: string, sep: string, i: nat, at: nat, q: nat)
    requires i <= at && Occurs(data, sep, at) && q <= at - i
    ensures Occurs(data[i..at] + sep, sep, q) <==> Occurs(data, sep, i + q)
  {
    PartAndSeparator(data, sep, i, at);
    OccursInSlice(data, sep, i, at + |sep|, q);
  }

  lemma SlicesOf(data: string, i: nat, a: string, b: string, c: string)
    requires i <= |data| && data[i..] == a + b + c
    ensures i + |a| + |b| <= |data|
    ensures data[i..i + |a|] == a && data[i + |a|..i + |a| + |b|] == b && data[i + |a| + |b|..] == c
  {
    var d := data[i..];
    assert d[..|a|] == a && d[|a|..|a| + |b|] == b && d[|a| + |b|..] == c;
  }

  /** From `i` on the text is the parts from `k` on, each with a separator behind it. */
  predicate Laid(data: string, i: nat, parts: seq<string>, k: nat, sep: string)
    requires k <= |parts|
    decreases |parts| - k
  {
    if k == |parts| then i == |data|
    else
      var at := i + |parts[k]|;
      Occurs(data, sep, at) && data[i..at] == parts[k] && Laid(data, at + |sep|, parts, k + 1, sep)
  }

  lemma GlueFrom(parts: seq<string>, k: nat, sep: string)
    requires k < |parts|
    ensures Glue(parts[k..], sep) == parts[k] + sep + Glue(parts[k + 1..], sep)
  {
    assert parts[k..][1..] == parts[k + 1..];
  }

  lemma OccursAsSlice(data: string, sep: string, p: nat)
    requires p + |sep| <= |data| && data[p..p + |sep|] == sep
    ensures Occurs(data, sep, p)
  {
    var slice := data[p..p + |sep|];
    assert forall k :: 0 <= k < |sep| ==> data[p + k] == slice[k];
  }

  lemma {:induction false} GlueIsLaid(data: string, i: nat, parts: seq<string>, k: nat, sep: string)
    requires i <= |data| && k <= |parts| && data[i..] == Glue(parts[k..], sep)
    ensures Laid(data, i, parts, k, sep)
    decreases |parts| - k
  {
    if k == |parts| {
      assert i == |data|;
    } else {
      var at := i + |parts[k]|;
      GlueFrom(parts, k, sep);
      SlicesOf(data, i, parts[k], sep, Glue(parts[k + 1..], sep));
      OccursAsSlice(data, sep, at);
      GlueIsLaid(data, at + |sep|, parts, k + 1, sep);
    }
  }

  /** From `i` on the scan stops at the end of every part from `k` on. */
  predicate StopsAtParts(data: string, i: nat, parts: seq<string>, k: nat, sep: string)
    requires k <= |parts|
    decreases |parts| - k
  {
    k == |parts| || (
      var at := i + |parts[k]|;
      Find(data, sep, i) == at && StopsAtParts(data, at + |sep|, parts, k + 1, sep))
  }

  predicate StandAloneFrom(parts: seq<string>, k: nat, sep: string)
    requires k <= |parts|
    decreases |parts| - k
  {
    k == |parts| || (StandsAlone(parts[k], sep) && StandAloneFrom(parts, k + 1, sep))
  }

  lemma {:induction false} StandAloneFromIff(parts: seq<string>, k: nat, sep: string)
    requires k <= |parts|
    ensures StandAloneFrom(parts, k, sep) <==> forall j :: k <= j < |parts| ==> StandsAlone(parts[j], sep)
    decreases |parts| - k
  {
    if k < |parts| {
      StandAloneFromIff(parts, k + 1, sep);
    }
  }

  /** The scan stops at the end of a part exactly when the part stands alone. */
  lemma StopsHereIff(data: string, i: nat, at: nat, part: string, sep: string)
    requires sep != "" && i <= at && Occurs(data, sep, at) && data[i..at] == part
    ensures Find(data, sep, i) == at <==> StandsAlone(part, sep)
  {
    FindsInTime(data, sep, i, at);
    if Find(data, sep, i) < at {
      OccursInPart(data, sep, i, at, Find(data, sep, i) - i);
    } else {
      forall p: nat | p < |part|
        ensures !Occurs(part + sep, sep, p)
      {
        OccursInPart(data, sep, i, at, p);
      }
    }
  }

  lemma {:induction false} StopsIffAlone(data: string, i: nat, parts: seq<string>, k: nat, sep: string)
    requires sep != "" && k <= |parts| && Laid(data, i, parts, k, sep)
    ensures StopsAtParts(data, i, parts, k, sep) <==> StandAloneFrom(parts, k, sep)
    decreases |parts| - k
  {
    if k < |parts| {
      var at := i + |parts[k]|;
      StopsHereIff(data, i, at, parts[k], sep);
      StopsIffAlone(data, at + |sep|, parts, k + 1, sep);
    }
  }

  lemma PiecesFrom(data: string, sep: string, i: nat, p: nat)
    requires sep != "" && Find(data, sep, i) == p
    ensures Pieces(data, sep, i) == [data[i..p]] + Pieces(data, sep, p + |sep|)
  {
  }

  lemma SameByParts(xs: seq<string>, x: string, others: seq<string>, parts: seq<string>, k: nat)
    requires xs == [x] + others && k < |parts|
    ensures xs == parts[k..] <==> x == parts[k] && others == parts[k + 1..]
  {
    assert xs[0] == x && xs[1..] == others && parts[k..] == [parts[k]] + parts[k + 1..];
  }

  lemma SliceIs(data: string, i: nat, p: nat, at: nat, part: string)
    requires i <= p <= |data| && i <= at <= |data| && data[i..at] == part
    ensures data[i..p] == part <==> p == at
  {
    assert |data[i..p]| == p - i && |part| == at - i;
  }

  lemma SameFirst(
      xs: seq<string>, data: string, i: nat, p: nat, at: nat, others: seq<string>, parts: seq<string>, k: nat)
    requires i <= p <= |data| && i <= at <= |data| && xs == [data[i..p]] + others
    requires k < |parts| && data[i..at] == parts[k]
    ensures xs == parts[k..] <==> p == at && others == parts[k + 1..]
  {
    SameByParts(xs, data[i..p], others, parts, k);
    SliceIs(data, i, p, at, parts[k]);
  }

  lemma FirstPieceIff(data: string, i: nat, at: nat, parts: seq<string>, k: nat, sep: string)
    requires sep != "" && k < |parts| && i <= at && Occurs(data, sep, at) && data[i..at] == parts[k]
    ensures Pieces(data, sep, i) == parts[k..] <==>
      Find(data, sep, i) == at && Pieces(data, sep, at + |sep|) == parts[k + 1..]
  {
    FindsInTime(data, sep, i, at);
    var p := Find(data, sep, i);
    PiecesFrom(data, sep, i, p);
    var others := Pieces(data, sep, p + |sep|);
    assert Pieces(data, sep, i) == parts[k..] <==> p == at && others == parts[k + 1..] by {
      SameFirst(Pieces(data, sep, i), data, i, p, at, others, parts, k);
    }
  }

  lemma {:induction false} StopsIffPieces(data: string, i: nat, parts: seq<string>, k: nat, sep: string)
    requires sep != "" && k <= |parts| && Laid(data, i, parts, k, sep)
    ensures StopsAtParts(data, i, parts, k, sep) <==> Pieces(data, sep, i) == parts[k..]
    decreases |parts| - k
  {
    if k < |parts| {
      var at := i + |parts[k]|;
      FirstPieceIff(data, i, at, parts, k, sep);
      StopsIffPieces(data, at + |sep|, parts, k + 1, sep);
    }
  }

  lemma GlueLength(parts: seq<string>, sep: string)
    requires parts != []
    ensures |parts| == 1 ==> |Glue(parts, sep)| == |parts[0]| + |sep|
    ensures |parts| > 1 ==> |Glue(parts, sep)| >= |sep| + |sep|
  {
    if |parts| > 1 {
      GlueEnds(parts[1..], sep);
    }
  }

  /** The text joined and one separator behind it, as Split looks at it. */
  lemma JoinThenSeparator(parts: seq<string>, sep: string)
    requires parts != []
    ensures Join(parts, sep) + sep == Glue(parts, sep)
  {
    GlueEnds(parts, sep);
    var g := Glue(parts, sep);
    assert g[|g| - |sep|..] == sep;
    assert g == g[..|g| - |sep|] + g[|g| - |sep|..];
  }

  lemma JoinIsEmptyIff(parts: seq<string>, sep: string)
    requires sep != "" && parts != []
    ensures Join(parts, sep) == "" <==> parts == [""]
  {
    JoinThenSeparator(parts, sep);
    assert |Join(parts, sep)| == |Glue(parts, sep)| - |sep|;
    GlueLength(parts, sep);
    assert parts == [""] <==> |parts| == 1 && |parts[0]| == 0;
  }

  /**
   Split after ToString gives back a list exactly when it is not the list of one empty string and every
   string of it, with the separator behind it, holds no earlier separator.
   */
  lemma SplitUndoesJoinIff(parts: seq<string>, sep: string)
    requires sep != ""
    ensures Split(Join(parts, sep), sep) == parts
      <==> parts != [""] && forall k :: 0 <= k < |parts| ==> StandsAlone(parts[k], sep)
  {
    if parts != [] {
      JoinIsEmptyIff(parts, sep);
      JoinThenSeparator(parts, sep);
      var data := Glue(parts, sep);
      GlueIsLaid(data, 0, parts, 0, sep);
      StopsIffAlone(data, 0, parts, 0, sep);
      StopsIffPieces(data, 0, parts, 0, sep);
      StandAloneFromIff(parts, 0, sep);
    }
  }

  /** For an unbordered separator that is said of a string alone: it holds no separator. */
  lemma StandsAloneIff(part: string, sep: string)
    requires sep != "" && Unbordered(sep)
    ensures StandsAlone(part, sep) <==> forall p: nat :: !Occurs(part, sep, p)
  {
    var data := part + sep;
    assert Occurs(data, sep, |part|);
    forall p: nat
      ensures Occurs(part, sep, p) <==> p < |part| && Occurs(data, sep, p)
    {
      if p < |part| && Occurs(data, sep, p) {
        NoOverlap(data, sep, p, |part|);
      }
    }
  }

  /** With a border it is not: "a" holds no "aa", and two of them joined by it come back as something else. */
  lemma BorderedListIsLost()
    ensures (forall p: nat :: !Occurs("a", "aa", p)) && Split(Join(["a", "a"], "aa"), "aa") != ["a", "a"]
  {
    assert Occurs("a" + "aa", "aa", 0);
    SplitUndoesJoinIff(["a", "a"], "aa");
  }
}
