/**
 * The segment analyser's driver: reading segments from text lines, the
 * pairwise intersections of all segments in input order, the points where
 * at least three of those intersections coincide, and the full report.
 */
module SegmentAnalysis {
  import opened Wrappers
  import opened Geometry
  import opened Pairs

  // ---------------------------------------------------------------------
  // read_segments: whitespace splitting and the five-token rule
  // ---------------------------------------------------------------------

  /**
   * The characters str.split() treats as whitespace (str.isspace): the
   * ASCII controls 9-13 and 28-31, the space, and the Unicode spaces
   * U+0085, U+00A0, U+1680, U+2000-U+200A, U+2028, U+2029, U+202F,
   * U+205F and U+3000.
   */
  predicate IsSpace(c: char)
  {
    var n := c as int;
    9 <= n <= 13 || 28 <= n <= 32 || n == 0x85 || n == 0xA0 || n == 0x1680
    || 0x2000 <= n <= 0x200A || n == 0x2028 || n == 0x2029 || n == 0x202F || n == 0x205F || n == 0x3000
  }

  predicate NoSpace(t: string)
  {
    forall k :: 0 <= k < |t| ==> !IsSpace(t[k])
  }

  /** Index of the first whitespace at or after i, or |s|. */
  function WordEnd(s: string, i: nat): (n: nat)
    requires i <= |s|
    ensures i <= n <= |s| && NoSpace(s[i..n]) && (n == |s| || IsSpace(s[n]))
    decreases |s| - i
  {
    if i == |s| || IsSpace(s[i]) then i else WordEnd(s, i + 1)
  }

  /** str.split() with no argument: the maximal runs of non-whitespace. */
  function Tokens(s: string): (ts: seq<string>)
    ensures forall t :: t in ts ==> t != [] && NoSpace(t)
    decreases |s|
  {
    if s == [] then []
    else if IsSpace(s[0]) then Tokens(s[1..])
    else
      var n := WordEnd(s, 0);
      [s[..n]] + Tokens(s[n..])
  }

  /**
   * One input line: exactly five tokens, four coordinates and a segment
   * number, else the line is skipped. Number parsing is a parameter: it
   * yields None where the source's float() or int() raises ValueError.
   */
  function ParseLine(line: string, parseFloat: string -> Option<real>, parseInt: string -> Option<int>): Option<Segment>
  {
    var parts := Tokens(line);
    if |parts| != 5 then None
    else
      match (parseFloat(parts[0]), parseFloat(parts[1]), parseFloat(parts[2]), parseFloat(parts[3]), parseInt(parts[4]))
      case (Some(x1), Some(y1), Some(x2), Some(y2), Some(n)) => Some(Segment(Point(x1, y1), Point(x2, y2), n))
      case _ => None
  }

  function Parsed(line: string, parseFloat: string -> Option<real>, parseInt: string -> Option<int>): seq<Segment>
  {
    match ParseLine(line, parseFloat, parseInt)
    case Some(s) => [s]
    case None => []
  }

  /** The segments of all well-formed lines, in file order. */
  function ParseAll(lines: seq<string>, parseFloat: string -> Option<real>, parseInt: string -> Option<int>): seq<Segment>
  {
    if lines == [] then []
    else ParseAll(lines[..|lines| - 1], parseFloat, parseInt) + Parsed(lines[|lines| - 1], parseFloat, parseInt)
  }

  method ReadSegments(lines: seq<string>, parseFloat: string -> Option<real>, parseInt: string -> Option<int>)
    returns (segments: seq<Segment>)
    ensures segments == ParseAll(lines, parseFloat, parseInt)
  {
    segments := [];
    for i := 0 to |lines|
      invariant segments == ParseAll(lines[..i], parseFloat, parseInt)
    {
      assert lines[..i + 1][..i] == lines[..i];
      var parts := Tokens(lines[i]);
      if |parts| != 5 {
        continue;
      }
      var x1, y1, x2, y2, n :=
        parseFloat(parts[0]), parseFloat(parts[1]), parseFloat(parts[2]), parseFloat(parts[3]), parseInt(parts[4]);
      if x1.Some? && y1.Some? && x2.Some? && y2.Some? && n.Some? {
        segments := segments + [Segment(Point(x1.value, y1.value), Point(x2.value, y2.value), n.value)];
      }
    }
    assert lines[..|lines|] == lines;
  }

  /** Parsing is line by line: the segments of a concatenation are the concatenated segments. */
  lemma {:induction false} ParseAllAppend(a: seq<string>, b: seq<string>,
                                          parseFloat: string -> Option<real>, parseInt: string -> Option<int>)
    ensures ParseAll(a + b, parseFloat, parseInt) == ParseAll(a, parseFloat, parseInt) + ParseAll(b, parseFloat, parseInt)
    decreases |b|
  {
    if b == [] {
      assert a + b == a;
    } else {
      var b' := b[..|b| - 1];
      assert (a + b)[..|a + b| - 1] == a + b';
      ParseAllAppend(a, b', parseFloat, parseInt);
    }
  }

  /** A line without exactly five tokens is skipped and does not stop the lines after it. */
  lemma MalformedLineSkipped(a: seq<string>, line: string, b: seq<string>,
                             parseFloat: string -> Option<real>, parseInt: string -> Option<int>)
    requires |Tokens(line)| != 5
    ensures ParseAll(a + [line] + b, parseFloat, parseInt) == ParseAll(a + b, parseFloat, parseInt)
  {
    assert [line][..0] == [];
    assert ParseAll([line], parseFloat, parseInt) == [];
    ParseAllAppend(a + [line], b, parseFloat, parseInt);
    ParseAllAppend(a, [line], parseFloat, parseInt);
    ParseAllAppend(a, b, parseFloat, parseInt);
  }

  /** A no-break space separates tokens just as a space does. */
  lemma NoBreakSpaceSeparates()
    ensures Tokens("1\U{A0}2") == ["1", "2"]
  {
    assert WordEnd("2", 0) == 1 && "2"[..1] == "2" && "2"[1..] == [];
    assert Tokens("2") == ["2"];
    assert "\U{A0}2"[1..] == "2" && Tokens("\U{A0}2") == ["2"];
    assert WordEnd("1\U{A0}2", 0) == 1 && "1\U{A0}2"[..1] == "1" && "1\U{A0}2"[1..] == "\U{A0}2";
  }

  /** Worked example: "1 2 3" has three tokens, so it yields no segment. */
  lemma ThreeTokenLineSkipped(parseFloat: string -> Option<real>, parseInt: string -> Option<int>)
    ensures ParseLine("1 2 3", parseFloat, parseInt) == None
  {
    assert WordEnd("3", 0) == 1 && "3"[..1] == "3" && "3"[1..] == [];
    assert Tokens("3") == ["3"];
    assert " 3"[1..] == "3" && Tokens(" 3") == ["3"];
    assert WordEnd("2 3", 0) == 1 && "2 3"[..1] == "2" && "2 3"[1..] == " 3";
    assert Tokens("2 3") == ["2", "3"];
    assert " 2 3"[1..] == "2 3" && Tokens(" 2 3") == ["2", "3"];
    assert WordEnd("1 2 3", 0) == 1 && "1 2 3"[..1] == "1" && "1 2 3"[1..] == " 2 3";
    assert Tokens("1 2 3") == ["1", "2", "3"];
  }

  // ---------------------------------------------------------------------
  // find_intersections: one entry per pair i < j, rows in order of i
  // ---------------------------------------------------------------------

  /** All intersection points, one per pair i < j, rows in order of i. */
  function PairIntersections(segs: seq<Segment>): seq<Point>
  {
    AllMeetings(segs, Intersect)
  }

  /** The pairs i < j whose supporting lines meet at p inside the square. */
  ghost function HitPairs(segs: seq<Segment>, p: Point): set<(nat, nat)>
  {
    MeetingPairs(segs, Intersect, p)
  }

  /**
   * Duplicates are kept: p occurs in the list exactly once for every pair
   * i < j whose supporting lines meet at p inside the square.
   */
  lemma PairIntersectionsCount(segs: seq<Segment>, p: Point)
    ensures multiset(PairIntersections(segs))[p] == |HitPairs(segs, p)|
    ensures p in PairIntersections(segs) <==> HitPairs(segs, p) != {}
  {
    AllMeetingsCount(segs, Intersect, p);
  }

  // ---------------------------------------------------------------------
  // find_triple_intersections: exact-equality counting
  // ---------------------------------------------------------------------

  predicate NoDuplicates(s: seq<Point>)
  {
    forall i, j :: 0 <= i < j < |s| ==> s[i] != s[j]
  }

  /** The distinct points of s in order of first occurrence (a dict's key order). */
  function Distinct(s: seq<Point>): (d: seq<Point>)
    ensures forall p :: p in d <==> p in s
    ensures NoDuplicates(d)
  {
    if s == [] then []
    else
      var d := Distinct(s[..|s| - 1]);
      if s[|s| - 1] in d then d else d + [s[|s| - 1]]
  }

  /** How often each point of s occurs in s. */
  function Tally(s: seq<Point>): map<Point, nat>
  {
    if s == [] then map[]
    else
      var c := Tally(s[..|s| - 1]);
      var p := s[|s| - 1];
      c[p := if p in c then c[p] + 1 else 1]
  }

  /** The keys of the tally are the points of s, each mapped to its number of occurrences. */
  lemma {:induction false} TallyCounts(s: seq<Point>)
    ensures forall p :: p in Tally(s) <==> p in s
    ensures forall p :: p in Tally(s) ==> Tally(s)[p] == multiset(s)[p]
  {
    if s != [] {
      var init := s[..|s| - 1];
      TallyCounts(init);
      assert s == init + [s[|s| - 1]];
    }
  }

  /** The keys, in order, that occur at least three times in pts. */
  function Frequent(keys: seq<Point>, pts: seq<Point>): (r: seq<Point>)
    ensures forall p :: p in r <==> p in keys && multiset(pts)[p] >= 3
    ensures NoDuplicates(keys) ==> NoDuplicates(r)
  {
    if keys == [] then []
    else
      var k := keys[|keys| - 1];
      var r := Frequent(keys[..|keys| - 1], pts);
      assert NoDuplicates(keys) ==> k !in keys[..|keys| - 1];
      if multiset(pts)[k] >= 3 then r + [k] else r
  }

  function TriplePoints(pts: seq<Point>): seq<Point>
  {
    Frequent(Distinct(pts), pts)
  }

  /** The triple points are exactly the points listed at least three times, each once. */
  lemma TriplePointsExact(pts: seq<Point>)
    ensures forall p :: p in TriplePoints(pts) <==> multiset(pts)[p] >= 3
    ensures NoDuplicates(TriplePoints(pts))
  {
    forall p | multiset(pts)[p] >= 3 ensures p in pts {
    }
  }

  /**
   * Three segments whose supporting lines all pass through the same point
   * q of the square, pairwise crossing, make q a triple intersection.
   */
  lemma ConcurrentLinesGiveTriple(segs: seq<Segment>, a: nat, b: nat, c: nat, q: Point)
    requires a < b < c < |segs| && InSquare(q)
    requires OnLine(LineThrough(segs[a].p1, segs[a].p2), q)
    requires OnLine(LineThrough(segs[b].p1, segs[b].p2), q)
    requires OnLine(LineThrough(segs[c].p1, segs[c].p2), q)
    requires Cross(Sub(segs[a].p2, segs[a].p1), Sub(segs[b].p2, segs[b].p1)) != 0.0
    requires Cross(Sub(segs[a].p2, segs[a].p1), Sub(segs[c].p2, segs[c].p1)) != 0.0
    requires Cross(Sub(segs[b].p2, segs[b].p1), Sub(segs[c].p2, segs[c].p1)) != 0.0
    ensures q in TriplePoints(PairIntersections(segs))
  {
    IntersectComplete(segs[a], segs[b], q);
    IntersectComplete(segs[a], segs[c], q);
    IntersectComplete(segs[b], segs[c], q);
    var three := {(a, b), (a, c), (b, c)};
    var all := HitPairs(segs, q);
    assert three <= all;
    assert all == three + (all - three);
    assert |three| == 3;
    PairIntersectionsCount(segs, q);
    TriplePointsExact(PairIntersections(segs));
  }

  /** One more point: its count goes up by one, and it is appended to the keys when new. */
  lemma CountNext(points: seq<Point>, k: nat)
    requires k < |points|
    ensures var c := Tally(points[..k]);
      var p := points[k];
      && Tally(points[..k + 1]) == c[p := if p in c then c[p] + 1 else 1]
      && Distinct(points[..k + 1]) == if p in c then Distinct(points[..k]) else Distinct(points[..k]) + [p]
  {
    TallyCounts(points[..k]);
    assert points[..k + 1][..k] == points[..k];
  }

  /** One more key of the count: it is kept when its count reaches three. */
  lemma FrequentNext(order: seq<Point>, k: nat, points: seq<Point>, count: map<Point, nat>)
    requires order == Distinct(points) && count == Tally(points)
    requires k < |order|
    ensures order[k] in count
    ensures Frequent(order[..k + 1], points)
      == if count[order[k]] >= 3 then Frequent(order[..k], points) + [order[k]] else Frequent(order[..k], points)
  {
    TallyCounts(points);
    assert order[..k + 1][..k] == order[..k];
  }

  /** The dict of counts find_triple_intersections builds, with its keys in insertion order. */
  method CountPoints(points: seq<Point>) returns (count: map<Point, nat>, order: seq<Point>)
    ensures order == Distinct(points)
    ensures count == Tally(points)
  {
    count := map[];
    order := [];
    for k := 0 to |points|
      invariant order == Distinct(points[..k])
      invariant count == Tally(points[..k])
    {
      var p := points[k];
      CountNext(points, k);
      if p in count {
        count := count[p := count[p] + 1];
      } else {
        count := count[p := 1];
        order := order + [p];
      }
    }
    assert points[..|points|] == points;
  }

  /** The points listed at least three times, each once, in order of first occurrence. */
  method CountTriples(points: seq<Point>) returns (triples: seq<Point>)
    ensures triples == TriplePoints(points)
  {
    var count, order := CountPoints(points);
    triples := [];
    for k := 0 to |order|
      invariant triples == Frequent(order[..k], points)
    {
      FrequentNext(order, k, points, count);
      if count[order[k]] >= 3 {
        triples := triples + [order[k]];
      }
    }
    assert order[..|order|] == order;
  }

  // ---------------------------------------------------------------------
  // The Solution object
  // ---------------------------------------------------------------------

  /** One report: per segment its number and ratio or error, then both point lists. */
  datatype Report = Report(ratios: seq<(int, AreaResult)>, intersections: seq<Point>, triples: seq<Point>)

  class Solution {
    /** The segments read when the object is built; never changed afterwards. */
    const segments: seq<Segment>

    constructor (lines: seq<string>, parseFloat: string -> Option<real>, parseInt: string -> Option<int>)
      ensures segments == ParseAll(lines, parseFloat, parseInt)
    {
      var parsed := ReadSegments(lines, parseFloat, parseInt);
      segments := parsed;
    }

    method FindIntersections() returns (points: seq<Point>)
      ensures points == PairIntersections(segments)
    {
      var n := |segments|;
      points := [];
      for i := 0 to n
        invariant points == Visited(segments, Intersect, i, 0)
      {
        for j := 0 to n
          invariant points == Visited(segments, Intersect, i, j)
        {
          if i < j {
            var hit := Intersect(segments[i], segments[j]);
            if hit.Some? {
              points := points + [hit.value];
            }
          }
        }
      }
    }

    method FindTripleIntersections() returns (triples: seq<Point>)
      ensures triples == TriplePoints(PairIntersections(segments))
    {
      var points := FindIntersections();
      triples := CountTriples(points);
    }

    method RunAnalysis() returns (report: Report)
      ensures |report.ratios| == |segments|
      ensures forall i :: 0 <= i < |segments| ==> report.ratios[i] == (segments[i].id, AreaRatio(segments[i]))
      ensures report.intersections == PairIntersections(segments)
      ensures report.triples == TriplePoints(PairIntersections(segments))
    {
      var ratios: seq<(int, AreaResult)> := [];
      for i := 0 to |segments|
        invariant |ratios| == i
        invariant forall k :: 0 <= k < i ==> ratios[k] == (segments[k].id, AreaRatio(segments[k]))
      {
        ratios := ratios + [(segments[i].id, AreaRatio(segments[i]))];
      }
      var intersections := FindIntersections();
      var triples := FindTripleIntersections();
      report := Report(ratios, intersections, triples);
    }
  }
}
