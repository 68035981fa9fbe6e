/**
 Range header parsing and range coalescing (src/pounce/_static.py:727-837).
 Byte positions are inclusive, as in section 2.1 of RFC 7233.
 */
module ByteRanges {
  import opened Wrappers
  import opened Text
  import FastH1

  const MAX_RANGES := 10

  datatype Range = Range(start: int, end: int)

  predicate In(r: Range, b: int) {
    r.start <= b <= r.end
  }

  ghost predicate Covers(rs: seq<Range>, b: int) {
    exists i :: 0 <= i < |rs| && In(rs[i], b)
  }

  ghost predicate SameBytes(a: seq<Range>, b: seq<Range>) {
    forall x :: Covers(a, x) <==> Covers(b, x)
  }

  predicate Proper(rs: seq<Range>) {
    forall i :: 0 <= i < |rs| ==> rs[i].start <= rs[i].end
  }

  /** Sorted, pairwise disjoint and not even adjacent. */
  predicate Canonical(rs: seq<Range>) {
    Proper(rs) && forall i, j :: 0 <= i < j < |rs| ==> rs[i].end + 1 < rs[j].start
  }

  predicate Inside(rs: seq<Range>, size: int) {
    forall i :: 0 <= i < |rs| ==> 0 <= rs[i].start && rs[i].end < size
  }

  function Total(rs: seq<Range>): int {
    if rs == [] then 0 else rs[0].end - rs[0].start + 1 + Total(rs[1..])
  }

  // --------------------------------------------------------- canonical form

  lemma FirstRangeSame(a: seq<Range>, b: seq<Range>)
    requires Canonical(a) && Canonical(b) && SameBytes(a, b) && a != [] && b != []
    ensures a[0].start >= b[0].start && a[0].end >= b[0].end
  {
    assert In(a[0], a[0].start) && Covers(a, a[0].start);
    var i :| 0 <= i < |b| && In(b[i], a[0].start);
    assert b[0].start <= a[0].start;
    var x := a[0].end + 1;
    assert !Covers(a, x);
    assert !In(b[0], x);
  }

  lemma TailBytes(a: seq<Range>, x: int)
    requires Canonical(a) && a != []
    ensures Covers(a[1..], x) <==> Covers(a, x) && x > a[0].end
  {
    if i :| 0 <= i < |a| && In(a[i], x) && x > a[0].end {
      assert a[1..][i - 1] == a[i];
    }
    if i :| 0 <= i < |a[1..]| && In(a[1..][i], x) {
      assert a[1..][i] == a[i + 1];
    }
  }

  lemma FirstCovered(a: seq<Range>)
    requires Proper(a)
    ensures a != [] ==> Covers(a, a[0].start)
  {
    assert a != [] ==> In(a[0], a[0].start);
  }

  /** Two canonical lists of the same bytes are the same list. */
  lemma {:induction false} CanonicalUnique(a: seq<Range>, b: seq<Range>)
    requires Canonical(a) && Canonical(b) && SameBytes(a, b)
    ensures a == b
  {
    FirstCovered(a);
    FirstCovered(b);
    if a != [] && b != [] {
      FirstRangeSame(a, b);
      FirstRangeSame(b, a);
      forall x ensures Covers(a[1..], x) <==> Covers(b[1..], x) {
        TailBytes(a, x);
        TailBytes(b, x);
      }
      CanonicalUnique(a[1..], b[1..]);
      assert a == [a[0]] + a[1..] && b == [b[0]] + b[1..];
    }
  }

  lemma {:induction false} TotalBounded(rs: seq<Range>, lo: int, size: int)
    requires Canonical(rs) && lo <= size
    requires forall i :: 0 <= i < |rs| ==> lo <= rs[i].start && rs[i].end < size
    ensures Total(rs) <= size - lo
    decreases |rs|
  {
    if rs != [] {
      TotalBounded(rs[1..], rs[0].end + 1, size);
    }
  }

  // ------------------------------------------------------------- coalescing

  predicate Leq(a: Range, b: Range) {
    a.start < b.start || (a.start == b.start && a.end <= b.end)
  }

  predicate Sorted(rs: seq<Range>) {
    forall i, j :: 0 <= i <= j < |rs| ==> Leq(rs[i], rs[j])
  }

  function Insert(r: Range, rs: seq<Range>): (s: seq<Range>)
    requires Sorted(rs)
    ensures Sorted(s) && forall x :: x in s <==> x in rs || x == r
  {
    if rs == [] || Leq(r, rs[0]) then [r] + rs
    else
      assert forall x :: x in rs <==> x == rs[0] || x in rs[1..];
      var t := Insert(r, rs[1..]);
      assert forall x :: x in rs[1..] ==> Leq(rs[0], x);
      assert forall x :: x in t ==> Leq(rs[0], x);
      [rs[0]] + t
  }

  /** `sorted(ranges)`: tuples by start, then end. */
  function Sort(rs: seq<Range>): (s: seq<Range>)
    ensures Sorted(s) && forall x :: x in s <==> x in rs
  {
    if rs == [] then []
    else
      assert forall x :: x in rs <==> x == rs[0] || x in rs[1..];
      Insert(rs[0], Sort(rs[1..]))
  }

  lemma SameElements(a: seq<Range>, b: seq<Range>)
    requires forall x :: x in a <==> x in b
    ensures SameBytes(a, b) && (Proper(a) ==> Proper(b))
  {
    forall x | Covers(a, x) ensures Covers(b, x) {
      var i :| 0 <= i < |a| && In(a[i], x);
      assert a[i] in b;
    }
    forall x | Covers(b, x) ensures Covers(a, x) {
      var i :| 0 <= i < |b| && In(b[i], x);
      assert b[i] in a;
    }
    forall i | 0 <= i < |b| && Proper(a) ensures b[i].start <= b[i].end {
      assert b[i] in a;
    }
  }

  lemma CoversAppend(rs: seq<Range>, r: Range, x: int)
    ensures Covers(rs + [r], x) <==> Covers(rs, x) || In(r, x)
  {
    if In(r, x) {
      assert (rs + [r])[|rs|] == r;
    }
    if i :| 0 <= i < |rs| && In(rs[i], x) {
      assert (rs + [r])[i] == rs[i];
    }
  }

  /** One step of the merge: the last range absorbs `r`, or `r` follows it. */
  function MergeInto(merged: seq<Range>, r: Range): seq<Range>
    requires merged != []
  {
    var n := |merged| - 1;
    var last := merged[n];
    if r.start <= last.end + 1 then
      if r.end > last.end then merged[..n] + [Range(last.start, r.end)] else merged
    else merged + [r]
  }

  lemma MergeStep(merged: seq<Range>, r: Range)
    requires merged != [] && Canonical(merged) && r.start <= r.end && merged[|merged| - 1].start <= r.start
    ensures var m := MergeInto(merged, r);
            && m != [] && Canonical(m) && m[|m| - 1].start <= r.start
            && forall x :: Covers(m, x) <==> Covers(merged, x) || In(r, x)
  {
    var n := |merged| - 1;
    var last := merged[n];
    assert merged == merged[..n] + [last];
    forall x ensures Covers(MergeInto(merged, r), x) <==> Covers(merged, x) || In(r, x) {
      CoversAppend(merged, r, x);
      CoversAppend(merged[..n], last, x);
      CoversAppend(merged[..n], Range(last.start, r.end), x);
    }
  }

  /** `merged` is what the loop has made of the first `i` sorted ranges. */
  ghost predicate MergedSoFar(merged: seq<Range>, ordered: seq<Range>, i: nat)
    requires 0 < i <= |ordered|
  {
    && merged != [] && Canonical(merged)
    && merged[|merged| - 1].start <= ordered[i - 1].start
    && SameBytes(merged, ordered[..i])
  }

  lemma MergeNext(merged: seq<Range>, ordered: seq<Range>, i: nat)
    requires 0 < i < |ordered| && Sorted(ordered) && Proper(ordered) && MergedSoFar(merged, ordered, i)
    ensures MergedSoFar(MergeInto(merged, ordered[i]), ordered, i + 1)
  {
    var r := ordered[i];
    assert Leq(ordered[i - 1], r);
    MergeStep(merged, r);
    assert ordered[..i + 1] == ordered[..i] + [r];
    forall x ensures Covers(MergeInto(merged, r), x) <==> Covers(ordered[..i + 1], x) {
      CoversAppend(ordered[..i], r, x);
    }
  }

  /**
   Coalescing: the result is the canonical list of the same bytes, so it does
   not depend on the order of the ranges and leaves a canonical list alone.
   */
  method Coalesce(ranges: seq<Range>) returns (merged: seq<Range>)
    requires ranges != [] && Proper(ranges)
    ensures merged != [] && Canonical(merged) && SameBytes(merged, ranges)
    ensures Canonical(ranges) ==> merged == ranges
  {
    var ordered := Sort(ranges);
    SameElements(ranges, ordered);
    merged := [ordered[0]];
    assert ordered[..1] == merged;
    for i := 1 to |ordered|
      invariant MergedSoFar(merged, ordered, i)
    {
      MergeNext(merged, ordered, i);
      var Range(start, end) := ordered[i];
      var last := merged[|merged| - 1];
      if start <= last.end + 1 {
        if end > last.end {
          merged := merged[..|merged| - 1] + [Range(last.start, end)];
        }
      } else {
        merged := merged + [Range(start, end)];
      }
    }
    assert ordered[..|ordered|] == ordered;
    if Canonical(ranges) {
      CanonicalUnique(merged, ranges);
    }
  }

  /** Reordering or repeating the requested ranges cannot change the outcome. */
  lemma OrderIrrelevant(a: seq<Range>, b: seq<Range>, ma: seq<Range>, mb: seq<Range>)
    requires forall r :: r in a <==> r in b
    requires Canonical(ma) && SameBytes(ma, a) && Canonical(mb) && SameBytes(mb, b)
    ensures ma == mb
  {
    SameElements(a, b);
    CanonicalUnique(ma, mb);
  }

  // ----------------------------------------------------------- the header

  /** A range spec by its syntax alone. */
  datatype Spec = FromTo(first: int, last: int) | From(first: int) | Suffix(count: int) | Bad

  function ReadSpec(raw: string, parseInt: string -> Option<int>): Spec {
    var t := Strip(raw, true);
    var dash := FastH1.FindByte(t, '-', 0);
    if dash == -1 then Bad
    else
      var first, last := parseInt(t[..dash]), parseInt(t[dash + 1..]);
      if t[..dash] != "" && t[dash + 1..] != "" then
        if first.Some? && last.Some? then FromTo(first.value, last.value) else Bad
      else if t[..dash] != "" then
        if first.Some? then From(first.value) else Bad
      else if t[dash + 1..] != "" then
        if last.Some? then Suffix(last.value) else Bad
      else Bad
  }

  function ReadSpecs(raws: seq<string>, parseInt: string -> Option<int>): (specs: seq<Spec>)
    ensures |specs| == |raws|
    ensures forall k :: 0 <= k < |specs| ==> specs[k] == ReadSpec(raws[k], parseInt)
  {
    if raws == [] then [] else [ReadSpec(raws[0], parseInt)] + ReadSpecs(raws[1..], parseInt)
  }

  /** The text of a spec: what stands before and after its first dash, blanks around it aside. */
  lemma SpecForms(left: string, a: string, b: string, right: string, parseInt: string -> Option<int>)
    requires Blank(left, true) && Blank(right, true) && Tight(a + "-" + b, true) && '-' !in a
    ensures ReadSpec(left + (a + "-" + b) + right, parseInt) ==
            var first, last := parseInt(a), parseInt(b);
            if a != "" && b != "" && first.Some? && last.Some? then FromTo(first.value, last.value)
            else if a != "" && b == "" && first.Some? then From(first.value)
            else if a == "" && b != "" && last.Some? then Suffix(last.value)
            else Bad
  {
    var t := a + "-" + b;
    StripDrops(left, t, right, true);
    FastH1.FoundAt(t, '-', 0, |a|);
    assert t[..|a|] == a && t[|a| + 1..] == b;
  }

  /** A text without dash is malformed. */
  lemma NoDashIsBad(raw: string, parseInt: string -> Option<int>)
    requires '-' !in raw
    ensures ReadSpec(raw, parseInt) == Bad
  {
    StripWithin(raw, '-');
    FastH1.NotFound(Strip(raw, true), '-', 0);
  }

  lemma {:induction false} StripLeftWithin(s: string, c: char)
    requires c !in s
    ensures c !in StripLeft(s, true)
  {
    if s != [] && IsSpace(s[0], true) {
      StripLeftWithin(s[1..], c);
    }
  }

  lemma {:induction false} StripRightWithin(s: string, c: char)
    requires c !in s
    ensures c !in StripRight(s, true)
    decreases |s|
  {
    if s != [] && IsSpace(s[|s| - 1], true) {
      StripRightWithin(s[..|s| - 1], c);
    }
  }

  lemma StripWithin(s: string, c: char)
    requires c !in s
    ensures c !in Strip(s, true)
  {
    StripLeftWithin(s, c);
    StripRightWithin(StripLeft(s, true), c);
  }

  /** The specs of a header are the texts between its commas, after the unit. */
  lemma HeaderSpecs(raws: seq<string>)
    requires raws != [] && forall k :: 0 <= k < |raws| ==> ',' !in raws[k]
    ensures var header := "bytes=" + Join(raws, ',');
            StartsWith(header, "bytes=") && Split(header[6..], ',') == raws
  {
    var list := Join(raws, ',');
    var header := "bytes=" + list;
    assert header[..6] == "bytes=" && header[6..] == list;
    SplitJoin(raws, ',');
  }

  lemma DigitsTight(n: nat)
    ensures Decimal(n) != "" && '-' !in Decimal(n) && Tight(Decimal(n), true)
  {
    var d := Decimal(n);
    assert '0' <= d[0] <= '9' && '0' <= d[|d| - 1] <= '9';
  }

  /** A range written out in digits is read as that range. */
  lemma WrittenRangeReadsBack(first: nat, last: nat, parseInt: string -> Option<int>)
    requires parseInt(Decimal(first)) == Some(first) && parseInt(Decimal(last)) == Some(last)
    ensures ReadSpec(Decimal(first) + "-" + Decimal(last), parseInt) == FromTo(first, last)
  {
    var a, b := Decimal(first), Decimal(last);
    var t := a + "-" + b;
    DigitsTight(first);
    DigitsTight(last);
    assert t[0] == a[0] && t[|t| - 1] == b[|b| - 1];
    SpecForms("", a, b, "", parseInt);
    assert "" + t + "" == t;
  }

  /** The bytes of a file of this size that a spec asks for (RFC 7233, section 2.1). */
  predicate Wants(spec: Spec, size: int, b: int) {
    && 0 <= b < size
    && match spec
       case FromTo(first, last) => first <= b <= last
       case From(first) => first <= b
       case Suffix(count) => size - count <= b
       case Bad => false
  }

  /** The specs that make the server ignore the header; an open `N-` past the end is one of them. */
  predicate Ignorable(spec: Spec, size: int) {
    match spec
    case FromTo(first, last) => first < 0 || first > last
    case From(first) => first < 0 || first >= size
    case Suffix(count) => count <= 0
    case Bad => true
  }

  function Bounds(spec: Spec, size: int): Range
    requires !spec.Bad?
  {
    match spec
    case FromTo(first, last) => Range(first, last)
    case From(first) => Range(first, size - 1)
    case Suffix(count) => Range(if size - count > 0 then size - count else 0, size - 1)
  }

  datatype Outcome = Ignore | NotSatisfiable | Serve(ranges: seq<Range>)

  ghost predicate WantedBySome(specs: seq<Spec>, size: int, b: int) {
    exists k :: 0 <= k < |specs| && Wants(specs[k], size, b)
  }

  /**
   The spec loop: ignored when any spec is malformed, 416 when all of them start
   past the end, otherwise the canonical list of exactly the bytes asked for.
   */
  method ParseSpecs(specs: seq<Spec>, size: int) returns (o: Outcome)
    requires size > 0 && specs != []
    ensures o == Ignore <==> exists k :: 0 <= k < |specs| && Ignorable(specs[k], size)
    ensures o == NotSatisfiable ==> forall b :: !WantedBySome(specs, size, b)
    ensures o.Serve? ==>
              && o.ranges != [] && Canonical(o.ranges) && Inside(o.ranges, size) && Total(o.ranges) <= size
              && forall b :: Covers(o.ranges, b) <==> WantedBySome(specs, size, b)
  {
    var ranges: seq<Range> := [];
    var anyUnsatisfiable := false;
    for i := 0 to |specs|
      invariant forall k :: 0 <= k < i ==> !Ignorable(specs[k], size)
      invariant Proper(ranges) && Inside(ranges, size)
      invariant forall b :: Covers(ranges, b) <==> WantedBySome(specs[..i], size, b)
      invariant i > 0 && ranges == [] ==> anyUnsatisfiable
    {
      var spec := specs[i];
      if spec.Bad? || (spec.Suffix? && spec.count <= 0) {
        return Ignore;
      }
      var Range(start, end) := Bounds(spec, size);
      if start < 0 || start > end {
        return Ignore;
      }
      WantedAppend(specs, i, size);
      if start >= size {
        anyUnsatisfiable := true;
        continue;
      }
      if end >= size {
        end := size - 1;
      }
      forall b ensures Covers(ranges + [Range(start, end)], b) <==> Covers(ranges, b) || Wants(spec, size, b) {
        CoversAppend(ranges, Range(start, end), b);
      }
      ranges := ranges + [Range(start, end)];
    }
    assert specs[..|specs|] == specs;
    if ranges == [] {
      return if anyUnsatisfiable then NotSatisfiable else Ignore;
    }
    var merged := Coalesce(ranges);
    WithinSize(merged, ranges, size);
    TotalBounded(merged, 0, size);
    o := Serve(merged);
  }

  lemma WantedAppend(specs: seq<Spec>, i: nat, size: int)
    requires i < |specs|
    ensures forall b :: WantedBySome(specs[..i + 1], size, b) <==>
              WantedBySome(specs[..i], size, b) || Wants(specs[i], size, b)
  {
    assert specs[..i + 1] == specs[..i] + [specs[i]];
    forall b ensures WantedBySome(specs[..i + 1], size, b) <==> WantedBySome(specs[..i], size, b) || Wants(specs[i], size, b) {
      assert specs[..i + 1][i] == specs[i];
      if k :| 0 <= k < i && Wants(specs[..i][k], size, b) {
        assert specs[..i + 1][k] == specs[..i][k];
      }
    }
  }

  lemma WithinSize(merged: seq<Range>, ranges: seq<Range>, size: int)
    requires Proper(merged) && SameBytes(merged, ranges) && Inside(ranges, size)
    ensures Inside(merged, size)
  {
    forall i | 0 <= i < |merged| ensures 0 <= merged[i].start && merged[i].end < size {
      assert In(merged[i], merged[i].start) && Covers(merged, merged[i].start);
      assert In(merged[i], merged[i].end) && Covers(merged, merged[i].end);
    }
  }

  /** `_parse_range_header`. */
  method ParseRangeHeader(header: string, size: nat, parseInt: string -> Option<int>) returns (o: Outcome)
    ensures !StartsWith(header, "bytes=") ==> o == Ignore
    ensures StartsWith(header, "bytes=") && size == 0 ==> o == NotSatisfiable
    ensures StartsWith(header, "bytes=") && size > 0 ==>
              var specs := ReadSpecs(Split(header[6..], ','), parseInt);
              && (o == Ignore <==> |specs| > 10 || exists k :: 0 <= k < |specs| && Ignorable(specs[k], size))
              && (o == NotSatisfiable ==> forall b :: !WantedBySome(specs, size, b))
              && (o.Serve? ==> forall b :: Covers(o.ranges, b) <==> WantedBySome(specs, size, b))
    ensures o.Serve? ==>
              o.ranges != [] && Canonical(o.ranges) && Inside(o.ranges, size) && Total(o.ranges) <= size
  {
    if !StartsWith(header, "bytes=") {
      return Ignore;
    }
    if size == 0 {
      return NotSatisfiable;
    }
    var raws := Split(header[6..], ',');
    if |raws| > MAX_RANGES {
      return Ignore;
    }
    o := ParseSpecs(ReadSpecs(raws, parseInt), size);
  }
}
