/**
 * The near-duplicate defect filter `ai_filter_unique_defects`.
 *
 * The sentence encoder and the agglomerative clustering are not modelled:
 * the cluster label of every record is an input (one label per record, as
 * the clustering's `labels_` gives it), and the method reports, as a
 * `ModelCall`, what it would hand to the encoder and the clustering.
 * `dateutil.parser.parse` is a parameter: any partial map from strings to
 * timestamps.  What remains is exact: the trivial batches, the comparison
 * texts, the grouping by label in an insertion-ordered dictionary, and
 * Python's `min` over each group with the "date, else defect id" key.
 */
module Dedup {
  import opened Wrappers

  /** Default `distance_threshold` of the filter; it is only passed on to the clustering. */
  const DefaultDistanceThreshold: real := 0.65

  /**
   * A parsed `created_at`: a position on a common time line, and whether the
   * value carries a time zone.  Python refuses to order a naive datetime
   * against an aware one.
   */
  datatype Timestamp = Timestamp(instant: int, aware: bool)

  /** A text entry of a record as `dict.get(key, '')` sees it. */
  datatype TextField = Absent | NullValue | Text(s: string)

  /**
   * The raw `created_at` entry: missing, None, a string (serializer output),
   * or a datetime object (rows of a `.values()` query).
   */
  datatype CreatedAt = NoEntry | NullEntry | DateText(s: string) | DateObject(t: Timestamp)

  /** A defect record; entries the filter does not read travel in `passThrough`. */
  datatype Record = Record(
    defectId: int,
    summary: TextField,
    actualResult: TextField,
    expectedResult: TextField,
    createdAt: CreatedAt,
    passThrough: map<string, string>)

  /** `dateutil.parser.parse`, with a raised exception read as `None`. */
  type Parser = string -> Option<Timestamp>

  /** The key `min` ranks a record by: its parsed date, or else its defect id. */
  datatype Key = DateKey(t: Timestamp) | IdKey(n: int)

  /** The `TypeError` Python's `min` raises when it compares two keys it cannot order. */
  datatype DedupError = IncomparableKeys

  /** What the filter hands to the encoder and the clustering. */
  datatype ModelCall = ModelCall(texts: seq<string>, threshold: real)

  /** The text an f-string produces for `d.get(key, '')`. */
  function Render(f: TextField): string
  {
    match f
    case Absent => ""
    case NullValue => "None"
    case Text(s) => s
  }

  /**
   * The comparison text of one record: summary, actual result and expected
   * result, in that order, each separated from the next by one space.
   */
  function ComparisonText(r: Record): (t: string)
    ensures var a, b, c := Render(r.summary), Render(r.actualResult), Render(r.expectedResult);
      && |t| == |a| + |b| + |c| + 2
      && t[..|a|] == a && t[|a|] == ' '
      && t[|a| + 1..|a| + 1 + |b|] == b && t[|a| + 1 + |b|] == ' '
      && t[|a| + |b| + 2..] == c
  {
    Render(r.summary) + " " + Render(r.actualResult) + " " + Render(r.expectedResult)
  }

  /** The defect id, the date and the other entries play no part in the comparison text. */
  lemma ComparisonTextReadsOnlyTextFields(r1: Record, r2: Record)
    requires r1.summary == r2.summary
    requires r1.actualResult == r2.actualResult
    requires r1.expectedResult == r2.expectedResult
    ensures ComparisonText(r1) == ComparisonText(r2)
  {
  }

  /**
   * `convert_date_or_none`: a date only for a non-empty string that the
   * parser accepts; None for a missing, None or empty entry, for a string the
   * parser rejects, and for a datetime object (the parser raises on anything
   * but a string, and the exception is caught).  It never fails.
   */
  function ConvertDateOrNone(r: Record, parse: Parser): (d: Option<Timestamp>)
    ensures d.Some? <==> r.createdAt.DateText? && r.createdAt.s != "" && parse(r.createdAt.s).Some?
    ensures d.Some? ==> d == parse(r.createdAt.s)
  {
    match r.createdAt
    case DateText(s) => if s == "" then None else parse(s)
    case _ => None
  }

  /** The `min` key `convert_date_or_none(d) or d.get('defect_id')`. */
  function SortKey(r: Record, parse: Parser): (k: Key)
    ensures k.IdKey? <==> ConvertDateOrNone(r, parse).None?
    ensures k.IdKey? ==> k.n == r.defectId
    ensures k.DateKey? ==> ConvertDateOrNone(r, parse) == Some(k.t)
  {
    match ConvertDateOrNone(r, parse)
    case Some(t) => DateKey(t)
    case None => IdKey(r.defectId)
  }

  /** Python's `<` on two keys answers rather than raising: two ids, or two dates both naive or both aware. */
  predicate Comparable(a: Key, b: Key)
  {
    (a.IdKey? && b.IdKey?) || (a.DateKey? && b.DateKey? && a.t.aware == b.t.aware)
  }

  /** Python's `a < b` on two comparable keys (false on incomparable ones, where Python raises). */
  predicate Less(a: Key, b: Key)
  {
    match (a, b)
    case (IdKey(x), IdKey(y)) => x < y
    case (DateKey(s), DateKey(t)) => s.aware == t.aware && s.instant < t.instant
    case _ => false
  }

  /** Every two keys of the group can be compared. */
  predicate Uniform(g: seq<Record>, parse: Parser)
  {
    forall i, j {:trigger Comparable(SortKey(g[i], parse), SortKey(g[j], parse))} ::
      0 <= i < |g| && 0 <= j < |g| ==> Comparable(SortKey(g[i], parse), SortKey(g[j], parse))
  }

  /**
   * `min` run over the first `n` elements of `g`: it keeps the first element
   * and replaces its candidate only by a later element whose key is strictly
   * smaller, raising on the first comparison it cannot make.  It succeeds
   * exactly when all keys of the prefix are comparable, and then returns the
   * position of the first element with the least key.
   */
  function MinOfPrefix(g: seq<Record>, parse: Parser, n: nat): (r: Result<nat, DedupError>)
    requires 0 < n <= |g|
    ensures r.Ok? <==> forall i, j {:trigger Comparable(SortKey(g[i], parse), SortKey(g[j], parse))} ::
      0 <= i < n && 0 <= j < n ==> Comparable(SortKey(g[i], parse), SortKey(g[j], parse))
    ensures r.Ok? ==> r.value < n
    ensures r.Ok? ==> forall j :: 0 <= j < n ==> !Less(SortKey(g[j], parse), SortKey(g[r.value], parse))
    ensures r.Ok? ==> forall j :: 0 <= j < r.value ==> Less(SortKey(g[r.value], parse), SortKey(g[j], parse))
  {
    if n == 1 then Ok(0)
    else
      match MinOfPrefix(g, parse, n - 1)
      case Err(e) => Err(e)
      case Ok(m) =>
        var k, km := SortKey(g[n - 1], parse), SortKey(g[m], parse);
        if !Comparable(k, km) then Err(IncomparableKeys)
        else
          assert forall j :: 0 <= j < n - 1 ==> Comparable(SortKey(g[j], parse), km);
          if Less(k, km) then Ok(n - 1) else Ok(m)
  }

  /**
   * Python's `min(group, key=...)`, as the position of the element it
   * returns: it succeeds exactly when all keys of the group are comparable,
   * and then the result has the least key and is the first element with it.
   */
  function MinPosition(g: seq<Record>, parse: Parser): (r: Result<nat, DedupError>)
    requires |g| > 0
    ensures r.Ok? <==> Uniform(g, parse)
    ensures r.Ok? ==> r.value < |g|
    ensures r.Ok? ==> forall j :: 0 <= j < |g| ==> !Less(SortKey(g[j], parse), SortKey(g[r.value], parse))
    ensures r.Ok? ==> forall j :: 0 <= j < r.value ==> Less(SortKey(g[r.value], parse), SortKey(g[j], parse))
  {
    MinOfPrefix(g, parse, |g|)
  }

  /**
   * A group in which one record has no usable date and the others have
   * dates (the situation of a record with defect id 42 and no date beside
   * records dated 2024-01-03 and 2024-01-01) makes `min` raise rather than
   * pick the earliest date.
   */
  lemma MixedDateAndIdKeysRaise(parse: Parser, g: seq<Record>, x: int, y: int)
    requires parse("2024-01-03").Some? && parse("2024-01-01").Some?
    requires g == [Record(x, Absent, Absent, Absent, DateText("2024-01-03"), map[]),
                   Record(y, Absent, Absent, Absent, DateText("2024-01-01"), map[]),
                   Record(42, Absent, Absent, Absent, NoEntry, map[])]
    ensures MinPosition(g, parse) == Err(IncomparableKeys)
  {
    assert SortKey(g[2], parse) == IdKey(42);
    assert SortKey(g[0], parse).DateKey?;
    assert !Comparable(SortKey(g[0], parse), SortKey(g[2], parse));
    assert !Uniform(g, parse);
    var r := MinPosition(g, parse);
    assert r.Err? && r.error.IncomparableKeys?;
  }

  /**
   * The labels in the order of their first appearance, each once: the key
   * order of the insertion-ordered dictionary `clusters`.
   */
  function Distinct(s: seq<int>): (d: seq<int>)
    ensures forall x :: x in d <==> x in s
    ensures forall a, b :: 0 <= a < b < |d| ==> d[a] != d[b]
    ensures |d| <= |s|
  {
    if s == [] then []
    else
      var p := Distinct(s[..|s| - 1]);
      assert forall x :: x in s <==> x in s[..|s| - 1] || x == s[|s| - 1];
      if s[|s| - 1] in p then p else p + [s[|s| - 1]]
  }

  /** The position of the first occurrence of `x` in `s`. */
  function FirstIndex(s: seq<int>, x: int): (i: nat)
    requires x in s
    ensures i < |s| && s[i] == x
    ensures forall j :: 0 <= j < i ==> s[j] != x
  {
    if s[0] == x then 0 else 1 + FirstIndex(s[1..], x)
  }

  /** A first occurrence inside a prefix is the first occurrence in the whole sequence. */
  lemma FirstIndexInPrefix(s: seq<int>, n: nat, x: int)
    requires n <= |s| && x in s[..n]
    ensures FirstIndex(s, x) == FirstIndex(s[..n], x)
  {
    var i, i' := FirstIndex(s, x), FirstIndex(s[..n], x);
    assert s[i'] == x;
    assert i < n ==> s[..n][i] == x;
  }

  /** `Distinct` lists the labels in strictly increasing order of their first occurrence. */
  lemma {:induction false} DistinctFollowsFirstOccurrence(s: seq<int>)
    ensures forall a, b :: 0 <= a < b < |Distinct(s)| ==>
      FirstIndex(s, Distinct(s)[a]) < FirstIndex(s, Distinct(s)[b])
  {
    if s != [] {
      var n := |s| - 1;
      var p := s[..n];
      DistinctFollowsFirstOccurrence(p);
      var d, dp := Distinct(s), Distinct(p);
      forall a, b | 0 <= a < b < |d|
        ensures FirstIndex(s, d[a]) < FirstIndex(s, d[b])
      {
        assert d[a] == dp[a] && d[a] in p;
        FirstIndexInPrefix(s, n, d[a]);
        if b < |dp| {
          assert d[b] == dp[b] && d[b] in p;
          FirstIndexInPrefix(s, n, d[b]);
        } else {
          assert d[b] == s[n] && s[n] !in p;
          assert FirstIndex(s, d[b]) == n;
        }
      }
    }
  }

  /** When every record has a label of its own, every label is its own group. */
  lemma {:induction false} DistinctOfInjective(s: seq<int>)
    requires forall a, b :: 0 <= a < b < |s| ==> s[a] != s[b]
    ensures Distinct(s) == s
  {
    if s != [] {
      var n := |s| - 1;
      DistinctOfInjective(s[..n]);
      assert s[n] !in s[..n];
      assert s[..n] + [s[n]] == s;
    }
  }

  /** When every record has the same label there is one group. */
  lemma {:induction false} DistinctOfConstant(s: seq<int>, l: int)
    requires |s| > 0
    requires forall i :: 0 <= i < |s| ==> s[i] == l
    ensures Distinct(s) == [l]
  {
    var n := |s| - 1;
    if n > 0 {
      DistinctOfConstant(s[..n], l);
    }
  }

  /**
   * The positions, in increasing order, of the records labelled `l`.  Every
   * position of the batch is in exactly one of these lists: that of its own
   * label.
   */
  function MemberIndices(labels: seq<int>, l: int): (idx: seq<nat>)
    ensures forall q :: 0 <= q < |idx| ==> idx[q] < |labels| && labels[idx[q]] == l
    ensures forall i {:trigger i in idx} :: 0 <= i < |labels| ==> (labels[i] == l <==> i in idx)
    ensures forall a, b :: 0 <= a < b < |idx| ==> idx[a] < idx[b]
  {
    if labels == [] then []
    else
      var n := |labels| - 1;
      var p := MemberIndices(labels[..n], l);
      if labels[n] == l then p + [n] else p
  }

  /** The group of label `l`: the records labelled `l`, in input order. */
  function Members(defects: seq<Record>, labels: seq<int>, l: int): (g: seq<Record>)
    requires |labels| <= |defects|
    ensures |g| == |MemberIndices(labels, l)|
    ensures forall q :: 0 <= q < |g| ==> g[q] == defects[MemberIndices(labels, l)[q]]
  {
    var idx := MemberIndices(labels, l);
    seq(|idx|, q requires 0 <= q < |idx| => defects[idx[q]])
  }

  /** Reading one more label extends the key order by that label when it is new. */
  lemma DistinctStep(labels: seq<int>, i: nat)
    requires i < |labels|
    ensures forall l :: l in labels[..i + 1] <==> l in labels[..i] || l == labels[i]
    ensures Distinct(labels[..i + 1])
      == if labels[i] in labels[..i] then Distinct(labels[..i]) else Distinct(labels[..i]) + [labels[i]]
  {
    assert labels[..i + 1][..i] == labels[..i];
  }

  /** Reading one more label appends the record to its own group and to no other. */
  lemma MembersExtend(defects: seq<Record>, labels: seq<int>, i: nat, l: int)
    requires i < |labels| <= |defects|
    ensures Members(defects, labels[..i + 1], l)
      == Members(defects, labels[..i], l) + (if labels[i] == l then [defects[i]] else [])
  {
    assert labels[..i + 1][..i] == labels[..i];
  }

  /** A label that does not occur has an empty group. */
  lemma {:induction false} MembersOfAbsentLabel(defects: seq<Record>, labels: seq<int>, l: int)
    requires |labels| <= |defects| && l !in labels
    ensures MemberIndices(labels, l) == [] && Members(defects, labels, l) == []
  {
    if labels != [] {
      var n := |labels| - 1;
      assert labels[n] in labels;
      assert forall x :: x in labels[..n] ==> x in labels;
      MembersOfAbsentLabel(defects, labels[..n], l);
    }
  }

  /** Every two records of group `l` have comparable keys. */
  predicate GroupComparable(defects: seq<Record>, labels: seq<int>, parse: Parser, l: int)
    requires |labels| == |defects|
  {
    forall i, j {:trigger Comparable(SortKey(defects[i], parse), SortKey(defects[j], parse))} ::
      0 <= i < |labels| && 0 <= j < |labels| && labels[i] == l && labels[j] == l ==>
      Comparable(SortKey(defects[i], parse), SortKey(defects[j], parse))
  }

  /** Every two records with the same label have comparable keys. */
  predicate SameLabelComparable(defects: seq<Record>, labels: seq<int>, parse: Parser)
    requires |labels| == |defects|
  {
    forall i, j {:trigger Comparable(SortKey(defects[i], parse), SortKey(defects[j], parse))} ::
      0 <= i < |labels| && 0 <= j < |labels| && labels[i] == labels[j] ==>
      Comparable(SortKey(defects[i], parse), SortKey(defects[j], parse))
  }

  /**
   * Record `i` is the one `min` picks from its group: no record of the group
   * has a smaller key, and every earlier record of the group a larger one.
   */
  predicate IsOldestOfGroup(defects: seq<Record>, labels: seq<int>, parse: Parser, i: nat)
    requires |labels| == |defects| && i < |labels|
  {
    && (forall j {:trigger Less(SortKey(defects[j], parse), SortKey(defects[i], parse))} ::
          0 <= j < |labels| && labels[j] == labels[i] ==>
          !Less(SortKey(defects[j], parse), SortKey(defects[i], parse)))
    && (forall j {:trigger Less(SortKey(defects[i], parse), SortKey(defects[j], parse))} ::
          0 <= j < i && labels[j] == labels[i] ==>
          Less(SortKey(defects[i], parse), SortKey(defects[j], parse)))
  }

  /** `rec` is an input record, labelled `l`, and the representative of its group. */
  ghost predicate Represents(defects: seq<Record>, labels: seq<int>, parse: Parser, l: int, rec: Record)
    requires |labels| == |defects|
  {
    exists i :: 0 <= i < |labels| && labels[i] == l && defects[i] == rec && IsOldestOfGroup(defects, labels, parse, i)
  }

  /** A group has only one representative position. */
  lemma OldestIsUnique(defects: seq<Record>, labels: seq<int>, parse: Parser, i1: nat, i2: nat)
    requires |labels| == |defects| && i1 < |labels| && i2 < |labels| && labels[i1] == labels[i2]
    requires IsOldestOfGroup(defects, labels, parse, i1) && IsOldestOfGroup(defects, labels, parse, i2)
    ensures i1 == i2
  {
    var k1, k2 := SortKey(defects[i1], parse), SortKey(defects[i2], parse);
    assert i1 < i2 ==> Less(k2, k1);
    assert i2 < i1 ==> Less(k1, k2);
  }

  /** `min` succeeds on the group of `l` exactly when all its keys are comparable. */
  lemma GroupUniformIff(defects: seq<Record>, labels: seq<int>, parse: Parser, l: int)
    requires |labels| == |defects|
    ensures Uniform(Members(defects, labels, l), parse) <==> GroupComparable(defects, labels, parse, l)
  {
    var idx := MemberIndices(labels, l);
    var g := Members(defects, labels, l);
    if Uniform(g, parse) {
      forall i, j | 0 <= i < |labels| && 0 <= j < |labels| && labels[i] == l && labels[j] == l
        ensures Comparable(SortKey(defects[i], parse), SortKey(defects[j], parse))
      {
        assert i in idx && j in idx;
        var qi :| 0 <= qi < |idx| && idx[qi] == i;
        var qj :| 0 <= qj < |idx| && idx[qj] == j;
        assert g[qi] == defects[i] && g[qj] == defects[j];
      }
    }
    if GroupComparable(defects, labels, parse, l) {
      forall a, b | 0 <= a < |g| && 0 <= b < |g|
        ensures Comparable(SortKey(g[a], parse), SortKey(g[b], parse))
      {
        assert g[a] == defects[idx[a]] && g[b] == defects[idx[b]];
      }
    }
  }

  /**
   * The element `min` returns from the group of `l` sits at an input position
   * labelled `l` where `IsOldestOfGroup` holds.
   */
  lemma MinPositionRepresents(defects: seq<Record>, labels: seq<int>, parse: Parser, l: int, p: nat)
    requires |labels| == |defects|
    requires |Members(defects, labels, l)| > 0
    requires MinPosition(Members(defects, labels, l), parse) == Ok(p)
    ensures p < |MemberIndices(labels, l)|
    ensures var i := MemberIndices(labels, l)[p];
      && i < |labels| && labels[i] == l && defects[i] == Members(defects, labels, l)[p]
      && IsOldestOfGroup(defects, labels, parse, i)
  {
    var idx := MemberIndices(labels, l);
    var g := Members(defects, labels, l);
    var i := idx[p];
    var ki := SortKey(defects[i], parse);
    assert g[p] == defects[i] && labels[i] == l;
    forall j | 0 <= j < |labels| && labels[j] == labels[i]
      ensures !Less(SortKey(defects[j], parse), ki)
    {
      assert j in idx;
      var q :| 0 <= q < |idx| && idx[q] == j;
      assert g[q] == defects[j];
    }
    forall j | 0 <= j < i && labels[j] == labels[i]
      ensures Less(ki, SortKey(defects[j], parse))
    {
      assert j in idx;
      var q :| 0 <= q < |idx| && idx[q] == j;
      assert g[q] == defects[j];
      assert q < p;
    }
  }

  /**
   * The state of the grouping loop after its first `i` turns: the keys of
   * `clusters` in insertion order, the keys themselves, and each key's list.
   */
  ghost predicate Grouped(defects: seq<Record>, labels: seq<int>, i: nat, order: seq<int>, clusters: map<int, seq<Record>>)
    requires i <= |labels| <= |defects|
  {
    && order == Distinct(labels[..i])
    && (forall l :: l in clusters <==> l in labels[..i])
    && (forall l :: l in clusters ==> clusters[l] == Members(defects, labels[..i], l))
  }

  /** One turn of the grouping loop, `clusters[labels[i]].append(defects[i])`, keeps `Grouped`. */
  lemma GroupStep(defects: seq<Record>, labels: seq<int>, i: nat, order: seq<int>, clusters: map<int, seq<Record>>)
    requires i < |labels| <= |defects|
    requires Grouped(defects, labels, i, order, clusters)
    ensures Grouped(defects, labels, i + 1,
      if labels[i] in clusters then order else order + [labels[i]],
      clusters[labels[i] := (if labels[i] in clusters then clusters[labels[i]] else []) + [defects[i]]])
  {
    var lab := labels[i];
    DistinctStep(labels, i);
    if lab !in clusters {
      MembersOfAbsentLabel(defects, labels[..i], lab);
    }
    var next := clusters[lab := (if lab in clusters then clusters[lab] else []) + [defects[i]]];
    forall l | l in next
      ensures next[l] == Members(defects, labels[..i + 1], l)
    {
      MembersExtend(defects, labels, i, l);
    }
  }

  /**
   * The grouping loop: `clusters[label].append(defects[idx])` for every index
   * in turn, a missing key starting as an empty list.  The dictionary is
   * returned as its key order and its contents.
   */
  method GroupByLabel(defects: seq<Record>, labels: seq<int>) returns (order: seq<int>, clusters: map<int, seq<Record>>)
    requires |labels| == |defects|
    ensures order == Distinct(labels)
    ensures forall l :: l in clusters <==> l in labels
    ensures forall l :: l in clusters ==> clusters[l] == Members(defects, labels, l)
  {
    order, clusters := [], map[];
    var i := 0;
    while i < |labels|
      invariant 0 <= i <= |labels|
      invariant Grouped(defects, labels, i, order, clusters)
    {
      var lab := labels[i];
      GroupStep(defects, labels, i, order, clusters);
      var group := if lab in clusters then clusters[lab] else [];
      if lab !in clusters {
        order := order + [lab];
      }
      clusters := clusters[lab := group + [defects[i]]];
      i := i + 1;
    }
    assert labels[..i] == labels;
  }

  /** A label that occurs has a non-empty group. */
  lemma MembersOfPresentLabel(defects: seq<Record>, labels: seq<int>, l: int)
    requires |labels| <= |defects| && l in labels
    ensures |Members(defects, labels, l)| > 0
  {
    var i :| 0 <= i < |labels| && labels[i] == l;
    assert i in MemberIndices(labels, l);
  }

  /** Same-label keys are all comparable exactly when every group's keys are. */
  lemma SameLabelComparableIff(defects: seq<Record>, labels: seq<int>, parse: Parser)
    requires |labels| == |defects|
    ensures SameLabelComparable(defects, labels, parse) <==>
      forall l :: l in labels ==> GroupComparable(defects, labels, parse, l)
  {
    if forall l :: l in labels ==> GroupComparable(defects, labels, parse, l) {
      forall i, j | 0 <= i < |labels| && 0 <= j < |labels| && labels[i] == labels[j]
        ensures Comparable(SortKey(defects[i], parse), SortKey(defects[j], parse))
      {
        assert GroupComparable(defects, labels, parse, labels[i]);
      }
    }
  }

  /**
   * The state of the second loop after its first `k` turns: `unique` holds
   * the records `min` picked from the groups of `order[..k]`, found at the
   * input positions `picks`, and each of those groups has comparable keys.
   */
  ghost predicate Picked(defects: seq<Record>, labels: seq<int>, parse: Parser,
                         order: seq<int>, k: nat, picks: seq<nat>, unique: seq<Record>)
    requires |labels| == |defects| && k <= |order|
  {
    && |unique| == k && |picks| == k
    && (forall m :: 0 <= m < k ==>
          picks[m] < |labels| && labels[picks[m]] == order[m] && defects[picks[m]] == unique[m])
    && (forall m {:trigger picks[m]} :: 0 <= m < k ==> IsOldestOfGroup(defects, labels, parse, picks[m]))
    && (forall m {:trigger order[m]} :: 0 <= m < k ==> GroupComparable(defects, labels, parse, order[m]))
  }

  /** A group on which `min` raises makes the whole filter raise. */
  lemma PickFails(defects: seq<Record>, labels: seq<int>, parse: Parser, l: int)
    requires |labels| == |defects| && l in labels
    requires |Members(defects, labels, l)| > 0
    requires MinPosition(Members(defects, labels, l), parse).Err?
    ensures !SameLabelComparable(defects, labels, parse)
  {
    GroupUniformIff(defects, labels, parse, l);
    SameLabelComparableIff(defects, labels, parse);
  }

  /** One turn of the second loop, appending what `min` picks from the group of `order[k]`, keeps `Picked`. */
  lemma PickStep(defects: seq<Record>, labels: seq<int>, parse: Parser,
                 order: seq<int>, k: nat, picks: seq<nat>, unique: seq<Record>, p: nat)
    requires |labels| == |defects| && k < |order|
    requires Picked(defects, labels, parse, order, k, picks, unique)
    requires |Members(defects, labels, order[k])| > 0
    requires MinPosition(Members(defects, labels, order[k]), parse) == Ok(p)
    ensures p < |Members(defects, labels, order[k])|
    ensures Picked(defects, labels, parse, order, k + 1,
      picks + [MemberIndices(labels, order[k])[p]], unique + [Members(defects, labels, order[k])[p]])
  {
    var l := order[k];
    GroupUniformIff(defects, labels, parse, l);
    MinPositionRepresents(defects, labels, parse, l, p);
    var picks', unique' := picks + [MemberIndices(labels, l)[p]], unique + [Members(defects, labels, l)[p]];
    assert forall m :: 0 <= m < k ==> picks'[m] == picks[m] && unique'[m] == unique[m];
  }

  /** After the last turn every group has comparable keys and `unique` holds their representatives. */
  lemma PickedAll(defects: seq<Record>, labels: seq<int>, parse: Parser,
                  order: seq<int>, picks: seq<nat>, unique: seq<Record>)
    requires |labels| == |defects| && order == Distinct(labels)
    requires Picked(defects, labels, parse, order, |order|, picks, unique)
    ensures SameLabelComparable(defects, labels, parse)
    ensures forall m :: 0 <= m < |unique| ==> Represents(defects, labels, parse, order[m], unique[m])
  {
    forall l | l in labels
      ensures GroupComparable(defects, labels, parse, l)
    {
      var m :| 0 <= m < |order| && order[m] == l;
    }
    SameLabelComparableIff(defects, labels, parse);
    forall m | 0 <= m < |unique|
      ensures Represents(defects, labels, parse, order[m], unique[m])
    {
      assert labels[picks[m]] == order[m] && defects[picks[m]] == unique[m];
    }
  }

  /**
   * The second loop: `min` over the groups in key order, collecting the
   * representatives, stopping with the `TypeError` of the first group whose
   * keys cannot all be compared.  It succeeds exactly when every two records
   * with the same label have comparable keys, and then holds one
   * representative per label, in key order.
   */
  method PickRepresentatives(defects: seq<Record>, labels: seq<int>, parse: Parser,
                             order: seq<int>, clusters: map<int, seq<Record>>)
    returns (r: Result<seq<Record>, DedupError>)
    requires |labels| == |defects|
    requires order == Distinct(labels)
    requires forall l :: l in clusters <==> l in labels
    requires forall l :: l in clusters ==> clusters[l] == Members(defects, labels, l)
    ensures r.Ok? <==> SameLabelComparable(defects, labels, parse)
    ensures r.Ok? ==> |r.value| == |order|
    ensures r.Ok? ==> forall k :: 0 <= k < |r.value| ==> Represents(defects, labels, parse, order[k], r.value[k])
  {
    var unique: seq<Record> := [];
    ghost var picks: seq<nat> := [];
    var k := 0;
    while k < |order|
      invariant 0 <= k <= |order|
      invariant Picked(defects, labels, parse, order, k, picks, unique)
    {
      var l := order[k];
      MembersOfPresentLabel(defects, labels, l);
      var group := clusters[l];
      var pos := MinPosition(group, parse);
      if pos.Err? {
        PickFails(defects, labels, parse, l);
        return Err(pos.error);
      }
      PickStep(defects, labels, parse, order, k, picks, unique, pos.value);
      picks := picks + [MemberIndices(labels, l)[pos.value]];
      unique := unique + [group[pos.value]];
      k := k + 1;
    }
    PickedAll(defects, labels, parse, order, picks, unique);
    r := Ok(unique);
  }

  /**
   * `ai_filter_unique_defects`.  An empty batch gives an empty result and a
   * batch of one is returned as it is, neither touching the encoder.  A
   * larger batch sends its comparison texts to the encoder and clustering;
   * the result then fails exactly when some group holds two keys Python
   * cannot order, and otherwise holds one record per label, in the order of
   * each label's first appearance, each an input record of that label and
   * the one `min` picks from its group.
   */
  method FilterUniqueDefects(defects: seq<Record>, labels: seq<int>, parse: Parser,
                             threshold: real := DefaultDistanceThreshold)
    returns (r: Result<seq<Record>, DedupError>, call: Option<ModelCall>)
    requires |defects| >= 2 ==> |labels| == |defects|
    ensures |defects| == 0 ==> r == Ok([])
    ensures |defects| == 1 ==> r == Ok(defects)
    ensures call.Some? <==> |defects| >= 2
    ensures call.Some? ==> call.value.threshold == threshold && |call.value.texts| == |defects|
    ensures call.Some? ==> forall i :: 0 <= i < |defects| ==> call.value.texts[i] == ComparisonText(defects[i])
    ensures |defects| >= 2 ==> (r.Ok? <==> SameLabelComparable(defects, labels, parse))
    ensures |defects| >= 2 && r.Ok? ==> |r.value| == |Distinct(labels)| <= |defects|
    ensures |defects| >= 2 && r.Ok? ==> forall k :: 0 <= k < |r.value| ==>
      Represents(defects, labels, parse, Distinct(labels)[k], r.value[k])
  {
    call := None;
    if |defects| == 0 {
      return Ok([]), call;
    }
    if |defects| == 1 {
      return Ok(defects), call;
    }
    var texts := seq(|defects|, i requires 0 <= i < |defects| => ComparisonText(defects[i]));
    call := Some(ModelCall(texts, threshold));
    var order, clusters := GroupByLabel(defects, labels);
    r := PickRepresentatives(defects, labels, parse, order, clusters);
  }
}
