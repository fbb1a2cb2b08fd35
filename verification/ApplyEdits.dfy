/**
 The edit engine (cmd/normalize-go-imports/main.go): edits given by offsets into the original source are
 sorted from right to left and spliced into one buffer, one after the other.
 */
module ApplyEdits {
  newtype Byte = b: int | 0 <= b < 256

  type Bytes = seq<Byte>

  /** Replace the bytes in [start, end) by `text`; an insertion has start == end. */
  datatype Edit = Edit(start: int, end: int, text: Bytes)

  datatype Outcome = Edited(source: Bytes) | Rejected(culprit: Edit)

  /** The comparison passed to the sort: right to left, and a replacement before insertions at its start. */
  predicate Before(a: Edit, b: Edit) {
    if a.start == b.start then a.end > b.end else a.start > b.start
  }

  function Insert(e: Edit, sorted: seq<Edit>): seq<Edit> {
    if sorted == [] || !Before(sorted[0], e) then [e] + sorted else [sorted[0]] + Insert(e, sorted[1..])
  }

  /** The stable sort. SortedAndStable and StableIsUnique say that it is the only one. */
  function StableSort(edits: seq<Edit>): seq<Edit> {
    if edits == [] then [] else Insert(edits[0], StableSort(edits[1..]))
  }

  predicate Sorted(edits: seq<Edit>) {
    forall i, j :: 0 <= i < j < |edits| ==> !Before(edits[j], edits[i])
  }

  /** The edits of one place, in list order. */
  function At(edits: seq<Edit>, start: int, end: int): seq<Edit> {
    if edits == [] then []
    else (if edits[0].start == start && edits[0].end == end then [edits[0]] else []) + At(edits[1..], start, end)
  }

  predicate InRange(source: Bytes, e: Edit) {
    0 <= e.start <= e.end <= |source|
  }

  /** Two edits that can both be made: one ends before the other starts. */
  predicate Compatible(a: Edit, b: Edit) {
    a.end <= b.start || b.end <= a.start
  }

  predicate CompatibleWithAll(e: Edit, edits: seq<Edit>) {
    forall i :: 0 <= i < |edits| ==> Compatible(e, edits[i])
  }

  predicate AllCompatible(edits: seq<Edit>) {
    forall i, j :: 0 <= i < j < |edits| ==> Compatible(edits[i], edits[j])
  }

  predicate AllInRange(source: Bytes, edits: seq<Edit>) {
    forall i :: 0 <= i < |edits| ==> InRange(source, edits[i])
  }

  /** The texts inserted at an offset: the last one listed comes first. */
  function Inserted(edits: seq<Edit>, p: int): Bytes {
    if edits == [] then []
    else Inserted(edits[1..], p) + (if edits[0].start == p && edits[0].end == p then edits[0].text else [])
  }

  /** The replacement starting at an offset, if any. */
  function Replacing(edits: seq<Edit>, p: int): seq<Edit> {
    if edits == [] then []
    else if edits[0].start == p && edits[0].end > p then [edits[0]]
    else Replacing(edits[1..], p)
  }

  predicate ReplacedAt(source: Bytes, edits: seq<Edit>, p: nat) {
    var replacing := Replacing(edits, p);
    replacing != [] && p < replacing[0].end <= |source|
  }

  /** What stands for the source at p: the insertions, then the replacement or the byte itself. */
  function Piece(source: Bytes, edits: seq<Edit>, p: nat): Bytes {
    Inserted(edits, p) +
    if ReplacedAt(source, edits, p) then Replacing(edits, p)[0].text
    else if p < |source| then [source[p]]
    else []
  }

  /** Where the source goes on after that piece; past its end when it is used up. */
  function Next(source: Bytes, edits: seq<Edit>, p: nat): (next: nat)
    ensures p < next
  {
    if ReplacedAt(source, edits, p) then Replacing(edits, p)[0].end else p + 1
  }

  /** Simultaneous substitution, read left to right over the original source. */
  function Substituted(source: Bytes, edits: seq<Edit>, p: nat): Bytes
    decreases |source| - p
  {
    Piece(source, edits, p) + if p < |source| then Substituted(source, edits, Next(source, edits, p)) else []
  }

  lemma Unfold(source: Bytes, edits: seq<Edit>, p: nat)
    requires p < |source|
    ensures Substituted(source, edits, p) ==
            Piece(source, edits, p) + Substituted(source, edits, Next(source, edits, p))
  {
  }

  // The sort.

  lemma {:induction false} InsertSorted(e: Edit, sorted: seq<Edit>)
    requires Sorted(sorted)
    ensures Sorted(Insert(e, sorted))
    ensures forall x :: x in Insert(e, sorted) <==> x == e || x in sorted
  {
    if sorted != [] && Before(sorted[0], e) {
      InsertSorted(e, sorted[1..]);
      var rest := Insert(e, sorted[1..]);
      assert sorted == [sorted[0]] + sorted[1..];
      forall j | 0 <= j < |rest| ensures !Before(rest[j], sorted[0]) {
        assert rest[j] in rest;
      }
    } else if sorted != [] {
      assert sorted == [sorted[0]] + sorted[1..];
      forall j | 0 <= j < |sorted| ensures !Before(sorted[j], e) {
        assert j > 0 ==> !Before(sorted[j], sorted[0]);
      }
    }
  }

  lemma {:induction false} InsertAt(e: Edit, sorted: seq<Edit>, start: int, end: int)
    ensures At(Insert(e, sorted), start, end) == At([e] + sorted, start, end)
  {
    assert ([e] + sorted)[1..] == sorted;
    if sorted != [] && Before(sorted[0], e) {
      InsertAt(e, sorted[1..], start, end);
      assert ([e] + sorted[1..])[1..] == sorted[1..];
      assert Insert(e, sorted)[1..] == Insert(e, sorted[1..]);
    }
  }

  /** What the sort promises: the order asked for, and for every place the same edits in list order. */
  lemma {:induction false} SortedAndStable(edits: seq<Edit>)
    ensures Sorted(StableSort(edits)) && |StableSort(edits)| == |edits|
    ensures forall x :: x in StableSort(edits) <==> x in edits
    ensures forall start, end :: At(StableSort(edits), start, end) == At(edits, start, end)
  {
    if edits == [] {
    } else {
      var rest := StableSort(edits[1..]);
      SortedAndStable(edits[1..]);
      InsertSorted(edits[0], rest);
      InsertLength(edits[0], rest);
      assert edits == [edits[0]] + edits[1..];
      forall start, end ensures At(StableSort(edits), start, end) == At(edits, start, end) {
        InsertAt(edits[0], rest, start, end);
        assert ([edits[0]] + rest)[1..] == rest;
      }
    }
  }

  lemma {:induction false} InsertLength(e: Edit, sorted: seq<Edit>)
    ensures |Insert(e, sorted)| == |sorted| + 1
  {
    if sorted != [] && Before(sorted[0], e) {
      InsertLength(e, sorted[1..]);
    }
  }

  lemma {:induction false} AtMembers(edits: seq<Edit>, e: Edit)
    ensures e in At(edits, e.start, e.end) <==> e in edits
  {
    if edits == [] {
    } else {
      AtMembers(edits[1..], e);
      assert edits == [edits[0]] + edits[1..];
    }
  }

  ghost predicate SameEverywhere(a: seq<Edit>, b: seq<Edit>) {
    forall start, end :: At(a, start, end) == At(b, start, end)
  }

  lemma SameFirst(a: seq<Edit>, b: seq<Edit>)
    requires Sorted(a) && Sorted(b) && a != [] && b != []
    requires SameEverywhere(a, b)
    ensures a[0] == b[0]
  {
    AtMembers(a, a[0]);
    AtMembers(b, a[0]);
    AtMembers(a, b[0]);
    AtMembers(b, b[0]);
    assert At(a, a[0].start, a[0].end) == At(b, a[0].start, a[0].end);
    assert At(a, b[0].start, b[0].end) == At(b, b[0].start, b[0].end);
    assert !Before(a[0], b[0]) && !Before(b[0], a[0]);
    assert At(a, a[0].start, a[0].end)[0] == a[0] && At(b, b[0].start, b[0].end)[0] == b[0];
  }

  lemma SameEmpty(a: seq<Edit>, b: seq<Edit>)
    requires SameEverywhere(a, b) && a == []
    ensures b == []
  {
    if b != [] {
      AtMembers(b, b[0]);
    }
  }

  lemma SameTail(a: seq<Edit>, b: seq<Edit>, start: int, end: int)
    requires a != [] && b != [] && a[0] == b[0] && At(a, start, end) == At(b, start, end)
    ensures At(a[1..], start, end) == At(b[1..], start, end)
  {
    var head := if a[0].start == start && a[0].end == end then [a[0]] else [];
    assert At(a, start, end) == head + At(a[1..], start, end) && At(b, start, end) == head + At(b[1..], start, end);
    assert (head + At(a[1..], start, end))[|head|..] == At(a[1..], start, end);
    assert (head + At(b[1..], start, end))[|head|..] == At(b[1..], start, end);
  }

  lemma TailSorted(a: seq<Edit>)
    requires Sorted(a) && a != []
    ensures Sorted(a[1..])
  {
  }

  /** Order and stability leave the sort only one result. */
  lemma {:induction false} StableIsUnique(a: seq<Edit>, b: seq<Edit>)
    requires Sorted(a) && Sorted(b) && SameEverywhere(a, b)
    ensures a == b
  {
    if a == [] || b == [] {
      if a == [] {
        SameEmpty(a, b);
      } else {
        SameEmpty(b, a);
      }
    } else {
      SameFirst(a, b);
      hide At, Sorted;
      forall start, end ensures At(a[1..], start, end) == At(b[1..], start, end) {
        assert At(a, start, end) == At(b, start, end);
        SameTail(a, b, start, end);
      }
      TailSorted(a);
      TailSorted(b);
      StableIsUnique(a[1..], b[1..]);
    }
  }

  // Substitution and compatibility do not depend on the sort.

  lemma {:induction false} InsertCompatible(e: Edit, x: Edit, sorted: seq<Edit>)
    ensures CompatibleWithAll(x, Insert(e, sorted)) <==> Compatible(x, e) && CompatibleWithAll(x, sorted)
  {
    if sorted != [] && Before(sorted[0], e) {
      InsertCompatible(e, x, sorted[1..]);
      assert sorted == [sorted[0]] + sorted[1..];
      ConsCompatible(x, sorted[0], sorted[1..]);
      ConsCompatible(x, sorted[0], Insert(e, sorted[1..]));
    } else {
      ConsCompatible(x, e, sorted);
    }
  }

  lemma ConsCompatible(x: Edit, head: Edit, tail: seq<Edit>)
    ensures CompatibleWithAll(x, [head] + tail) <==> Compatible(x, head) && CompatibleWithAll(x, tail)
  {
    var all := [head] + tail;
    if CompatibleWithAll(x, all) {
      assert Compatible(x, all[0]);
      forall i | 0 <= i < |tail| ensures Compatible(x, tail[i]) {
        assert Compatible(x, all[i + 1]);
      }
    }
  }

  lemma ConsAllCompatible(head: Edit, tail: seq<Edit>)
    ensures AllCompatible([head] + tail) <==> CompatibleWithAll(head, tail) && AllCompatible(tail)
  {
    var all := [head] + tail;
    if AllCompatible(all) {
      forall i | 0 <= i < |tail| ensures Compatible(head, tail[i]) {
        assert Compatible(all[0], all[i + 1]);
      }
      forall i, j | 0 <= i < j < |tail| ensures Compatible(tail[i], tail[j]) {
        assert Compatible(all[i + 1], all[j + 1]);
      }
    }
  }

  lemma {:induction false} InsertAllCompatible(e: Edit, sorted: seq<Edit>)
    ensures AllCompatible(Insert(e, sorted)) <==> CompatibleWithAll(e, sorted) && AllCompatible(sorted)
  {
    if sorted != [] && Before(sorted[0], e) {
      var rest := Insert(e, sorted[1..]);
      assert sorted == [sorted[0]] + sorted[1..];
      InsertAllCompatible(e, sorted[1..]);
      InsertCompatible(e, sorted[0], sorted[1..]);
      ConsAllCompatible(sorted[0], rest);
      ConsAllCompatible(sorted[0], sorted[1..]);
      ConsCompatible(e, sorted[0], sorted[1..]);
    } else {
      ConsAllCompatible(e, sorted);
    }
  }

  lemma {:induction false} SortCompatible(edits: seq<Edit>)
    ensures AllCompatible(StableSort(edits)) <==> AllCompatible(edits)
  {
    if edits == [] {
    } else {
      var rest := StableSort(edits[1..]);
      SortCompatible(edits[1..]);
      InsertAllCompatible(edits[0], rest);
      assert edits == [edits[0]] + edits[1..];
      ConsAllCompatible(edits[0], edits[1..]);
      SortedAndStable(edits[1..]);
      assert CompatibleWithAll(edits[0], rest) <==> forall x :: x in rest ==> Compatible(edits[0], x);
      assert CompatibleWithAll(edits[0], edits[1..]) <==> forall x :: x in edits[1..] ==> Compatible(edits[0], x);
    }
  }

  lemma {:induction false} InsertReads(e: Edit, sorted: seq<Edit>, p: int)
    requires CompatibleWithAll(e, sorted)
    ensures Inserted(Insert(e, sorted), p) == Inserted([e] + sorted, p)
    ensures Replacing(Insert(e, sorted), p) == Replacing([e] + sorted, p)
  {
    assert ([e] + sorted)[1..] == sorted;
    if sorted != [] && Before(sorted[0], e) {
      forall i | 0 <= i < |sorted[1..]| ensures Compatible(e, sorted[1..][i]) {
        assert Compatible(e, sorted[i + 1]);
      }
      InsertReads(e, sorted[1..], p);
      assert ([e] + sorted[1..])[1..] == sorted[1..];
      assert Insert(e, sorted)[1..] == Insert(e, sorted[1..]);
      assert Compatible(e, sorted[0]);
    }
  }

  lemma {:induction false} SortReads(edits: seq<Edit>, p: int)
    requires AllCompatible(edits)
    ensures Inserted(StableSort(edits), p) == Inserted(edits, p)
    ensures Replacing(StableSort(edits), p) == Replacing(edits, p)
  {
    if edits == [] {
    } else {
      var rest := StableSort(edits[1..]);
      assert edits == [edits[0]] + edits[1..];
      ConsAllCompatible(edits[0], edits[1..]);
      SortReads(edits[1..], p);
      SortedAndStable(edits[1..]);
      assert forall x :: x in edits[1..] ==> Compatible(edits[0], x);
      assert CompatibleWithAll(edits[0], rest);
      InsertReads(edits[0], rest, p);
      assert ([edits[0]] + rest)[1..] == rest;
    }
  }

  predicate SameAt(a: seq<Edit>, b: seq<Edit>, p: nat) {
    Inserted(a, p) == Inserted(b, p) && Replacing(a, p) == Replacing(b, p)
  }

  lemma {:induction false} SameReads(source: Bytes, a: seq<Edit>, b: seq<Edit>, p: nat)
    requires forall q: nat :: p <= q ==> SameAt(a, b, q)
    ensures Substituted(source, a, p) == Substituted(source, b, p)
    decreases |source| - p
  {
    assert SameAt(a, b, p);
    if p < |source| {
      var next := Next(source, a, p);
      hide Inserted, Replacing;
      SameReads(source, a, b, next);
    }
  }

  /** The order of the list is irrelevant to the substitution, except among insertions at one place. */
  lemma SortKeepsSubstitution(source: Bytes, edits: seq<Edit>)
    requires AllCompatible(edits)
    ensures Substituted(source, StableSort(edits), 0) == Substituted(source, edits, 0)
  {
    forall q: nat ensures SameAt(StableSort(edits), edits, q) {
      SortReads(edits, q);
    }
    SameReads(source, StableSort(edits), edits, 0);
  }

  // One step of the loop.

  lemma {:induction false} AppendReads(edits: seq<Edit>, e: Edit, p: int)
    ensures Inserted(edits + [e], p) == (if e.start == p && e.end == p then e.text else []) + Inserted(edits, p)
    ensures Replacing(edits + [e], p) ==
            if Replacing(edits, p) != [] then Replacing(edits, p)
            else if e.start == p && e.end > p then [e] else []
  {
    if edits == [] {
      assert edits + [e] == [e];
    } else {
      AppendReads(edits[1..], e, p);
      assert (edits + [e])[1..] == edits[1..] + [e];
    }
  }

  lemma {:induction false} NothingAt(edits: seq<Edit>, p: int)
    requires forall i :: 0 <= i < |edits| ==> edits[i].start > p
    ensures Inserted(edits, p) == [] && Replacing(edits, p) == []
  {
    if edits == [] {
    } else {
      NothingAt(edits[1..], p);
    }
  }

  lemma CopyOne(source: Bytes, edits: seq<Edit>, p: nat)
    requires p < |source| && Inserted(edits, p) == [] && Replacing(edits, p) == []
    ensures Substituted(source, edits, p) == [source[p]] + Substituted(source, edits, p + 1)
  {
    hide Inserted, Replacing, Substituted;
    Unfold(source, edits, p);
  }

  /** Up to the first edit the source is copied. */
  lemma {:induction false} CopyUpTo(source: Bytes, edits: seq<Edit>, p: nat, q: nat)
    requires p <= q <= |source|
    requires forall i :: 0 <= i < |edits| ==> edits[i].start >= q
    ensures Substituted(source, edits, p) == source[p..q] + Substituted(source, edits, q)
    decreases q - p
  {
    hide Substituted;
    if p < q {
      NothingAt(edits, p);
      CopyOne(source, edits, p);
      CopyUpTo(source, edits, p + 1, q);
      assert source[p..q] == [source[p]] + source[p + 1..q];
    }
  }

  /** Beyond its start an edit makes no difference of its own. */
  lemma BeyondStart(source: Bytes, edits: seq<Edit>, e: Edit, p: nat)
    requires e.start < p
    ensures Substituted(source, edits + [e], p) == Substituted(source, edits, p)
  {
    hide Inserted, Replacing;
    forall q: nat | p <= q ensures SameAt(edits + [e], edits, q) {
      AppendReads(edits, e, q);
    }
    SameReads(source, edits + [e], edits, p);
  }

  /** Splicing one more edit, to the left of all those made, keeps the substitution. */
  lemma SpliceOne(source: Bytes, done: seq<Edit>, e: Edit, from: nat)
    requires InRange(source, e) && e.end <= from <= |source|
    requires forall i :: 0 <= i < |done| ==> done[i].start >= from
    ensures Substituted(source, done + [e], e.start) == e.text + source[e.end..from] + Substituted(source, done, from)
  {
    hide Substituted;
    CopyUpTo(source, done, e.end, from);
    if e.start < e.end {
      NothingAt(done, e.start);
      ReplaceOne(source, done, e);
      BeyondStart(source, done, e, e.end);
    } else {
      InsertOne(source, done, e);
    }
  }

  lemma ReplaceOne(source: Bytes, done: seq<Edit>, e: Edit)
    requires InRange(source, e) && e.start < e.end
    requires Inserted(done, e.start) == [] && Replacing(done, e.start) == []
    ensures Substituted(source, done + [e], e.start) == e.text + Substituted(source, done + [e], e.end)
  {
    hide Inserted, Replacing, Substituted;
    AppendReads(done, e, e.start);
    Unfold(source, done + [e], e.start);
  }

  lemma InsertOne(source: Bytes, done: seq<Edit>, e: Edit)
    requires InRange(source, e) && e.start == e.end
    ensures Substituted(source, done + [e], e.start) == e.text + Substituted(source, done, e.start)
  {
    hide Inserted, Replacing;
    var p := e.start;
    AppendReads(done, e, p);
    if p < |source| {
      hide Substituted;
      Unfold(source, done + [e], p);
      Unfold(source, done, p);
      BeyondStart(source, done, e, Next(source, done, p));
    }
  }

  /** In sorted order, compatible neighbours are enough. */
  predicate Stacked(sorted: seq<Edit>) {
    forall i :: 0 < i < |sorted| ==> sorted[i].end <= sorted[i - 1].start
  }

  lemma CompatibleIsStacked(source: Bytes, sorted: seq<Edit>)
    requires Sorted(sorted) && AllInRange(source, sorted)
    ensures AllCompatible(sorted) <==> Stacked(sorted)
  {
    if AllCompatible(sorted) {
      forall i | 0 < i < |sorted| ensures sorted[i].end <= sorted[i - 1].start {
        assert Compatible(sorted[i - 1], sorted[i]) && !Before(sorted[i], sorted[i - 1]);
        assert InRange(source, sorted[i]) && InRange(source, sorted[i - 1]);
      }
    }
    if Stacked(sorted) {
      forall i, j | 0 <= i < j < |sorted| ensures Compatible(sorted[i], sorted[j]) {
        assert !Before(sorted[j - 1], sorted[i]) || i == j - 1;
        assert sorted[j].end <= sorted[j - 1].start;
      }
    }
  }

  /** Every edit already made starts at or after the last one made. */
  lemma LastIsLeftmost(sorted: seq<Edit>, i: nat)
    requires Sorted(sorted) && 0 < i <= |sorted|
    ensures forall k :: 0 <= k < i ==> sorted[..i][k].start >= sorted[i - 1].start
  {
    forall k | 0 <= k < i ensures sorted[k].start >= sorted[i - 1].start {
      assert k < i - 1 ==> !Before(sorted[i - 1], sorted[k]);
    }
  }

  /** The buffer the loop holds after the first i edits. */
  function Buffer(source: Bytes, sorted: seq<Edit>, i: nat): Bytes
    requires i <= |sorted| && AllInRange(source, sorted[..i])
  {
    if i == 0 then source
    else
      assert InRange(source, sorted[..i][i - 1]);
      source[..sorted[i - 1].start] + Substituted(source, sorted[..i], sorted[i - 1].start)
  }

  lemma AtTheEnd(source: Bytes, none: seq<Edit>)
    requires none == []
    ensures Substituted(source, none, |source|) == []
  {
  }

  lemma SpliceStep(source: Bytes, sorted: seq<Edit>, i: nat)
    requires Sorted(sorted) && i < |sorted| && AllInRange(source, sorted[..i])
    requires InRange(source, sorted[i]) && (i > 0 ==> sorted[i].end <= sorted[i - 1].start)
    ensures AllInRange(source, sorted[..i + 1])
    ensures sorted[i].end <= |Buffer(source, sorted, i)|
    ensures Buffer(source, sorted, i + 1) ==
            Buffer(source, sorted, i)[..sorted[i].start] + sorted[i].text + Buffer(source, sorted, i)[sorted[i].end..]
  {
    hide Substituted, Sorted, Inserted, Replacing;
    var e, done := sorted[i], sorted[..i];
    assert sorted[..i + 1] == done + [e];
    var from := if i == 0 then |source| else sorted[i - 1].start;
    if i > 0 {
      assert InRange(source, done[i - 1]);
      LastIsLeftmost(sorted, i);
    }
    SpliceOne(source, done, e, from);
    var buffer := Buffer(source, sorted, i);
    if i == 0 {
      AtTheEnd(source, done);
    }
    assert buffer[..from] == source[..from] && buffer[from..] == Substituted(source, done, from);
    assert buffer[e.end..] == source[e.end..from] + Substituted(source, done, from);
    assert buffer[..e.start] == source[..e.start];
  }

  /** After the last edit the buffer is the substitution. */
  lemma WholeBuffer(source: Bytes, sorted: seq<Edit>)
    requires Sorted(sorted) && AllInRange(source, sorted[..|sorted|])
    ensures Buffer(source, sorted, |sorted|) == Substituted(source, sorted, 0)
  {
    hide Substituted, Sorted;
    var n := |sorted|;
    assert sorted[..n] == sorted;
    if n == 0 {
      CopyUpTo(source, sorted, 0, |source|);
      AtTheEnd(source, sorted);
    } else {
      LastIsLeftmost(sorted, n);
      assert InRange(source, sorted[..n][n - 1]);
      CopyUpTo(source, sorted, 0, sorted[n - 1].start);
    }
  }

  /** An edit that runs into the one to its right overlaps it. */
  lemma Clashes(source: Bytes, sorted: seq<Edit>, i: nat)
    requires Sorted(sorted) && 0 < i < |sorted|
    requires InRange(source, sorted[i - 1]) && InRange(source, sorted[i])
    requires sorted[i].end > sorted[i - 1].start
    ensures !Compatible(sorted[i], sorted[i - 1])
  {
    assert !Before(sorted[i], sorted[i - 1]);
  }

  /** An edit list the loop gets through is in range and free of overlaps. */
  lemma AcceptedAll(source: Bytes, given: seq<Edit>)
    requires AllInRange(source, StableSort(given)) && Stacked(StableSort(given))
    ensures AllInRange(source, given) && AllCompatible(given)
  {
    var sorted := StableSort(given);
    SortedAndStable(given);
    CompatibleIsStacked(source, sorted);
    SortCompatible(given);
    forall k | 0 <= k < |given| ensures InRange(source, given[k]) {
      assert given[k] in sorted;
    }
  }

  /** Why the loop gives up at an edit: it is out of range, or overlaps its neighbour. */
  lemma Refused(source: Bytes, given: seq<Edit>, i: nat)
    requires i < |StableSort(given)|
    requires i > 0 ==> InRange(source, StableSort(given)[i - 1])
    requires InRange(source, StableSort(given)[i]) ==>
               i > 0 && StableSort(given)[i].end > StableSort(given)[i - 1].start
    ensures StableSort(given)[i] in given
    ensures !(AllInRange(source, given) && AllCompatible(given))
    ensures InRange(source, StableSort(given)[i]) ==>
              exists other :: other in given && !Compatible(StableSort(given)[i], other)
  {
    var sorted := StableSort(given);
    SortedAndStable(given);
    assert sorted[i] in sorted;
    if InRange(source, sorted[i]) {
      Clashes(source, sorted, i);
      assert sorted[i - 1] in sorted;
      SortCompatible(given);
      assert !Compatible(sorted[i - 1], sorted[i]);
    }
  }

  /** The library's stable sort: the caller's slice is reordered in place. */
  method SliceStable(edits: array<Edit>)
    modifies edits
    ensures edits[..] == StableSort(old(edits[..]))
  {
    var sorted := StableSort(edits[..]);
    SortedAndStable(edits[..]);
    forall i | 0 <= i < edits.Length {
      edits[i] := sorted[i];
    }
  }

  /**
   Succeeds exactly when every edit lies in the source and no two overlap, and then performs all of them
   at their original offsets; otherwise it names an edit that is out of range or overlaps another.
   */
  method Apply(source: Bytes, edits: array<Edit>) returns (outcome: Outcome)
    modifies edits
    ensures edits[..] == StableSort(old(edits[..]))
    ensures outcome.Edited? <==> AllInRange(source, old(edits[..])) && AllCompatible(old(edits[..]))
    ensures outcome.Edited? ==> outcome.source == Substituted(source, old(edits[..]), 0)
    ensures outcome.Rejected? ==>
              && outcome.culprit in old(edits[..])
              && (InRange(source, outcome.culprit) ==>
                    exists other :: other in old(edits[..]) && !Compatible(outcome.culprit, other))
  {
    hide Substituted, StableSort, Sorted, AllCompatible;
    ghost var given := edits[..];
    SliceStable(edits);
    ghost var sorted := edits[..];
    SortedAndStable(given);
    SortCompatible(given);
    var updated, previousStart, i := source, |source| + 1, 0;
    while i < edits.Length
      invariant 0 <= i <= edits.Length && edits[..] == sorted
      invariant previousStart == if i == 0 then |source| + 1 else sorted[i - 1].start
      invariant AllInRange(source, sorted[..i])
      invariant forall k :: 0 < k < i ==> sorted[k].end <= sorted[k - 1].start
      invariant updated == Buffer(source, sorted, i)
    {
      var item := edits[i];
      assert item in given;
      assert i > 0 ==> InRange(source, sorted[..i][i - 1]);
      if item.start < 0 || item.end < item.start || item.end > |updated| || item.end > previousStart {
        Refused(source, given, i);
        return Rejected(item);
      }
      SpliceStep(source, sorted, i);
      updated := updated[..item.start] + item.text + updated[item.end..];
      previousStart := item.start;
      i := i + 1;
    }
    assert sorted[..i] == sorted;
    AcceptedAll(source, given);
    SortKeepsSubstitution(source, given);
    WholeBuffer(source, sorted);
    outcome := Edited(updated);
  }
}
