/**
 The deep merge of configuration sources (config/bootstrap_reader.go): sources are merged in order, maps key
 by key, anything else replacing what was there.
 */
module ConfigMerge {
  import opened Wrappers

  /**
   A decoded value. A map keyed by arbitrary values is represented by its keys as printed, and told apart
   from a map keyed by strings until it is normalized.
   */
  datatype Value = Leaf(text: string) | List(items: seq<Value>) | Map(textKeys: bool, entries: Entries)

  type Entries = map<string, Value>

  function Normalize(v: Value): Value
    decreases v
  {
    match v
    case Leaf(_) => v
    case List(items) => List(seq(|items|, i requires 0 <= i < |items| => Normalize(items[i])))
    case Map(_, entries) => Map(true, map k | k in entries :: Normalize(entries[k]))
  }

  predicate Normal(v: Value)
    decreases v
  {
    match v
    case Leaf(_) => true
    case List(items) => forall i :: 0 <= i < |items| ==> Normal(items[i])
    case Map(textKeys, entries) => textKeys && forall k :: k in entries ==> Normal(entries[k])
  }

  predicate AllNormal(entries: Entries) {
    forall k :: k in entries ==> Normal(entries[k])
  }

  /** The same value but for the kinds of keys: equal leaves, lists item by item, maps key by key. */
  ghost predicate Alike(v: Value, w: Value)
    decreases v
  {
    match v
    case Leaf(_) => w == v
    case List(items) => w.List? && |w.items| == |items| && forall i :: 0 <= i < |items| ==> Alike(items[i], w.items[i])
    case Map(_, entries) =>
      w.Map? && w.entries.Keys == entries.Keys && forall k :: k in entries ==> Alike(entries[k], w.entries[k])
  }

  lemma {:induction false} NormalizeIsNormal(v: Value)
    ensures Normal(Normalize(v)) && (Normalize(v).Map? <==> v.Map?)
    ensures Normal(v) ==> Normalize(v) == v
    decreases v
  {
    match v
    case Leaf(_) =>
    case List(items) =>
      forall i | 0 <= i < |items| {
        NormalizeIsNormal(items[i]);
      }
    case Map(_, entries) =>
      forall k | k in entries {
        NormalizeIsNormal(entries[k]);
      }
  }

  lemma {:induction false} NormalizeAlike(v: Value)
    ensures Alike(v, Normalize(v))
    decreases v
  {
    match v
    case Leaf(_) =>
    case List(items) =>
      forall i | 0 <= i < |items| ensures Alike(items[i], Normalize(v).items[i]) {
        NormalizeAlike(items[i]);
      }
    case Map(_, entries) =>
      forall k | k in entries ensures Alike(entries[k], Normalize(v).entries[k]) {
        NormalizeAlike(entries[k]);
      }
  }

  lemma {:induction false} AlikeNormal(v: Value, w: Value)
    requires Alike(v, w) && Normal(w)
    ensures w == Normalize(v)
    decreases v
  {
    match v
    case Leaf(_) =>
    case List(items) =>
      forall i | 0 <= i < |items| ensures w.items[i] == Normalize(v).items[i] {
        AlikeNormal(items[i], w.items[i]);
      }
    case Map(_, entries) =>
      forall k | k in entries ensures w.entries[k] == Normalize(v).entries[k] {
        AlikeNormal(entries[k], w.entries[k]);
      }
      assert w.entries == Normalize(v).entries;
  }

  /** Normalizing changes nothing but the kinds of keys: it gives the one value with text keys that is alike. */
  lemma NormalizeExactly(v: Value, w: Value)
    ensures w == Normalize(v) <==> Alike(v, w) && Normal(w)
  {
    NormalizeIsNormal(v);
    NormalizeAlike(v);
    if Alike(v, w) && Normal(w) {
      AlikeNormal(v, w);
    }
  }

  /** The entries a nested map is merged into: a copy of the map already there, or nothing. */
  function Below(entries: Entries, key: string): Entries {
    if key in entries && entries[key].Map? then Normalize(entries[key]).entries else map[]
  }

  /** The specification of the merge. */
  function Merge(dst: Entries, src: Value): Entries
    requires src.Map?
    decreases src, 0
  {
    map k | k in dst.Keys + src.entries.Keys ::
      if k !in src.entries then dst[k] else MergeChild(Below(dst, k), src.entries[k])
  }

  function MergeChild(below: Entries, child: Value): Value
    decreases child, 1
  {
    if child.Map? then Map(true, Merge(below, child)) else Normalize(child)
  }

  function MergeAll(dst: Entries, sources: seq<Value>): Entries
    requires forall i :: 0 <= i < |sources| ==> sources[i].Map?
  {
    if sources == [] then dst else Merge(MergeAll(dst, sources[..|sources| - 1]), sources[|sources| - 1])
  }

  lemma BelowIsNormal(entries: Entries, key: string)
    ensures AllNormal(Below(entries, key))
  {
    if key in entries && entries[key].Map? {
      NormalizeIsNormal(entries[key]);
    }
  }

  lemma {:induction false} MergeIsNormal(dst: Entries, src: Value)
    requires src.Map? && AllNormal(dst)
    ensures AllNormal(Merge(dst, src))
    decreases src
  {
    forall k | k in src.entries ensures Normal(MergeChild(Below(dst, k), src.entries[k])) {
      BelowIsNormal(dst, k);
      NormalizeIsNormal(src.entries[k]);
      if src.entries[k].Map? {
        MergeIsNormal(Below(dst, k), src.entries[k]);
      }
    }
  }

  /** Normalizing a source before merging it makes no difference. */
  lemma {:induction false} NormalizedSource(dst: Entries, src: Value)
    requires src.Map?
    ensures Merge(dst, Normalize(src)) == Merge(dst, src)
    decreases src
  {
    forall k | k in src.entries
      ensures MergeChild(Below(dst, k), Normalize(src.entries[k])) == MergeChild(Below(dst, k), src.entries[k])
    {
      NormalizeIsNormal(src.entries[k]);
      NormalizeIsNormal(Normalize(src.entries[k]));
      if src.entries[k].Map? {
        NormalizedSource(Below(dst, k), src.entries[k]);
      }
    }
    var n := Normalize(src);
    assert n.entries.Keys == src.entries.Keys;
    assert forall k :: k in n.entries ==> n.entries[k] == Normalize(src.entries[k]);
  }

  /** Merging a source again right away changes nothing. */
  lemma {:induction false} MergeAgain(dst: Entries, src: Value)
    requires src.Map? && AllNormal(dst)
    ensures Merge(Merge(dst, src), src) == Merge(dst, src)
    decreases src
  {
    var once := Merge(dst, src);
    MergeIsNormal(dst, src);
    forall k | k in src.entries ensures MergeChild(Below(once, k), src.entries[k]) == once[k] {
      assert k in once && once[k] == MergeChild(Below(dst, k), src.entries[k]);
      if src.entries[k].Map? {
        BelowIsNormal(dst, k);
        NormalizeIsNormal(once[k]);
        assert Normal(once[k]);
        assert Below(once, k) == Merge(Below(dst, k), src.entries[k]);
        MergeAgain(Below(dst, k), src.entries[k]);
      }
    }
  }

  // Lookups.

  /** A path goes into maps by key and into lists by index. */
  datatype Step = Key(name: string) | Index(place: nat)

  predicate Enters(v: Value, step: Step) {
    match step
    case Key(name) => v.Map? && name in v.entries
    case Index(place) => v.List? && place < |v.items|
  }

  function Entered(v: Value, step: Step): Value
    requires Enters(v, step)
  {
    if step.Key? then v.entries[step.name] else v.items[step.place]
  }

  /** Looking a path up, step by step. */
  function Lookup(v: Value, path: seq<Step>): Option<Value>
    decreases |path|
  {
    if path == [] then Some(v)
    else if Enters(v, path[0]) then Lookup(Entered(v, path[0]), path[1..])
    else None
  }

  /** Normalizing leaves every value in its place. */
  lemma {:induction false} NormalizedLookup(v: Value, path: seq<Step>)
    ensures var before, after := Lookup(v, path), Lookup(Normalize(v), path);
            && (after.Some? <==> before.Some?)
            && (before.Some? ==> after.value == Normalize(before.value) && Alike(before.value, after.value))
    decreases |path|
  {
    if path == [] {
      NormalizeAlike(v);
    } else if Enters(v, path[0]) {
      NormalizedLookup(Entered(v, path[0]), path[1..]);
    }
  }

  /**
   What a source says about a path: nothing, a value to be merged there, a value inside a list, which comes as
   a whole, or something else at a prefix of it.
   */
  datatype Says = Nothing | Here(value: Value) | Inside(value: Value) | Instead

  function Probe(src: Value, path: seq<Step>): Says
    decreases |path|
  {
    if path == [] then Here(src)
    else if src.Map? && path[0].Key? then
      if path[0].name !in src.entries then Nothing else Probe(src.entries[path[0].name], path[1..])
    else if src.List? && Lookup(src, path).Some? then Inside(Lookup(src, path).value)
    else Instead
  }

  /** What one merge makes of a path: the source wins, maps are merged, and silence keeps what was there. */
  function Decided(before: Option<Value>, says: Says): Option<Value> {
    match says
    case Nothing => before
    case Instead => None
    case Inside(v) => Some(Normalize(v))
    case Here(v) =>
      if v.Map? then Some(Map(true, Merge(if before.Some? && before.value.Map? then before.value.entries else map[], v)))
      else Some(Normalize(v))
  }

  lemma {:induction false} MergeLookup(dst: Entries, src: Value, path: seq<Step>)
    requires src.Map? && AllNormal(dst) && path != []
    ensures Lookup(Map(true, Merge(dst, src)), path) == Decided(Lookup(Map(true, dst), path), Probe(src, path))
    decreases |path|
  {
    var rest := path[1..];
    if path[0].Key? && path[0].name in src.entries {
      var k, child := path[0].name, src.entries[path[0].name];
      if k in dst {
        NormalizeIsNormal(dst[k]);
      }
      NormalizedLookup(child, rest);
      NormalizeIsNormal(child);
      if child.Map? && rest != [] {
        BelowIsNormal(dst, k);
        MergeLookup(Below(dst, k), child, rest);
        MapOrNothing(dst, k, rest, child);
      }
    }
  }

  /** Below a key a merged map starts from the map that is there, or from nothing. */
  lemma MapOrNothing(dst: Entries, k: string, rest: seq<Step>, child: Value)
    requires AllNormal(dst) && rest != [] && child.Map?
    ensures Decided(Lookup(Map(true, Below(dst, k)), rest), Probe(child, rest))
         == Decided(if k in dst then Lookup(dst[k], rest) else None, Probe(child, rest))
  {
    if k in dst {
      NormalizeIsNormal(dst[k]);
    }
    if !(k in dst && dst[k].Map?) {
      assert Lookup(Map(true, map[]), rest) == None;
    }
  }

  // A list of sources.

  ghost predicate AllMaps(sources: seq<Value>) {
    forall i :: 0 <= i < |sources| ==> sources[i].Map?
  }

  lemma {:induction false} MergeAllIsNormal(dst: Entries, sources: seq<Value>)
    requires AllMaps(sources) && AllNormal(dst)
    ensures AllNormal(MergeAll(dst, sources))
  {
    if sources == [] {
    } else {
      MergeAllIsNormal(dst, sources[..|sources| - 1]);
      MergeIsNormal(MergeAll(dst, sources[..|sources| - 1]), sources[|sources| - 1]);
    }
  }

  /** The sources after the i-th say nothing about a path. */
  predicate SilentAfter(sources: seq<Value>, path: seq<Step>, i: int) {
    forall j :: i < j < |sources| && 0 <= j ==> Probe(sources[j], path) == Nothing
  }

  /** The i-th source is the last one to say anything about a path, and gives it this value. */
  predicate LastWord(sources: seq<Value>, path: seq<Step>, i: nat, v: Value) {
    i < |sources| && Probe(sources[i], path) in {Here(v), Inside(v)} && SilentAfter(sources, path, i)
  }

  /** Some source gives the path a value alike, and no later one says anything about it. */
  ghost predicate Given(sources: seq<Value>, path: seq<Step>, found: Value) {
    exists i, v :: LastWord(sources, path, i, v) && Alike(v, found)
  }

  lemma Lengthen(sources: seq<Value>, path: seq<Step>, i: int)
    requires sources != [] && Probe(sources[|sources| - 1], path) == Nothing && i < |sources| - 1
    ensures SilentAfter(sources, path, i) <==> SilentAfter(sources[..|sources| - 1], path, i)
  {
    var all, front := sources, sources[..|sources| - 1];
    assert forall j :: 0 <= j < |front| ==> front[j] == all[j];
  }

  lemma SpokenLast(sources: seq<Value>, path: seq<Step>)
    requires sources != [] && Probe(sources[|sources| - 1], path) != Nothing
    ensures forall i :: i < |sources| - 1 ==> !SilentAfter(sources, path, i)
  {
  }

  /** The last source decides if it speaks. */
  lemma SpokenNow(sources: seq<Value>, path: seq<Step>, v: Value, found: Value)
    requires sources != [] && Probe(sources[|sources| - 1], path) in {Here(v), Inside(v)}
    ensures Normalize(v) == found <==> Normal(found) && Given(sources, path, found)
    ensures Normalize(v).Map? <==> v.Map?
  {
    hide Probe, Alike, Normalize, Normal;
    var n := |sources| - 1;
    SpokenLast(sources, path);
    NormalizeExactly(v, found);
    NormalizeIsNormal(v);
    assert LastWord(sources, path, n, v);
    forall i, w | LastWord(sources, path, i, w) ensures w == v {
      assert i == n;
    }
  }

  lemma SilentLast(sources: seq<Value>, front: seq<Value>, path: seq<Step>, found: Value)
    requires sources != [] && Probe(sources[|sources| - 1], path) == Nothing
    requires front == sources[..|sources| - 1]
    ensures Given(sources, path, found) <==> Given(front, path, found)
  {
    forall i: nat, v
      ensures LastWord(sources, path, i, v) == LastWord(front, path, i, v)
    {
      if i < |front| {
        Lengthen(sources, path, i);
      }
    }
  }

  /**
   The lookup law: after merging a list of sources, a path into maps and lists has a value that is not a map
   exactly when some source gives it that value, but for the kinds of keys, and no later source says anything
   there, at a prefix or at the path itself.
   */
  lemma {:induction false} LeafSurvives(sources: seq<Value>, path: seq<Step>, found: Value)
    requires AllMaps(sources) && path != [] && !found.Map?
    ensures Lookup(Map(true, MergeAll(map[], sources)), path) == Some(found) <==>
            Normal(found) && Given(sources, path, found)
  {
    if sources == [] {
    } else {
      var n := |sources| - 1;
      var front, last := sources[..n], sources[n];
      MergeAllIsNormal(map[], front);
      MergeLookup(MergeAll(map[], front), last, path);
      LeafSurvives(front, path, found);
      hide Probe, Lookup, Merge, MergeAll, Alike, Normalize, Normal;
      match Probe(last, path)
      case Nothing => SilentLast(sources, front, path, found);
      case Instead =>
        SpokenLast(sources, path);
        assert forall i, v :: LastWord(sources, path, i, v) ==> i == n;
      case Here(v) => SpokenNow(sources, path, v, found);
      case Inside(v) => SpokenNow(sources, path, v, found);
    }
  }

  /** A path is without a value exactly when no source speaks of it, or the last that does blocks it. */
  lemma {:induction false} AbsentPath(sources: seq<Value>, path: seq<Step>)
    requires AllMaps(sources) && path != []
    ensures Lookup(Map(true, MergeAll(map[], sources)), path) == None <==>
            SilentAfter(sources, path, -1)
            || exists i: nat :: i < |sources| && Probe(sources[i], path) == Instead && SilentAfter(sources, path, i)
  {
    if sources == [] {
    } else {
      var n := |sources| - 1;
      var front, last := sources[..n], sources[n];
      MergeAllIsNormal(map[], front);
      MergeLookup(MergeAll(map[], front), last, path);
      AbsentPath(front, path);
      if Probe(last, path) == Nothing {
        Lengthen(sources, path, -1);
        forall i: nat | i < n
          ensures (Probe(sources[i], path) == Instead && SilentAfter(sources, path, i)) ==
                  (Probe(front[i], path) == Instead && SilentAfter(front, path, i))
        {
          Lengthen(sources, path, i);
        }
      } else {
        assert SilentAfter(sources, path, n);
        SpokenLast(sources, path);
      }
    }
  }

  // The merge in place.

  /** The values a merge fills in: one mutable map. */
  class Values {
    var entries: Entries

    constructor (entries: Entries)
      ensures this.entries == entries
    {
      this.entries := entries;
    }

    /**
     Merges key by key, in any order. A source is merged as it was decoded or already normalized; `raw` is
     the decoded form, which the recursion follows.
     */
    method MergeFrom(ghost raw: Value, src: Value)
      requires raw.Map? && (src == raw || src == Normalize(raw))
      modifies this
      ensures entries == Merge(old(entries), raw)
      decreases raw, 0
    {
      hide Merge, MergeChild, Below, Partly, Normalize;
      ghost var before := entries;
      PartlyEnds(before, raw, src);
      var left := src.entries.Keys;
      while left != {}
        invariant left <= src.entries.Keys
        invariant entries == Partly(before, raw, left)
        decreases |left|
      {
        var key :| key in left;
        SameChild(raw, src, key);
        PartlyNext(before, raw, left, key);
        MergeKey(key, raw.entries[key], Normalize(src.entries[key]));
        left := left - {key};
      }
    }

    /** One key: a map is merged into a copy of the map that is there, anything else replaces it. */
    method MergeKey(key: string, ghost child: Value, normalized: Value)
      requires normalized == Normalize(child)
      modifies this
      ensures entries == old(entries)[key := MergeChild(Below(old(entries), key), child)]
      decreases child, 1
    {
      NormalizeIsNormal(child);
      if !normalized.Map? {
        entries := entries[key := normalized];
        return;
      }
      var start := map[];
      if key in entries {
        NormalizeIsNormal(entries[key]);
        var there := Normalize(entries[key]);
        if there.Map? {
          start := there.entries;
        }
      }
      var destination := new Values(start);
      destination.MergeFrom(child, normalized);
      entries := entries[key := Map(true, destination.entries)];
    }

    static lemma PartlyEnds(before: Entries, raw: Value, src: Value)
      requires raw.Map? && (src == raw || src == Normalize(raw))
      ensures src.Map? && src.entries.Keys == raw.entries.Keys
      ensures Partly(before, raw, raw.entries.Keys) == before
      ensures Partly(before, raw, {}) == Merge(before, raw)
    {
    }

    static lemma SameChild(raw: Value, src: Value, key: string)
      requires raw.Map? && (src == raw || src == Normalize(raw)) && key in raw.entries
      ensures src.Map? && key in src.entries && Normalize(src.entries[key]) == Normalize(raw.entries[key])
    {
      NormalizeIsNormal(raw.entries[key]);
      NormalizeIsNormal(Normalize(raw.entries[key]));
    }

    static lemma PartlyNext(before: Entries, src: Value, left: set<string>, key: string)
      requires src.Map? && left <= src.entries.Keys && key in left
      ensures Partly(before, src, left - {key}) ==
              Partly(before, src, left)[key := MergeChild(Below(before, key), src.entries[key])]
      ensures Below(Partly(before, src, left), key) == Below(before, key)
    {
    }

    /** The merge with some keys of the source still to do. */
    static ghost function Partly(before: Entries, src: Value, left: set<string>): Entries
      requires src.Map?
    {
      map k | k in before.Keys + (src.entries.Keys - left) ::
        if k in src.entries && k !in left then MergeChild(Below(before, k), src.entries[k]) else before[k]
    }

    method MergeSources(sources: seq<Value>)
      requires AllMaps(sources)
      modifies this
      ensures entries == MergeAll(old(entries), sources)
    {
      var i := 0;
      while i < |sources|
        invariant 0 <= i <= |sources| && entries == MergeAll(old(entries), sources[..i])
      {
        MergeFrom(sources[i], sources[i]);
        assert sources[..i + 1][..i] == sources[..i];
        i := i + 1;
      }
      assert sources[..i] == sources;
    }
  }
}
