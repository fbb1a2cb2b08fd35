/**
 Secret messages inside a request (secretcrypto/middleware.go): the memo of message types that can hold a
 secret, the collector it prunes, and the decryption and clearing of everything collected.
 */
module SecretMessages {
  import opened Wrappers

  type Name = string

  const WELL_KNOWN := "google.protobuf."

  /** A field of a message type; a scalar has no message. */
  datatype Field = Field(message: Option<Name>, isMap: bool, isList: bool)

  type Schema = map<Name, seq<Field>>

  /** The text of one message, the only thing written. */
  class Cell {
    var text: string
  }

  /** A message: a list field has any number of items, a singular one none or one. */
  datatype Message = Message(name: Name, cell: Cell, fields: seq<Items>)
  datatype Items = Items(items: seq<Message>)

  /** Maps and scalars are never looked into. */
  predicate Scanned(f: Field) {
    f.message.Some? && !f.isMap
  }

  predicate WellKnown(name: Name) {
    WELL_KNOWN <= name
  }

  /** Every type a scanned field refers to is described. */
  predicate Complete(schema: Schema) {
    forall t, f :: t in schema && f in schema[t] && Scanned(f) ==> f.message.value in schema
  }

  /** The fields whose types the type scan visits in turn. */
  predicate Descends(f: Field, target: Name) {
    Scanned(f) && f.message.value != target && !WellKnown(f.message.value)
  }

  predicate Refers(schema: Schema, a: Name, b: Name) {
    a in schema && exists f :: f in schema[a] && Scanned(f) && f.message.value == b
  }

  /** A chain of references to the target, with no well-known type on the way. */
  predicate CarryPath(schema: Schema, target: Name, path: seq<Name>) {
    && |path| >= 2 && path[|path| - 1] == target
    && (forall i :: 0 <= i < |path| - 1 ==> Refers(schema, path[i], path[i + 1]))
    && (forall i :: 0 < i < |path| - 1 ==> !WellKnown(path[i]))
  }

  /** Messages of this type can hold the target. */
  ghost predicate Carries(schema: Schema, target: Name, t: Name) {
    exists path :: CarryPath(schema, target, path) && path[0] == t
  }

  predicate CarriedBy(schema: Schema, target: Name, f: Field, reached: bool) {
    Scanned(f) && (f.message.value == target || (!WellKnown(f.message.value) && reached))
  }

  lemma CarryStep(schema: Schema, target: Name, t: Name, f: Field)
    requires t in schema && f in schema[t] && Scanned(f)
    requires f.message.value == target || (!WellKnown(f.message.value) && Carries(schema, target, f.message.value))
    ensures Carries(schema, target, t)
  {
    var u := f.message.value;
    assert Refers(schema, t, u);
    if u == target {
      assert CarryPath(schema, target, [t, u]);
    } else {
      var path :| CarryPath(schema, target, path) && path[0] == u;
      var longer := [t] + path;
      forall i | 0 <= i < |longer| - 1 ensures Refers(schema, longer[i], longer[i + 1]) {
        assert i > 0 ==> Refers(schema, path[i - 1], path[i]);
      }
      assert CarryPath(schema, target, longer);
    }
  }

  lemma CarryField(schema: Schema, target: Name, t: Name) returns (f: Field)
    requires Carries(schema, target, t)
    ensures t in schema && f in schema[t] && Scanned(f)
    ensures f.message.value == target || (!WellKnown(f.message.value) && Carries(schema, target, f.message.value))
  {
    var path :| CarryPath(schema, target, path) && path[0] == t;
    assert Refers(schema, path[0], path[1]);
    f :| f in schema[t] && Scanned(f) && f.message.value == path[1];
    if |path| > 2 {
      var rest := path[1..];
      forall i | 0 <= i < |rest| - 1 ensures Refers(schema, rest[i], rest[i + 1]) {
        assert Refers(schema, path[i + 1], path[i + 2]);
      }
      assert CarryPath(schema, target, rest);
    }
  }

  /** A field through which its message's type carries the target. */
  ghost predicate Leads(schema: Schema, target: Name, f: Field) {
    CarriedBy(schema, target, f, f.message.Some? && Carries(schema, target, f.message.value))
  }

  lemma CarriesMeansLeads(schema: Schema, target: Name, t: Name)
    ensures Carries(schema, target, t) <==> t in schema && exists f :: f in schema[t] && Leads(schema, target, f)
  {
    if Carries(schema, target, t) {
      var f := CarryField(schema, target, t);
      assert Leads(schema, target, f);
    }
    if t in schema && exists f :: f in schema[t] && Leads(schema, target, f) {
      var f :| f in schema[t] && Leads(schema, target, f);
      CarryStep(schema, target, t, f);
    }
  }

  // When the type scan ends. It visits field types in order and stops at the first field that leads to the target.

  /** The scan of one type, given up after `fuel` nested types. */
  function Scan(schema: Schema, target: Name, t: Name, fuel: nat): Option<bool>
    requires Complete(schema) && t in schema
    decreases fuel, 0
  {
    if fuel == 0 then None else ScanFields(schema, target, schema[t], fuel - 1)
  }

  predicate FieldsKnown(schema: Schema, fields: seq<Field>) {
    forall f :: f in fields && Scanned(f) ==> f.message.value in schema
  }

  function ScanFields(schema: Schema, target: Name, fields: seq<Field>, fuel: nat): Option<bool>
    requires Complete(schema) && FieldsKnown(schema, fields)
    decreases fuel, |fields| + 1
  {
    if fields == [] then Some(false)
    else if Scanned(fields[0]) && fields[0].message.value == target then Some(true)
    else if !Descends(fields[0], target) then ScanFields(schema, target, fields[1..], fuel)
    else
      var res := Scan(schema, target, fields[0].message.value, fuel);
      if res == Some(false) then ScanFields(schema, target, fields[1..], fuel) else res
  }

  /** One field of a scan. */
  lemma ScanNext(schema: Schema, target: Name, fields: seq<Field>, i: nat, fuel: nat)
    requires Complete(schema) && FieldsKnown(schema, fields) && i < |fields|
    ensures FieldsKnown(schema, fields[i..]) && FieldsKnown(schema, fields[i + 1..])
    ensures ScanFields(schema, target, fields[i..], fuel) ==
            if Scanned(fields[i]) && fields[i].message.value == target then Some(true)
            else if !Descends(fields[i], target) then ScanFields(schema, target, fields[i + 1..], fuel)
            else
              var res := Scan(schema, target, fields[i].message.value, fuel);
              if res == Some(false) then ScanFields(schema, target, fields[i + 1..], fuel) else res
  {
    assert fields[i..][0] == fields[i] && fields[i..][1..] == fields[i + 1..];
  }

  /** The type scan ends. */
  ghost predicate Ends(schema: Schema, target: Name, t: Name) {
    Complete(schema) && t in schema && exists fuel :: Scan(schema, target, t, fuel).Some?
  }

  lemma {:induction false} ScanIsRight(schema: Schema, target: Name, t: Name, fuel: nat)
    requires Complete(schema) && t in schema && Scan(schema, target, t, fuel).Some?
    ensures Scan(schema, target, t, fuel).value <==> Carries(schema, target, t)
    decreases fuel, 0
  {
    hide Carries;
    ScanFieldsIsRight(schema, target, schema[t], fuel - 1);
    CarriesMeansLeads(schema, target, t);
  }

  lemma {:induction false} ScanFieldsIsRight(schema: Schema, target: Name, fields: seq<Field>, fuel: nat)
    requires Complete(schema) && FieldsKnown(schema, fields) && ScanFields(schema, target, fields, fuel).Some?
    ensures ScanFields(schema, target, fields, fuel).value <==> exists f :: f in fields && Leads(schema, target, f)
    decreases fuel, |fields| + 1
  {
    hide Carries;
    if fields == [] {
    } else {
      assert fields == [fields[0]] + fields[1..];
      if Descends(fields[0], target) {
        ScanIsRight(schema, target, fields[0].message.value, fuel);
      }
      if !Leads(schema, target, fields[0]) {
        ScanFieldsIsRight(schema, target, fields[1..], fuel);
      }
    }
  }

  /** The i-th field is reached by the scan of its message, and descended into. */
  ghost predicate Reached(schema: Schema, target: Name, fields: seq<Field>, i: int) {
    0 <= i < |fields| && Descends(fields[i], target) && forall j :: 0 <= j < i ==> !Leads(schema, target, fields[j])
  }

  ghost predicate Visits(schema: Schema, target: Name, t: Name, u: Name) {
    t in schema && exists i :: Reached(schema, target, schema[t], i) && schema[t][i].message.value == u
  }

  ghost predicate VisitPath(schema: Schema, target: Name, path: seq<Name>) {
    path != [] && path[0] in schema && forall i :: 0 <= i < |path| - 1 ==> Visits(schema, target, path[i], path[i + 1])
  }

  ghost predicate Repeats(path: seq<Name>) {
    exists i, j :: 0 <= i < j < |path| && path[i] == path[j]
  }

  /** The visits come back to a type they are still busy with. */
  ghost predicate Loops(schema: Schema, target: Name, t: Name) {
    exists path :: VisitPath(schema, target, path) && path[0] == t && Repeats(path)
  }

  /** A scan that ends has ended for every type it visits, with less fuel. */
  lemma {:induction false} VisitedEnds(schema: Schema, target: Name, t: Name, u: Name, fuel: nat)
    requires Complete(schema) && t in schema && Scan(schema, target, t, fuel).Some? && Visits(schema, target, t, u)
    ensures fuel > 0 && u in schema && Scan(schema, target, u, fuel - 1).Some?
  {
    var i :| Reached(schema, target, schema[t], i) && schema[t][i].message.value == u;
    assert schema[t][i] in schema[t];
    ReachedEnds(schema, target, schema[t], i, fuel - 1);
  }

  lemma {:induction false} ReachedEnds(schema: Schema, target: Name, fields: seq<Field>, i: int, fuel: nat)
    requires Complete(schema) && FieldsKnown(schema, fields) && ScanFields(schema, target, fields, fuel).Some?
    requires Reached(schema, target, fields, i)
    ensures Scan(schema, target, fields[i].message.value, fuel).Some?
    decreases i
  {
    hide Carries;
    if i == 0 {
    } else {
      assert !Leads(schema, target, fields[0]);
      if Descends(fields[0], target) {
        ScanIsRight(schema, target, fields[0].message.value, fuel);
      }
      assert fields[1..][i - 1] == fields[i];
      forall j | 0 <= j < i - 1 ensures !Leads(schema, target, fields[1..][j]) {
        assert !Leads(schema, target, fields[j + 1]);
      }
      ReachedEnds(schema, target, fields[1..], i - 1, fuel);
    }
  }

  /** If every field the scan reaches ends, so does the scan. */
  lemma {:induction false} AllReachedEnd(schema: Schema, target: Name, fields: seq<Field>, fuel: nat)
    requires Complete(schema) && FieldsKnown(schema, fields)
    requires forall i :: Reached(schema, target, fields, i) ==> Scan(schema, target, fields[i].message.value, fuel).Some?
    ensures ScanFields(schema, target, fields, fuel).Some?
    decreases |fields|
  {
    hide Carries;
    if fields == [] {
    } else {
      if Descends(fields[0], target) {
        assert Reached(schema, target, fields, 0);
        ScanIsRight(schema, target, fields[0].message.value, fuel);
      }
      if !Leads(schema, target, fields[0]) {
        forall i | Reached(schema, target, fields[1..], i)
          ensures Scan(schema, target, fields[1..][i].message.value, fuel).Some?
        {
          forall j | 0 <= j < i + 1 ensures !Leads(schema, target, fields[j]) {
            assert j > 0 ==> !Leads(schema, target, fields[1..][j - 1]);
          }
          assert Reached(schema, target, fields, i + 1);
        }
        AllReachedEnd(schema, target, fields[1..], fuel);
      }
    }
  }

  lemma {:induction false} PathEnds(schema: Schema, target: Name, path: seq<Name>, fuel: nat, n: nat)
    requires Complete(schema) && VisitPath(schema, target, path) && n < |path|
    requires Scan(schema, target, path[0], fuel).Some?
    ensures n < fuel && path[n] in schema && Scan(schema, target, path[n], fuel - n).Some?
  {
    hide Scan, Visits;
    if n > 0 {
      PathEnds(schema, target, path, fuel, n - 1);
      assert Visits(schema, target, path[n - 1], path[n]);
      VisitedEnds(schema, target, path[n - 1], path[n], fuel - (n - 1));
      FuelNeeded(schema, target, path[n], fuel - n);
    } else {
      FuelNeeded(schema, target, path[0], fuel);
    }
  }

  lemma FuelNeeded(schema: Schema, target: Name, t: Name, fuel: nat)
    requires Complete(schema) && t in schema && Scan(schema, target, t, fuel).Some?
    ensures fuel > 0
  {
  }

  /** A type on a way back to itself never gets done: whatever fuel is enough, less would be. */
  lemma {:induction false} NoWayRound(schema: Schema, target: Name, path: seq<Name>, fuel: nat)
    requires Complete(schema) && VisitPath(schema, target, path) && |path| >= 2 && path[|path| - 1] == path[0]
    ensures Scan(schema, target, path[0], fuel).None?
    decreases fuel
  {
    hide Scan;
    if Scan(schema, target, path[0], fuel).Some? {
      PathEnds(schema, target, path, fuel, |path| - 1);
      NoWayRound(schema, target, path, fuel - (|path| - 1));
    }
  }

  lemma PathPart(schema: Schema, target: Name, path: seq<Name>, i: nat, j: nat)
    requires VisitPath(schema, target, path) && i < j <= |path| && path[i] in schema
    ensures VisitPath(schema, target, path[i..j])
  {
    hide Visits;
    forall k | 0 <= k < j - i - 1 ensures Visits(schema, target, path[i..j][k], path[i..j][k + 1]) {
      assert Visits(schema, target, path[i + k], path[i + k + 1]);
    }
  }

  lemma {:induction false} DistinctNames(path: seq<Name>, names: set<Name>)
    requires !Repeats(path) && forall i :: 0 <= i < |path| ==> path[i] in names
    ensures |path| <= |names|
  {
    if path == [] {
    } else {
      var last, front := path[|path| - 1], path[..|path| - 1];
      assert forall i :: 0 <= i < |front| ==> front[i] == path[i] && front[i] != last;
      DistinctNames(front, names - {last});
    }
  }

  lemma PathInSchema(schema: Schema, target: Name, path: seq<Name>, n: nat)
    requires Complete(schema) && VisitPath(schema, target, path) && n < |path|
    ensures path[n] in schema
  {
    if n > 0 {
      assert Visits(schema, target, path[n - 1], path[n]);
      var t := path[n - 1];
      var i :| Reached(schema, target, schema[t], i) && schema[t][i].message.value == path[n];
      assert schema[t][i] in schema[t];
    }
  }

  /** Without loops the scan ends: there are only so many types to nest. */
  lemma {:induction false} EndsFrom(schema: Schema, target: Name, path: seq<Name>)
    requires Complete(schema) && VisitPath(schema, target, path) && !Loops(schema, target, path[0])
    ensures |path| <= |schema.Keys| && path[|path| - 1] in schema
    ensures Scan(schema, target, path[|path| - 1], |schema.Keys| - |path| + 1).Some?
    decreases |schema.Keys| - |path|
  {
    hide Visits, Carries, Leads;
    var t := path[|path| - 1];
    forall n | 0 <= n < |path| ensures path[n] in schema {
      PathInSchema(schema, target, path, n);
    }
    assert !Repeats(path);
    DistinctNames(path, schema.Keys);
    var fuel := |schema.Keys| - |path|;
    forall i | Reached(schema, target, schema[t], i)
      ensures schema[t][i] in schema[t] && Scan(schema, target, schema[t][i].message.value, fuel).Some?
    {
      ReachedVisits(schema, target, t, i);
      var u := schema[t][i].message.value;
      var longer := path + [u];
      forall k | 0 <= k < |longer| - 1 ensures Visits(schema, target, longer[k], longer[k + 1]) {
        assert k < |path| - 1 ==> Visits(schema, target, path[k], path[k + 1]);
      }
      EndsFrom(schema, target, longer);
    }
    AllReachedEnd(schema, target, schema[t], fuel);
  }

  lemma ReachedVisits(schema: Schema, target: Name, t: Name, i: int)
    requires t in schema && Reached(schema, target, schema[t], i)
    ensures Visits(schema, target, t, schema[t][i].message.value)
  {
  }

  /** Exactly when the scan of a type ends: its visits never come back to a type still being scanned. */
  lemma EndsExactly(schema: Schema, target: Name, t: Name)
    requires Complete(schema) && t in schema
    ensures Ends(schema, target, t) <==> !Loops(schema, target, t)
  {
    hide Scan, Visits;
    if Ends(schema, target, t) {
      var fuel :| Scan(schema, target, t, fuel).Some?;
      forall path | VisitPath(schema, target, path) && path[0] == t ensures !Repeats(path) {
        NoRepeat(schema, target, path, fuel);
      }
    }
    if !Loops(schema, target, t) {
      assert VisitPath(schema, target, [t]);
      EndsFrom(schema, target, [t]);
    }
  }

  lemma NoRepeat(schema: Schema, target: Name, path: seq<Name>, fuel: nat)
    requires Complete(schema) && VisitPath(schema, target, path) && Scan(schema, target, path[0], fuel).Some?
    ensures !Repeats(path)
  {
    hide Scan, Visits;
    if Repeats(path) {
      var i, j :| 0 <= i < j < |path| && path[i] == path[j];
      PathEnds(schema, target, path, fuel, i);
      PathPart(schema, target, path, i, j + 1);
      NoWayRound(schema, target, path[i..j + 1], fuel - i);
    }
  }

  /** The instances agree with the schema. */
  predicate Typed(schema: Schema, m: Message)
    decreases m
  {
    && m.name in schema && |m.fields| == |schema[m.name]|
    && forall i :: 0 <= i < |m.fields| ==> TypedItems(schema, schema[m.name][i], m.fields[i])
  }

  predicate TypedItems(schema: Schema, f: Field, value: Items)
    decreases value
  {
    && (Scanned(f) && !f.isList ==> |value.items| <= 1)
    && (Scanned(f) ==> forall k :: 0 <= k < |value.items| ==>
          value.items[k].name == f.message.value && Typed(schema, value.items[k]))
  }

  // The unpruned traversal: every field in order, every item in order, stopping at targets.

  function Full(schema: Schema, target: Name, m: Message): seq<Cell>
    decreases m, |m.fields| + 1
  {
    FullUpTo(schema, target, m, |m.fields|)
  }

  function FullUpTo(schema: Schema, target: Name, m: Message, n: nat): seq<Cell>
    requires n <= |m.fields|
    decreases m, n
  {
    if n == 0 then []
    else FullUpTo(schema, target, m, n - 1) + FullField(schema, target, m, n - 1)
  }

  function FullField(schema: Schema, target: Name, m: Message, i: nat): seq<Cell>
    requires i < |m.fields|
    decreases m, i
  {
    if m.name in schema && i < |schema[m.name]| && Scanned(schema[m.name][i]) then
      if schema[m.name][i].message.value == target then Cells(m.fields[i].items)
      else FullItems(schema, target, m.fields[i].items, |m.fields[i].items|)
    else []
  }

  function FullItems(schema: Schema, target: Name, items: seq<Message>, n: nat): seq<Cell>
    requires n <= |items|
    decreases items, n
  {
    if n == 0 then []
    else FullItems(schema, target, items, n - 1) + Full(schema, target, items[n - 1])
  }

  function Cells(items: seq<Message>): seq<Cell> {
    seq(|items|, k requires 0 <= k < |items| => items[k].cell)
  }

  /** The k-th message in the i-th field, which is looked into. */
  predicate InField(schema: Schema, m: Message, i: int, k: int) {
    && m.name in schema && 0 <= i < |m.fields| && i < |schema[m.name]| && Scanned(schema[m.name][i])
    && 0 <= k < |m.fields[i].items|
  }

  /** A secret lies below a message: in a field of its type, or below a message in some other scanned field. */
  ghost predicate Below(schema: Schema, target: Name, m: Message, c: Cell)
    decreases m
  {
    exists i, k :: InField(schema, m, i, k)
                   && if schema[m.name][i].message.value == target then m.fields[i].items[k].cell == c
                      else Below(schema, target, m.fields[i].items[k], c)
  }

  /** The i-th field of a message holds the secret or leads to it. */
  ghost predicate BelowField(schema: Schema, target: Name, m: Message, i: int, c: Cell) {
    exists k :: InField(schema, m, i, k)
                && if schema[m.name][i].message.value == target then m.fields[i].items[k].cell == c
                   else Below(schema, target, m.fields[i].items[k], c)
  }

  lemma BelowSomeField(schema: Schema, target: Name, m: Message, c: Cell)
    ensures Below(schema, target, m, c) <==> exists i :: 0 <= i < |m.fields| && BelowField(schema, target, m, i, c)
  {
    if Below(schema, target, m, c) {
      var i, k :| InField(schema, m, i, k)
                  && if schema[m.name][i].message.value == target then m.fields[i].items[k].cell == c
                     else Below(schema, target, m.fields[i].items[k], c);
      assert BelowField(schema, target, m, i, c);
    }
  }

  lemma {:induction false} ItemsHold(schema: Schema, target: Name, items: seq<Message>, n: nat, c: Cell)
    requires n <= |items|
    ensures c in FullItems(schema, target, items, n) <==> exists k :: 0 <= k < n && c in Full(schema, target, items[k])
    decreases n
  {
    if n == 0 {
    } else {
      ItemsHold(schema, target, items, n - 1, c);
    }
  }

  ghost predicate FieldHas(schema: Schema, target: Name, m: Message, i: int, c: Cell) {
    0 <= i < |m.fields| && c in FullField(schema, target, m, i)
  }

  lemma {:induction false} FieldsHold(schema: Schema, target: Name, m: Message, n: nat, c: Cell)
    requires n <= |m.fields|
    ensures c in FullUpTo(schema, target, m, n) <==> exists i :: 0 <= i < n && FieldHas(schema, target, m, i, c)
    decreases n
  {
    if n == 0 {
    } else {
      FieldsHold(schema, target, m, n - 1, c);
      var before, last := FullUpTo(schema, target, m, n - 1), FullField(schema, target, m, n - 1);
      assert FullUpTo(schema, target, m, n) == before + last;
      assert FieldHas(schema, target, m, n - 1, c) <==> c in last;
      hide FieldHas, FullUpTo;
    }
  }

  lemma {:induction false} FieldHolds(schema: Schema, target: Name, m: Message, i: nat, c: Cell)
    requires i < |m.fields|
    ensures FieldHas(schema, target, m, i, c) <==> BelowField(schema, target, m, i, c)
    decreases m, 0
  {
    if m.name in schema && i < |schema[m.name]| && Scanned(schema[m.name][i]) {
      var items := m.fields[i].items;
      assert forall k :: 0 <= k < |items| ==> InField(schema, m, i, k);
      if schema[m.name][i].message.value == target {
        assert forall k :: 0 <= k < |items| ==> Cells(items)[k] == items[k].cell;
      } else {
        ItemsHold(schema, target, items, |items|, c);
        forall k | 0 <= k < |items| ensures c in Full(schema, target, items[k]) <==> Below(schema, target, items[k], c) {
          EverySecret(schema, target, items[k], c);
        }
      }
    }
  }

  /** The traversal finds every secret below a message, and nothing else. */
  lemma {:induction false} EverySecret(schema: Schema, target: Name, m: Message, c: Cell)
    ensures c in Full(schema, target, m) <==> Below(schema, target, m, c)
    decreases m, 1
  {
    FieldsHold(schema, target, m, |m.fields|, c);
    forall i | 0 <= i < |m.fields| ensures FieldHas(schema, target, m, i, c) <==> BelowField(schema, target, m, i, c) {
      FieldHolds(schema, target, m, i, c);
    }
    BelowSomeField(schema, target, m, c);
    hide Below, BelowField, FieldHas;
  }

  /** No message of a well-known type can hold the target. */
  ghost predicate WellKnownIsFree(schema: Schema, target: Name) {
    forall t :: WellKnown(t) ==> !Carries(schema, target, t)
  }

  /** Pruning loses nothing: where there is something to collect, the type carries the target. */
  lemma {:induction false} FoundMeansCarried(schema: Schema, target: Name, m: Message)
    requires Typed(schema, m) && WellKnownIsFree(schema, target)
    ensures Full(schema, target, m) != [] ==> Carries(schema, target, m.name)
    decreases m, |m.fields| + 1
  {
    FoundInFields(schema, target, m, |m.fields|);
  }

  lemma {:induction false} FoundInFields(schema: Schema, target: Name, m: Message, n: nat)
    requires Typed(schema, m) && WellKnownIsFree(schema, target) && n <= |m.fields|
    ensures FullUpTo(schema, target, m, n) != [] ==> Carries(schema, target, m.name)
    decreases m, n
  {
    if n == 0 {
    } else {
      FoundInFields(schema, target, m, n - 1);
      FoundInField(schema, target, m, n - 1);
      hide Carries, FullField;
      assert FullField(schema, target, m, n - 1) == [] ==>
          FullUpTo(schema, target, m, n) == FullUpTo(schema, target, m, n - 1);
    }
  }

  lemma {:induction false} FoundInField(schema: Schema, target: Name, m: Message, i: nat)
    requires Typed(schema, m) && WellKnownIsFree(schema, target) && i < |m.fields|
    ensures FullField(schema, target, m, i) != [] ==> Carries(schema, target, m.name)
    decreases m, i
  {
    var f, value := schema[m.name][i], m.fields[i];
    assert TypedItems(schema, f, value);
    hide Carries;
    if Scanned(f) && f.message.value == target {
      CarryStep(schema, target, m.name, f);
    } else if Scanned(f) {
      FoundInItems(schema, target, f, value, |value.items|);
      if FullItems(schema, target, value.items, |value.items|) != [] {
        CarryStep(schema, target, m.name, f);
      }
    }
  }

  lemma {:induction false} FoundInItems(schema: Schema, target: Name, f: Field, value: Items, n: nat)
    requires Scanned(f) && TypedItems(schema, f, value) && WellKnownIsFree(schema, target) && n <= |value.items|
    ensures FullItems(schema, target, value.items, n) != [] ==>
              Carries(schema, target, f.message.value) && !WellKnown(f.message.value)
    decreases value, n
  {
    if n == 0 {
    } else {
      FoundInItems(schema, target, f, value, n - 1);
      FoundMeansCarried(schema, target, value.items[n - 1]);
    }
  }

  /** Every type scan the traversal of this message asks for ends. */
  ghost predicate Asks(schema: Schema, target: Name, m: Message)
    decreases m
  {
    && m.name in schema && |m.fields| == |schema[m.name]|
    && forall i :: 0 <= i < |m.fields| ==> AsksField(schema, target, schema[m.name][i], m.fields[i])
  }

  ghost predicate AsksField(schema: Schema, target: Name, f: Field, value: Items)
    decreases value
  {
    Scanned(f) && f.message.value != target && (f.isList || value.items != []) ==>
      && Ends(schema, target, f.message.value)
      && (Carries(schema, target, f.message.value) ==> forall k :: 0 <= k < |value.items| ==> Asks(schema, target, value.items[k]))
  }

  /** The same for a whole request: its own type is scanned first. */
  ghost predicate Collectable(schema: Schema, target: Name, root: Message) {
    && Typed(schema, root) && WellKnownIsFree(schema, target)
    && Ends(schema, target, root.name) && (Carries(schema, target, root.name) ==> Asks(schema, target, root))
  }

  /** The business handler. It may write any text of the request; `started` are the texts it started with, call by call. */
  class Handler {
    ghost var started: seq<seq<string>>

    constructor ()
      ensures started == []
    {
      started := [];
    }

    method Handle(ghost cells: seq<Cell>)
      modifies this, cells
      ensures started == old(started) + [old(Texts(cells))]
    {
      started := started + [Texts(cells)];
      modify cells;
    }
  }

  /** The collector: the memo shared by all requests, and the list being filled. */
  class Collector {
    const schema: Schema
    const target: Name
    var memo: map<Name, bool>
    var out: seq<Cell>

    constructor (schema: Schema, target: Name)
      requires Complete(schema)
      ensures this.schema == schema && this.target == target && Valid() && memo == map[]
    {
      this.schema, this.target := schema, target;
      memo, out := map[], [];
    }

    /** Every memo entry equals reachability between types. */
    ghost predicate Valid()
      reads this
    {
      && Complete(schema)
      && forall t :: t in memo ==> t in schema && (memo[t] <==> Carries(schema, target, t))
    }

    /** The memoised type scan, on exactly the types whose scan ends. */
    method ContainsSecretTarget(t: Name) returns (res: bool)
      requires Valid() && Ends(schema, target, t)
      modifies this`memo
      ensures Valid() && t in memo && forall u :: u in old(memo) ==> u in memo
      ensures res <==> Carries(schema, target, t)
    {
      ghost var fuel :| Scan(schema, target, t, fuel).Some?;
      res := ScanType(t, fuel);
    }

    method ScanType(t: Name, ghost fuel: nat) returns (res: bool)
      requires Valid() && t in schema && Scan(schema, target, t, fuel).Some?
      modifies this`memo
      ensures Valid() && t in memo && forall u :: u in old(memo) ==> u in memo
      ensures res <==> Carries(schema, target, t)
      decreases fuel
    {
      if t in memo {
        return memo[t];
      }
      ScanIsRight(schema, target, t, fuel);
      hide Carries;
      res := false;
      var fields, i := schema[t], 0;
      assert fields[0..] == fields;
      while i < |fields| && !res
        invariant 0 <= i <= |fields| && Valid() && forall u :: u in old(memo) ==> u in memo
        invariant res ==> Carries(schema, target, t)
        invariant !res ==> ScanFields(schema, target, fields[i..], fuel - 1) == Some(Carries(schema, target, t))
      {
        var f := fields[i];
        ScanNext(schema, target, fields, i, fuel - 1);
        hide ScanFields, Scan;
        if Scanned(f) {
          if f.message.value == target {
            res := true;
          } else if !WellKnown(f.message.value) {
            ScanIsRight(schema, target, f.message.value, fuel - 1);
            res := ScanType(f.message.value, fuel - 1);
          }
          if res {
            CarryStep(schema, target, t, f);
          }
        }
        i := i + 1;
      }
      memo := memo[t := res];
    }

    /** The pruned traversal appends exactly what the unpruned one finds, in the same order. */
    method AppendSecretMessages(m: Message)
      requires Valid() && Typed(schema, m) && WellKnownIsFree(schema, target) && Asks(schema, target, m)
      modifies this
      ensures Valid() && out == old(out) + Full(schema, target, m)
      decreases m
    {
      var fields, i := schema[m.name], 0;
      while i < |fields|
        invariant 0 <= i <= |fields| && Valid()
        invariant out == old(out) + FullUpTo(schema, target, m, i)
      {
        AppendField(m, i);
        i := i + 1;
      }
    }

    method AppendField(m: Message, i: nat)
      requires Valid() && Typed(schema, m) && WellKnownIsFree(schema, target) && Asks(schema, target, m) && i < |m.fields|
      modifies this
      ensures Valid() && out == old(out) + FullField(schema, target, m, i)
      decreases m, 0
    {
      var fd, value := schema[m.name][i], m.fields[i];
      assert TypedItems(schema, fd, value) && AsksField(schema, target, fd, value);
      if !Scanned(fd) {
        return;
      }
      if fd.message.value == target {
        if fd.isList {
          out := out + Cells(value.items);
        } else if value.items != [] {
          out := out + [value.items[0].cell];
          assert Cells(value.items) == [value.items[0].cell];
        }
        return;
      }
      hide Carries, Ends;
      if fd.isList || value.items != [] {
        var carries := ContainsSecretTarget(fd.message.value);
        if carries {
          AppendItems(fd, value);
        } else {
          FoundInItems(schema, target, fd, value, |value.items|);
        }
      }
    }

    method AppendItems(fd: Field, value: Items)
      requires Valid() && Scanned(fd) && TypedItems(schema, fd, value) && WellKnownIsFree(schema, target)
      requires forall k :: 0 <= k < |value.items| ==> Asks(schema, target, value.items[k])
      modifies this
      ensures Valid() && out == old(out) + FullItems(schema, target, value.items, |value.items|)
      decreases value, 0
    {
      var j := 0;
      while j < |value.items|
        invariant 0 <= j <= |value.items| && Valid()
        invariant out == old(out) + FullItems(schema, target, value.items, j)
      {
        AppendSecretMessages(value.items[j]);
        j := j + 1;
      }
    }

    method CollectSecretMessages(root: Message) returns (targets: seq<Cell>)
      requires Valid() && Collectable(schema, target, root)
      modifies this
      ensures Valid() && targets == Full(schema, target, root)
    {
      var carries := ContainsSecretTarget(root.name);
      if !carries {
        FoundMeansCarried(schema, target, root);
        return [];
      }
      out := [];
      AppendSecretMessages(root);
      targets := out;
    }

    /** Decrypts every secret of a request, or leaves all of them alone. */
    method DecryptMessage(req: Message, open: seq<string> -> Option<seq<string>>) returns (ok: bool)
      requires Valid() && Collectable(schema, target, req) && Lengthwise(open)
      modifies this, Full(schema, target, req)
      ensures Valid()
      ensures var targets := Full(schema, target, req);
              var plain := open(old(Texts(targets)));
              && ok == (targets == [] || plain.Some?)
              && (targets != [] && plain.Some? ==>
                    forall k :: LastOf(targets, |targets|, k) ==> targets[k].text == plain.value[k])
      ensures !ok ==> Texts(Full(schema, target, req)) == old(Texts(Full(schema, target, req)))
    {
      ghost var before := Texts(Full(schema, target, req));
      var targets := CollectSecretMessages(req);
      assert Texts(targets) == before;
      if targets == [] {
        return true;
      }
      var plain := open(Texts(targets));
      if plain.None? {
        return false;
      }
      assert |plain.value| == |targets|;
      var i := 0;
      while i < |targets|
        invariant 0 <= i <= |targets| && Valid()
        invariant forall k :: LastOf(targets, i, k) ==> targets[k].text == plain.value[k]
      {
        targets[i].text := plain.value[i];
        i := i + 1;
      }
      ok := true;
    }

    /** Clears every secret of a request. */
    method ClearMessage(req: Message)
      requires Valid() && Collectable(schema, target, req)
      modifies this, Full(schema, target, req)
      ensures Valid()
      ensures forall c :: c in Full(schema, target, req) ==> c.text == ""
    {
      var targets := CollectSecretMessages(req);
      var i := 0;
      while i < |targets|
        invariant 0 <= i <= |targets| && Valid()
        invariant forall k :: 0 <= k < i ==> targets[k].text == ""
      {
        targets[i].text := "";
        i := i + 1;
      }
    }

    /**
     One request. The handler runs exactly if there is nothing to decrypt or everything decrypts, and it starts
     with every secret decrypted; whatever it does to texts, none of them is left when the request is over.
     */
    method Serve(req: Message, open: seq<string> -> Option<seq<string>>, handler: Handler) returns (handled: bool)
      requires Valid() && Collectable(schema, target, req) && Lengthwise(open)
      modifies this, handler, Full(schema, target, req)
      ensures Valid()
      ensures var targets := Full(schema, target, req);
              var plain := open(old(Texts(targets)));
              && (handled <==> targets == [] || plain.Some?)
              && |handler.started| == |old(handler.started)| + (if handled then 1 else 0)
              && old(handler.started) <= handler.started
              && (handled && targets != [] ==>
                    var start := handler.started[|handler.started| - 1];
                    |start| == |targets| && forall k :: LastOf(targets, |targets|, k) ==> start[k] == plain.value[k])
      ensures handled ==> forall c :: c in Full(schema, target, req) ==> c.text == ""
      ensures !handled ==> Texts(Full(schema, target, req)) == old(Texts(Full(schema, target, req)))
    {
      handled := DecryptMessage(req, open);
      if !handled {
        return;
      }
      handler.Handle(Full(schema, target, req));
      ClearMessage(req);
    }
  }

  /** Opening gives one plaintext for each ciphertext. */
  ghost predicate Lengthwise(open: seq<string> -> Option<seq<string>>) {
    forall s :: open(s).Some? ==> |open(s).value| == |s|
  }

  /** Of the first n cells the k-th is the last occurrence; in a tree without sharing every one is. */
  predicate LastOf(cells: seq<Cell>, n: int, k: int) {
    0 <= k < n <= |cells| && forall j :: k < j < n ==> cells[j] != cells[k]
  }

  /** Every cell has a last occurrence. */
  lemma {:induction false} LastExists(cells: seq<Cell>, n: nat, c: Cell) returns (k: nat)
    requires n <= |cells| && c in cells[..n]
    ensures LastOf(cells, n, k) && cells[k] == c
  {
    if cells[n - 1] == c {
      k := n - 1;
    } else {
      assert c in cells[..n - 1];
      k := LastExists(cells, n - 1, c);
    }
  }

  function Texts(cells: seq<Cell>): seq<string>
    reads cells
  {
    seq(|cells|, k requires 0 <= k < |cells| reads cells => cells[k].text)
  }

  // The order of the fields decides.

  const RECURSIVE_AFTER: Schema := map["T" := [], "M" := [Field(Some("T"), false, false), Field(Some("M"), false, false)]]
  const RECURSIVE_BEFORE: Schema := map["T" := [], "M" := [Field(Some("M"), false, false), Field(Some("T"), false, false)]]

  /** A type that refers to itself behind its secret is scanned; with the two fields swapped the scan never ends. */
  lemma OrderDecides()
    ensures Ends(RECURSIVE_AFTER, "T", "M") && !Ends(RECURSIVE_BEFORE, "T", "M")
  {
    assert Scan(RECURSIVE_AFTER, "T", "M", 1) == Some(true);
    var fields := RECURSIVE_BEFORE["M"];
    assert Reached(RECURSIVE_BEFORE, "T", fields, 0) && fields[0].message.value == "M";
    var path := ["M", "M"];
    assert Visits(RECURSIVE_BEFORE, "T", "M", "M");
    assert VisitPath(RECURSIVE_BEFORE, "T", path);
    assert path[0] == path[1];
    EndsExactly(RECURSIVE_BEFORE, "T", "M");
  }

  const THROUGH_WELL_KNOWN: Schema :=
    map["M" := [Field(Some("google.protobuf.Any"), false, false)], "google.protobuf.Any" := [Field(Some("T"), false, false)],
        "N" := [Field(Some("google.type.Any"), false, false)], "google.type.Any" := [Field(Some("T"), false, false)], "T" := []]

  /** Types of `google.protobuf` are not looked into, other types of `google` are. */
  lemma WellKnownIsOpaque()
    ensures !Carries(THROUGH_WELL_KNOWN, "T", "M") && Carries(THROUGH_WELL_KNOWN, "T", "N")
  {
    var schema := THROUGH_WELL_KNOWN;
    assert "google.protobuf.Any"[..16] == "google.protobuf.";
    assert WellKnown("google.protobuf.Any") && "google.type.Any"[7] == 't';
    assert !WellKnown("google.type.Any");
    if Carries(schema, "T", "M") {
      var f := CarryField(schema, "T", "M");
    }
    assert CarryPath(schema, "T", ["N", "google.type.Any", "T"]) by {
      assert Refers(schema, "N", "google.type.Any") by { assert schema["N"][0] in schema["N"]; }
      assert Refers(schema, "google.type.Any", "T") by { assert schema["google.type.Any"][0] in schema["google.type.Any"]; }
    }
  }

  /** The smallest request with a secret: one singular field of the secret's type, set. */
  lemma OneSecret(root: Cell, secret: Cell)
    ensures var schema := map["T" := [], "M" := [Field(Some("T"), false, false)]];
            var m := Message("M", root, [Items([Message("T", secret, [])])]);
            Collectable(schema, "T", m) && Full(schema, "T", m) == [secret]
  {
    var schema := map["T" := [], "M" := [Field(Some("T"), false, false)]];
    var m := Message("M", root, [Items([Message("T", secret, [])])]);
    assert Scan(schema, "T", "M", 1) == Some(true);
    forall t | WellKnown(t) ensures !Carries(schema, "T", t) {
      assert t[0] == 'g';
      if Carries(schema, "T", t) { var f := CarryField(schema, "T", t); }
    }
    assert FullField(schema, "T", m, 0) == [secret];
    assert FullUpTo(schema, "T", m, 1) == FullUpTo(schema, "T", m, 0) + [secret];
    assert TypedItems(schema, schema["M"][0], m.fields[0]);
    assert AsksField(schema, "T", schema["M"][0], m.fields[0]);
  }
}
