/**
 Recursion detection on message types (cmd/protoc-gen-go-agent-tool/agent_tool.go): a depth-first
 search over message fields with one shared set of messages on the stack and one of finished ones.
 */
module RecursiveMessages {
  import opened Wrappers

  type Ident = string

  /** The message fields of every message type; a scalar field has no message. */
  type Schema = map<Ident, seq<Option<Ident>>>

  /** Every referenced message type is described. */
  predicate Complete(schema: Schema) {
    forall m, f :: m in schema && f in schema[m] && f.Some? ==> f.value in schema
  }

  predicate Edge(schema: Schema, a: Ident, b: Ident) {
    a in schema && Some(b) in schema[a]
  }

  predicate IsPath(schema: Schema, path: seq<Ident>) {
    path != [] && forall i :: 0 <= i < |path| - 1 ==> Edge(schema, path[i], path[i + 1])
  }

  predicate Connects(schema: Schema, path: seq<Ident>, a: Ident, b: Ident) {
    IsPath(schema, path) && path[0] == a && path[|path| - 1] == b
  }

  ghost predicate Reaches(schema: Schema, a: Ident, b: Ident) {
    exists path :: Connects(schema, path, a, b)
  }

  /** A way from a to b along at least one reference. */
  ghost predicate StrictlyReaches(schema: Schema, a: Ident, b: Ident) {
    exists path :: Connects(schema, path, a, b) && |path| >= 2
  }

  /** Some message reachable from `start` refers back to itself, directly or through others. */
  ghost predicate Recursive(schema: Schema, start: Ident) {
    exists m :: Reaches(schema, start, m) && StrictlyReaches(schema, m, m)
  }

  lemma StepIsStrict(schema: Schema, a: Ident, b: Ident)
    requires Edge(schema, a, b)
    ensures StrictlyReaches(schema, a, b)
  {
    assert Connects(schema, [a, b], a, b);
  }

  lemma ExtendStrict(schema: Schema, a: Ident, b: Ident, c: Ident)
    requires StrictlyReaches(schema, a, b) && Edge(schema, b, c)
    ensures StrictlyReaches(schema, a, c)
  {
    var path :| Connects(schema, path, a, b) && |path| >= 2;
    assert Connects(schema, path + [c], a, c);
  }

  lemma SelfReach(schema: Schema, a: Ident)
    ensures Reaches(schema, a, a)
  {
    assert Connects(schema, [a], a, a);
  }

  /** A child's recursion is its parent's. */
  lemma RecursiveParent(schema: Schema, parent: Ident, child: Ident)
    requires Edge(schema, parent, child) && Recursive(schema, child)
    ensures Recursive(schema, parent)
  {
    var m :| Reaches(schema, child, m) && StrictlyReaches(schema, m, m);
    var path :| Connects(schema, path, child, m);
    assert Connects(schema, [parent] + path, parent, m);
  }

  /** A set closed under references, none of whose members is recursive. */
  ghost predicate Finished(schema: Schema, done: set<Ident>) {
    && (forall a, b :: a in done && Edge(schema, a, b) ==> b in done)
    && (forall a :: a in done ==> !Recursive(schema, a))
  }

  lemma {:induction false} PathStaysInside(schema: Schema, done: set<Ident>, path: seq<Ident>)
    requires Finished(schema, done) && IsPath(schema, path) && path[0] in done
    ensures path[|path| - 1] in done
    decreases |path|
  {
    if |path| <= 1 {
    } else {
      assert Edge(schema, path[0], path[1]);
      var rest := path[1..];
      forall i | 0 <= i < |rest| - 1 ensures Edge(schema, rest[i], rest[i + 1]) {
        assert Edge(schema, path[i + 1], path[i + 2]);
      }
      PathStaysInside(schema, done, rest);
    }
  }

  lemma PathTail(schema: Schema, path: seq<Ident>)
    requires IsPath(schema, path) && |path| >= 2
    ensures Edge(schema, path[0], path[1]) && IsPath(schema, path[1..])
  {
    forall i | 0 <= i < |path| - 2 ensures Edge(schema, path[1..][i], path[1..][i + 1]) {
      assert Edge(schema, path[i + 1], path[i + 2]);
    }
  }

  lemma NoLoopBeyond(schema: Schema, done: set<Ident>, a: Ident, v: Ident)
    requires Finished(schema, done) && a in done && Reaches(schema, a, v)
    ensures !StrictlyReaches(schema, v, v)
  {
    assert !Recursive(schema, a);
  }

  /** A message all of whose references are finished, and that is not itself finished, is not recursive. */
  lemma FinishOne(schema: Schema, done: set<Ident>, m: Ident)
    requires Finished(schema, done) && m !in done
    requires forall b :: Edge(schema, m, b) ==> b in done
    ensures !Recursive(schema, m) && Finished(schema, done + {m})
  {
    NoWayBack(schema, done, m);
    forall v | Reaches(schema, m, v) ensures !StrictlyReaches(schema, v, v) {
      var path :| Connects(schema, path, m, v);
      if |path| >= 2 {
        PathTail(schema, path);
        assert Connects(schema, path[1..], path[1], v);
        NoLoopBeyond(schema, done, path[1], v);
      }
    }
  }

  lemma NoWayBack(schema: Schema, done: set<Ident>, m: Ident)
    requires Finished(schema, done) && m !in done
    requires forall b :: Edge(schema, m, b) ==> b in done
    ensures !StrictlyReaches(schema, m, m)
  {
    forall path | IsPath(schema, path) && path[0] == m && |path| >= 2 ensures path[|path| - 1] in done {
      PathTail(schema, path);
      PathStaysInside(schema, done, path[1..]);
    }
  }

  /** The two maps the search shares between all its calls. */
  class Search {
    const schema: Schema
    var visiting: set<Ident>
    var visited: set<Ident>

    constructor (schema: Schema)
      ensures this.schema == schema && visiting == {} && visited == {}
    {
      this.schema, visiting, visited := schema, {}, {};
    }

    /** The stack holds described messages, each of which leads on to `m`; nothing on it is finished. */
    ghost predicate Ready(m: Ident)
      reads this
    {
      && Complete(schema) && m in schema
      && visiting <= schema.Keys && visiting !! visited
      && Finished(schema, visited)
      && forall u :: u in visiting ==> StrictlyReaches(schema, u, m)
    }

    /** Everything on the stack leads on to the next child. */
    lemma StackReaches(stack: set<Ident>, m: Ident, child: Ident)
      requires Edge(schema, m, child)
      requires forall u :: u in stack && u != m ==> StrictlyReaches(schema, u, m)
      ensures forall u :: u in stack ==> StrictlyReaches(schema, u, child)
    {
      StepIsStrict(schema, m, child);
      forall u | u in stack && u != m ensures StrictlyReaches(schema, u, child) {
        ExtendStrict(schema, u, m, child);
      }
    }

    /** The search below one message: exact, with the stack restored on every return. */
    method InStack(message: Option<Ident>) returns (found: bool)
      requires message.Some? ==> Ready(message.value)
      modifies this
      ensures visiting == old(visiting) && old(visited) <= visited
      ensures found <==> message.Some? && Recursive(schema, message.value)
      ensures message.Some? ==> Finished(schema, visited) && visiting !! visited
      ensures message.Some? && !found ==> message.value in visited
      ensures message.None? ==> visited == old(visited)
      decreases |schema.Keys - visiting|, 0
    {
      if message.None? {
        return false;
      }
      var m := message.value;
      if m in visiting {
        SelfReach(schema, m);
        return true;
      }
      if m in visited {
        return false;
      }
      hide StrictlyReaches, Recursive, Finished;
      visiting := visiting + {m};
      assert schema.Keys - visiting == schema.Keys - old(visiting) - {m};
      found := InFields(m);
      if found {
        visiting := visiting - {m};
        return;
      }
      FinishOne(schema, visited, m);
      visiting := visiting - {m};
      visited := visited + {m};
    }

    /** The loop over the fields of a message that is on the stack. */
    method InFields(m: Ident) returns (found: bool)
      requires Complete(schema) && m in visiting && visiting <= schema.Keys && visiting !! visited
      requires Finished(schema, visited)
      requires forall u :: u in visiting && u != m ==> StrictlyReaches(schema, u, m)
      modifies this
      ensures visiting == old(visiting) && old(visited) <= visited
      ensures Finished(schema, visited) && visiting !! visited
      ensures found ==> Recursive(schema, m)
      ensures !found ==> forall b :: Edge(schema, m, b) ==> b in visited
      decreases |schema.Keys - visiting|, 1
    {
      hide StrictlyReaches, Recursive, Finished;
      var fields, i := schema[m], 0;
      while i < |fields|
        invariant 0 <= i <= |fields|
        invariant visiting == old(visiting) && old(visited) <= visited
        invariant Finished(schema, visited) && visiting !! visited
        invariant forall j :: 0 <= j < i && fields[j].Some? ==> fields[j].value in visited
      {
        if fields[i].Some? {
          StackReaches(visiting, m, fields[i].value);
        }
        found := InStack(fields[i]);
        if found {
          RecursiveParent(schema, m, fields[i].value);
          return;
        }
        i := i + 1;
      }
      found := false;
    }
  }

  /** The detector: true if and only if some cycle of references is reachable from the message. */
  method HasRecursiveReference(schema: Schema, message: Option<Ident>) returns (recursive: bool)
    requires Complete(schema) && (message.Some? ==> message.value in schema)
    ensures recursive <==> message.Some? && Recursive(schema, message.value)
  {
    var search := new Search(schema);
    recursive := search.InStack(message);
  }
}
