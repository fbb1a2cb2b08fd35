/**
 Import aliases of one file (cmd/normalize-go-imports/main.go): the preferred alias of a package name, and
 the pass that makes all aliases of a file distinct.
 */
module UniqueNames {
  import opened Decimal

  /** The parts of an import this pass reads or writes. */
  datatype Import = Import(actual: string, oldName: string, newName: string)

  /** The names the language reserves or predeclares; none of them starts with an underscore. */
  predicate Reserved(words: set<string>) {
    forall w :: w in words ==> w != [] && w[0] != '_'
  }

  /** A reserved package name is given a leading underscore, once. */
  function Preferred(words: set<string>, actual: string): (name: string)
    requires Reserved(words)
    ensures name !in words
  {
    if actual != [] && actual[0] == '_' && actual[1..] in words then actual
    else if actual in words then "_" + actual
    else actual
  }

  lemma PreferredIsStable(words: set<string>, a: string)
    requires Reserved(words)
    ensures Preferred(words, Preferred(words, a)) == Preferred(words, a)
  {
    if a in words {
      assert ("_" + a)[1..] == a;
    }
  }

  /** The alias with a numeric suffix. */
  function Numbered(base: string, suffix: nat): string {
    base + "_" + Digits(suffix)
  }

  /** What a package is called by default: by its own name, or with one underscore before it if that is reserved. */
  lemma PreferredExactly(words: set<string>, actual: string)
    requires Reserved(words)
    ensures Preferred(words, actual) == if actual in words then "_" + actual else actual
  {
  }

  predicate DecimalOf(text: string, n: nat) {
    && text != "" && (forall i :: 0 <= i < |text| ==> '0' <= text[i] <= '9')
    && Value(text) == n && (n > 0 ==> text[0] != '0')
  }

  /** A numbered alias is the base, an underscore and the number in decimal. */
  lemma NumberedExactly(base: string, suffix: nat)
    ensures var name := Numbered(base, suffix);
            && base + "_" <= name
            && DecimalOf(name[|base| + 1..], suffix)
  {
    DigitsOnly(suffix);
    DigitsExactly(suffix);
    assert Numbered(base, suffix)[..|base| + 1] == base + "_";
    assert Numbered(base, suffix)[|base| + 1..] == Digits(suffix);
  }

  lemma NumberedApart(base: string, j: nat, k: nat)
    requires Numbered(base, j) == Numbered(base, k)
    ensures j == k
  {
    assert Numbered(base, j)[|base| + 1..] == Digits(j);
    assert Numbered(base, k)[|base| + 1..] == Digits(k);
    DigitsApart(j, k);
  }

  /** The suffixed aliases 2, ..., n - 1 are n - 2 different ones. */
  lemma {:induction false} TriedNames(base: string, n: nat, used: set<string>)
    requires n >= 2 && forall k :: 2 <= k < n ==> Numbered(base, k) in used
    ensures n - 2 <= |used|
  {
    if n == 2 {
    } else {
      var last := Numbered(base, n - 1);
      forall k | 2 <= k < n - 1 ensures Numbered(base, k) in used - {last} {
        if Numbered(base, k) == last {
          NumberedApart(base, k, n - 1);
        }
      }
      TriedNames(base, n - 1, used - {last});
    }
  }

  /** What an import whose alias is taken falls back to first. */
  function FirstFallback(words: set<string>, item: Import): string
    requires Reserved(words)
  {
    if item.oldName == item.actual && item.oldName in words then Preferred(words, item.oldName) else item.oldName
  }

  /** The fallback is the old alias, but a reserved package name is given its underscore. */
  lemma FallbackExactly(words: set<string>, item: Import)
    requires Reserved(words)
    ensures FirstFallback(words, item)
         == if item.oldName == item.actual && item.actual in words then "_" + item.actual else item.oldName
  {
    PreferredExactly(words, item.oldName);
  }

  /** The replacement aliases are tried in this order, and the first free one is taken. */
  predicate FirstFree(words: set<string>, item: Import, used: set<string>, name: string)
    requires Reserved(words)
  {
    var first, base := FirstFallback(words, item), Preferred(words, item.actual);
    && name !in used
    && if first != "" && first !in used then name == first
       else if base !in used then name == base
       else exists k | 2 <= k <= |used| + 2 :: name == Numbered(base, k)
                                               && forall j :: 2 <= j < k ==> Numbered(base, j) in used
  }

  /** The fallbacks and the numbered aliases below `suffix` are all taken. */
  ghost predicate Tried(words: set<string>, item: Import, used: set<string>, suffix: nat)
    requires Reserved(words)
  {
    var first, base := FirstFallback(words, item), Preferred(words, item.actual);
    && (first == "" || first in used) && base in used
    && forall k :: 2 <= k < suffix ==> Numbered(base, k) in used
  }

  lemma TriedEnds(words: set<string>, item: Import, used: set<string>, suffix: nat)
    requires Reserved(words) && suffix >= 2 && Tried(words, item, used, suffix)
    ensures suffix <= |used| + 2
    ensures var name := Numbered(Preferred(words, item.actual), suffix);
            if name in used then Tried(words, item, used, suffix + 1) else FirstFree(words, item, used, name)
  {
    hide Preferred, FirstFallback, Numbered;
    TriedNames(Preferred(words, item.actual), suffix, used);
  }

  /** The search for a replacement ends, whatever names are taken. */
  method Replacement(words: set<string>, item: Import, used: set<string>) returns (fallback: string)
    requires Reserved(words)
    ensures FirstFree(words, item, used, fallback)
  {
    hide Preferred, Numbered;
    fallback := item.oldName;
    if fallback == item.actual && fallback in words {
      fallback := Preferred(words, fallback);
    }
    if fallback == "" || fallback in used {
      fallback := Preferred(words, item.actual);
    }
    var base, suffix := Preferred(words, item.actual), 2;
    assert if fallback in used then Tried(words, item, used, 2) else FirstFree(words, item, used, fallback);
    hide FirstFallback, Tried, FirstFree;
    while fallback in used
      invariant suffix >= 2
      invariant if fallback in used then Tried(words, item, used, suffix) else FirstFree(words, item, used, fallback)
      decreases |used| + 3 - suffix
    {
      TriedEnds(words, item, used, suffix);
      fallback := Numbered(base, suffix);
      suffix := suffix + 1;
    }
  }

  function NamesOf(imports: seq<Import>): (names: set<string>)
    ensures forall i :: 0 <= i < |imports| ==> imports[i].newName in names
    ensures forall n :: n in names ==> exists i :: 0 <= i < |imports| && imports[i].newName == n
  {
    set i | 0 <= i < |imports| :: imports[i].newName
  }

  /** What becomes of one import when the earlier ones have taken `used`. */
  ghost predicate Settled(words: set<string>, before: Import, after: Import, used: set<string>)
    requires Reserved(words)
  {
    && after.actual == before.actual && after.oldName == before.oldName
    && if before.newName !in used then after.newName == before.newName
       else FirstFree(words, before, used, after.newName)
  }

  ghost predicate AllSettled(words: set<string>, before: seq<Import>, after: seq<Import>)
    requires Reserved(words) && |after| <= |before|
  {
    forall k :: 0 <= k < |after| ==> Settled(words, before[k], after[k], NamesOf(after[..k]))
  }

  lemma SettleNext(words: set<string>, before: seq<Import>, done: seq<Import>, next: Import)
    requires Reserved(words) && |done| < |before| && AllSettled(words, before, done)
    requires Settled(words, before[|done|], next, NamesOf(done))
    ensures AllSettled(words, before, done + [next])
    ensures NamesOf(done + [next]) == NamesOf(done) + {next.newName}
  {
    var after := done + [next];
    forall k | 0 <= k < |after| ensures Settled(words, before[k], after[k], NamesOf(after[..k])) {
      assert after[..k] == done[..k];
      assert k == |done| ==> done[..k] == done;
    }
    assert after[|done|] == next;
    forall n | n in NamesOf(done) + {next.newName} ensures n in NamesOf(after) {
      if n in NamesOf(done) {
        var i :| 0 <= i < |done| && done[i].newName == n;
        assert after[i].newName == n;
      }
    }
  }

  /** Settled imports carry an alias of their own each. */
  lemma SettledApart(words: set<string>, before: seq<Import>, after: seq<Import>)
    requires Reserved(words) && |after| <= |before| && AllSettled(words, before, after)
    ensures forall i, j :: 0 <= i < j < |after| ==> after[i].newName != after[j].newName
  {
    forall i, j | 0 <= i < j < |after| ensures after[i].newName != after[j].newName {
      assert Settled(words, before[j], after[j], NamesOf(after[..j]));
      assert after[..j][i].newName in NamesOf(after[..j]);
    }
  }

  /** One turn of the loop. */
  method SettleOne(words: set<string>, imports: array<Import>, i: nat, used: set<string>) returns (name: string)
    requires Reserved(words) && i < imports.Length
    modifies imports
    ensures imports[..] == old(imports[..])[i := old(imports[i]).(newName := name)]
    ensures Settled(words, old(imports[i]), imports[i], used)
  {
    hide FirstFree;
    name := imports[i].newName;
    if name in used {
      name := Replacement(words, imports[i], used);
      imports[i] := imports[i].(newName := name);
    }
  }

  /**
   Afterwards all aliases differ. An alias changes only when an earlier import ended up with it, and then
   becomes the first free one; nothing else about an import changes.
   */
  method EnsureUniqueNames(words: set<string>, imports: array<Import>)
    requires Reserved(words)
    modifies imports
    ensures forall i, j :: 0 <= i < j < imports.Length ==> imports[i].newName != imports[j].newName
    ensures AllSettled(words, old(imports[..]), imports[..])
  {
    ghost var before := imports[..];
    assert AllSettled(words, before, imports[..0]) && NamesOf(imports[..0]) == {};
    hide AllSettled, Settled, NamesOf;
    var used, i := {}, 0;
    while i < imports.Length
      invariant 0 <= i <= imports.Length && used == NamesOf(imports[..i])
      invariant imports[i..] == before[i..]
      invariant AllSettled(words, before, imports[..i])
    {
      ghost var done, todo := imports[..i], imports[i..];
      assert imports[i] == todo[0] == before[i];
      var name := SettleOne(words, imports, i, used);
      used := used + {name};
      assert imports[i + 1..] == todo[1..];
      SettleNext(words, before, done, imports[i]);
      assert imports[..i + 1] == done + [imports[i]];
      i := i + 1;
    }
    assert imports[..] == imports[..i];
    SettledApart(words, before, imports[..]);
  }
}
