/**
 Masked columns and their side table (redact/storage_runtime.go, redact/storage.go): the main row keeps the
 masked text of a field, the side table its encrypted original.
 */
module RedactStorage {
  import opened Wrappers
  import opened Decimal
  import opened Redaction

  datatype Mode = ApplyRule | Hide | Full

  /** The rule gives the text to store, or None where it does not give a text. */
  datatype Policy = Policy(id: int, tenantID: int, tableName: string, columnName: string,
                           mode: Mode, rule: Option<string -> Option<string>>)

  datatype Row = Row(tenantID: int, policyID: int, recordID: int, ciphertext: string, digest: string)

  datatype Error = InvalidPolicy | RuleNotReady | NoProtector | NotText | NoStore | StoreFailed | BadRecord | BadTenant | Undecodable

  /** Encryption with a nonce and associated data, and the digest used for lookups; see Lawful. */
  datatype Protector = Protector(encrypt: (string, string, string) -> string,
                                 decrypt: (string, string) -> Option<string>,
                                 digest: (string, string) -> string)

  ghost predicate Lawful(p: Protector) {
    && (forall n, v, a :: p.decrypt(p.encrypt(n, v, a), a) == Some(v))
    && (forall n, v, a, b :: a != b ==> p.decrypt(p.encrypt(n, v, a), b) == None)
    && (forall v, w, a :: p.digest(v, a) == p.digest(w, a) ==> v == w)
  }

  // Associated data.

  const TENANT := "tenant" + [0 as char]
  const POLICY := "storage-policy" + [0 as char]
  const STORAGE := [0 as char] + "storage-policy" + [0 as char]
  const STORAGE_DIGEST := [0 as char] + "storage-policy-digest" + [0 as char]

  function AssociatedData(tenantID: int, policyID: int): string {
    TENANT + FormatInt(tenantID) + STORAGE + FormatInt(policyID)
  }

  function DigestData(tenantID: int, policyID: int): string {
    TENANT + FormatInt(tenantID) + STORAGE_DIGEST + FormatInt(policyID)
  }

  lemma SeparatorPlace(a: string, b: string, c: string, d: string)
    requires (0 as char) !in c && |a| < |c|
    ensures a + [0 as char] + b != c + [0 as char] + d
  {
    var left, right := a + [0 as char] + b, c + [0 as char] + d;
    assert left[|a|] == 0 as char && right[|a|] == c[|a|];
  }

  /** Two parts without the separator are read back from the whole. */
  lemma SplitAtSeparator(a: string, b: string, c: string, d: string)
    requires (0 as char) !in a && (0 as char) !in c
    requires a + [0 as char] + b == c + [0 as char] + d
    ensures a == c && b == d
  {
    var left, right := a + [0 as char] + b, c + [0 as char] + d;
    if |a| < |c| {
      SeparatorPlace(a, b, c, d);
    } else if |c| < |a| {
      SeparatorPlace(c, d, a, b);
    } else {
      assert left[..|a|] == a && right[..|c|] == c;
      assert left[|a| + 1..] == b && right[|c| + 1..] == d;
    }
  }

  lemma AfterTenant(t: int, p: int)
    ensures AssociatedData(t, p)[|TENANT|..] == FormatInt(t) + [0 as char] + (POLICY + FormatInt(p))
  {
    assert STORAGE == [0 as char] + POLICY;
    assert AssociatedData(t, p) == TENANT + (FormatInt(t) + STORAGE + FormatInt(p));
    assert FormatInt(t) + STORAGE + FormatInt(p) == FormatInt(t) + [0 as char] + (POLICY + FormatInt(p));
  }

  /** Different tenants or policies never share associated data. */
  lemma AssociatedDataApart(t: int, p: int, u: int, q: int)
    requires AssociatedData(t, p) == AssociatedData(u, q)
    ensures t == u && p == q
  {
    hide FormatInt, AssociatedData;
    NoSeparator(t);
    NoSeparator(u);
    AfterTenant(t, p);
    AfterTenant(u, q);
    SplitAtSeparator(FormatInt(t), POLICY + FormatInt(p), FormatInt(u), POLICY + FormatInt(q));
    assert (POLICY + FormatInt(p))[|POLICY|..] == FormatInt(p) && (POLICY + FormatInt(q))[|POLICY|..] == FormatInt(q);
    FormatApart(t, u);
    FormatApart(p, q);
  }

  /** The digest's data is different for different tenants and policies too, and never serves as associated data. */
  lemma DigestDataApart(t: int, p: int, u: int, q: int)
    ensures DigestData(t, p) == DigestData(u, q) ==> t == u && p == q
    ensures DigestData(t, p) != AssociatedData(u, q)
  {
    hide FormatInt;
    NoSeparator(t);
    NoSeparator(u);
    AfterTenant(u, q);
    AfterTenantDigest(t, p);
    AfterTenantDigest(u, q);
    hide AssociatedData, DigestData;
    var digest := "storage-policy-digest" + [0 as char];
    if DigestData(t, p) == DigestData(u, q) {
      SplitAtSeparator(FormatInt(t), digest + FormatInt(p), FormatInt(u), digest + FormatInt(q));
      assert (digest + FormatInt(p))[|digest|..] == FormatInt(p) && (digest + FormatInt(q))[|digest|..] == FormatInt(q);
      FormatApart(t, u);
      FormatApart(p, q);
    }
    assert (digest + FormatInt(p))[14] == '-' && (POLICY + FormatInt(q))[14] == 0 as char;
    if DigestData(t, p) == AssociatedData(u, q) {
      SplitAtSeparator(FormatInt(t), digest + FormatInt(p), FormatInt(u), POLICY + FormatInt(q));
    }
  }

  lemma AfterTenantDigest(t: int, p: int)
    ensures DigestData(t, p)[|TENANT|..]
         == FormatInt(t) + [0 as char] + ("storage-policy-digest" + [0 as char] + FormatInt(p))
  {
    var digest := "storage-policy-digest" + [0 as char];
    assert STORAGE_DIGEST == [0 as char] + digest;
    assert DigestData(t, p) == TENANT + (FormatInt(t) + STORAGE_DIGEST + FormatInt(p));
    assert FormatInt(t) + STORAGE_DIGEST + FormatInt(p) == FormatInt(t) + [0 as char] + (digest + FormatInt(p));
  }

  // The operations.

  datatype Prepared = Prepared(stored: string, row: Option<Row>)

  type Key = (int, int, int)
  type Table = map<Key, Row>

  /** What the rule makes of a value. */
  function Apply(policy: Policy, value: string): Option<string> {
    if policy.mode == ApplyRule && policy.rule.Some? then policy.rule.value(value) else Some(value)
  }

  /** The row to store for a value the rule changes. */
  function Protected(p: Protector, policy: Policy, nonce: string, value: string): Row {
    Row(policy.tenantID, policy.id, 0,
        p.encrypt(nonce, value, AssociatedData(policy.tenantID, policy.id)),
        p.digest(value, DigestData(policy.tenantID, policy.id)))
  }

  function PrepareString(p: Option<Protector>, policy: Policy, nonce: string, value: string): Result<Prepared, Error> {
    if value == "" then Ok(Prepared(value, None))
    else if policy.id <= 0 || policy.tenantID < 0 || policy.tableName == "" || policy.columnName == "" then
      Err(InvalidPolicy)
    else if policy.mode != ApplyRule || policy.rule.None? then Err(RuleNotReady)
    else if p.None? then Err(NoProtector)
    else
      var masked := Apply(policy, value);
      if masked.None? then Err(NotText)
      else if masked.value == value then Ok(Prepared(value, None))
      else Ok(Prepared(masked.value, Some(Protected(p.value, policy, nonce, value))))
  }

  /** A policy that can be used for storage at all. */
  predicate Described(policy: Policy) {
    policy.id >= 1 && policy.tenantID >= 0 && policy.tableName != "" && policy.columnName != ""
  }

  /**
   A value is prepared for storage exactly if it is empty, or the policy is described, has a rule to apply and a
   protector, and the rule gives a text. What is stored is the rule's text, never the value itself unless that is
   what the rule gives, and the original goes into a row, sealed with the nonce of this very submission.
   */
  lemma PreparedExactly(p: Option<Protector>, policy: Policy, nonce: string, value: string)
    ensures var prepared := PrepareString(p, policy, nonce, value);
            var ruled := policy.mode == ApplyRule && policy.rule.Some?;
            && (prepared.Ok? <==> value == "" || (Described(policy) && ruled && p.Some? && policy.rule.value(value).Some?))
            && (prepared == Err(InvalidPolicy) <==> value != "" && !Described(policy))
            && (prepared == Err(RuleNotReady) <==> value != "" && Described(policy) && !ruled)
            && (prepared == Err(NoProtector) <==> value != "" && Described(policy) && ruled && p.None?)
            && (prepared.Ok? && value == "" ==> prepared.value == Prepared("", None))
            && (prepared.Ok? && value != "" ==>
                  && policy.rule.value(value) == Some(prepared.value.stored)
                  && (prepared.value.row.Some? <==> prepared.value.stored != value)
                  && (prepared.value.row.Some? ==>
                        && prepared.value.row.value.ciphertext
                             == p.value.encrypt(nonce, value, AssociatedData(policy.tenantID, policy.id))
                        && (prepared.value.row.value.tenantID, prepared.value.row.value.policyID) == (policy.tenantID, policy.id)))
  {
    hide AssociatedData, DigestData;
  }

  /** The table after saving a prepared row, or nothing, for a record. */
  function Saved(table: Table, row: Option<Row>, recordID: int): Table {
    if row.None? then table
    else table[(row.value.tenantID, row.value.policyID, recordID) := row.value.(recordID := recordID)]
  }

  /** The original and true, or the stored text and false where there is nothing to restore. */
  function RestoreString(p: Option<Protector>, table: Table, policy: Policy, recordID: int, stored: string)
    : Result<(string, bool), Error>
  {
    var key := (policy.tenantID, policy.id, recordID);
    if p.None? || policy.tenantID < 0 || recordID <= 0 || key !in table then Ok((stored, false))
    else
      var plaintext := p.value.decrypt(table[key].ciphertext, AssociatedData(policy.tenantID, policy.id));
      if plaintext.None? then Err(Undecodable) else Ok((plaintext.value, true))
  }

  /** Nothing is restored exactly without a protector, for a record or tenant that cannot be, or without a row. */
  lemma RestoredExactly(p: Option<Protector>, table: Table, policy: Policy, recordID: int, stored: string)
    ensures RestoreString(p, table, policy, recordID, stored) == Ok((stored, false)) <==>
            p.None? || policy.tenantID < 0 || recordID < 1 || (policy.tenantID, policy.id, recordID) !in table
  {
    hide AssociatedData;
  }

  /** The records whose rows carry the digest of a plaintext. */
  function FindRecordIDs(p: Protector, table: Table, policy: Policy, plain: string): set<int> {
    set k | k in table && k.0 == policy.tenantID && k.1 == policy.id
            && table[k].digest == p.digest(plain, DigestData(policy.tenantID, policy.id)) :: k.2
  }

  /** The side table as the store keeps it, one row for a tenant, a policy and a record. */
  class Storage {
    const protector: Option<Protector>
    const connected: bool
    var table: Table

    constructor (protector: Option<Protector>, connected: bool)
      ensures this.protector == protector && this.connected == connected && table == map[]
    {
      this.protector, this.connected, table := protector, connected, map[];
    }

    /** `saveFails` is the store's answer; nothing to save is no error, even without a store. */
    method SavePrepared(row: Option<Row>, recordID: int, saveFails: bool) returns (result: Result<(), Error>)
      modifies this
      ensures result.Ok? <==> row.None? || (connected && recordID > 0 && !saveFails)
      ensures table == if result.Ok? then Saved(old(table), row, recordID) else old(table)
    {
      if row.None? {
        return Ok(());
      }
      if !connected {
        return Err(NoStore);
      }
      if recordID <= 0 {
        return Err(BadRecord);
      }
      if saveFails {
        return Err(StoreFailed);
      }
      var value := row.value.(recordID := recordID);
      table := table[(value.tenantID, value.policyID, value.recordID) := value];
      result := Ok(());
    }

    /** `findFails` and `deleteFails` are the store's answers; a row that is not there is no error. */
    method DeletePrepared(tenantID: int, policyID: int, recordID: int, findFails: bool, deleteFails: bool)
      returns (result: Result<(), Error>)
      modifies this
      ensures result.Ok? <==>
              && connected && tenantID >= 0 && !findFails
              && ((tenantID, policyID, recordID) in old(table) ==> !deleteFails)
      ensures table == if result.Ok? then old(table) - {(tenantID, policyID, recordID)} else old(table)
    {
      if !connected {
        return Err(NoStore);
      }
      if tenantID < 0 {
        return Err(BadTenant);
      }
      if findFails {
        return Err(StoreFailed);
      }
      if (tenantID, policyID, recordID) !in table {
        return Ok(());
      }
      if deleteFails {
        return Err(StoreFailed);
      }
      table := table - {(tenantID, policyID, recordID)};
      result := Ok(());
    }
  }

  // Runs: one field of one record, submitted again and again.

  datatype State = State(column: string, table: Table)

  /** A policy the operations accept, with a rule that gives a text for every text. */
  ghost predicate Usable(policy: Policy) {
    && policy.id > 0 && policy.tenantID >= 0 && policy.tableName != "" && policy.columnName != ""
    && policy.mode == ApplyRule && policy.rule.Some? && forall v :: policy.rule.value(v).Some?
  }

  function Submit(p: Protector, policy: Policy, recordID: int, s: State, nonce: string, value: string): State {
    var prepared := PrepareString(Some(p), policy, nonce, value);
    if prepared.Err? then s else State(prepared.value.stored, Saved(s.table, prepared.value.row, recordID))
  }

  /** The submissions of a run, each with its nonce. */
  function Run(p: Protector, policy: Policy, recordID: int, s: State, values: seq<(string, string)>): State {
    if values == [] then s
    else
      var last := |values| - 1;
      Submit(p, policy, recordID, Run(p, policy, recordID, s, values[..last]), values[last].0, values[last].1)
  }

  /** The rule changes this value. */
  predicate Changes(policy: Policy, value: string) {
    value != "" && Apply(policy, value) != Some(value)
  }

  /** The last submitted value that the rule changes. */
  function LastChanged(policy: Policy, values: seq<(string, string)>): Option<string> {
    if values == [] then None
    else
      var last := values[|values| - 1].1;
      if Changes(policy, last) then Some(last) else LastChanged(policy, values[..|values| - 1])
  }

  function Restored(p: Protector, policy: Policy, recordID: int, s: State): Result<(string, bool), Error> {
    RestoreString(Some(p), s.table, policy, recordID, s.column)
  }

  lemma SubmitEffect(p: Protector, policy: Policy, recordID: int, s: State, nonce: string, value: string)
    requires Lawful(p) && Usable(policy) && recordID > 0
    ensures var t := Submit(p, policy, recordID, s, nonce, value);
            if Changes(policy, value) then Restored(p, policy, recordID, t) == Ok((value, true))
            else t == State(value, s.table)
  {
    assert policy.rule.value(value).Some?;
    assert p.decrypt(p.encrypt(nonce, value, AssociatedData(policy.tenantID, policy.id)),
                     AssociatedData(policy.tenantID, policy.id)) == Some(value);
  }

  /** Rows of other fields and records are never touched. */
  lemma {:induction false} RunKeepsOthers(p: Protector, policy: Policy, recordID: int, s: State,
                                          values: seq<(string, string)>, key: Key)
    requires key != (policy.tenantID, policy.id, recordID)
    ensures var t := Run(p, policy, recordID, s, values);
            (key in t.table <==> key in s.table) && (key in s.table ==> t.table[key] == s.table[key])
  {
    if values == [] {
    } else {
      RunKeepsOthers(p, policy, recordID, s, values[..|values| - 1], key);
    }
  }

  /**
   Restoring after any run gives the last submitted value that the rule changes, if there was one; before
   that, what was there before the run.
   */
  lemma {:induction false} RunRestores(p: Protector, policy: Policy, recordID: int, s: State,
                                       values: seq<(string, string)>)
    requires Lawful(p) && Usable(policy) && recordID > 0
    ensures var t := Run(p, policy, recordID, s, values);
            match LastChanged(policy, values)
            case Some(original) => Restored(p, policy, recordID, t) == Ok((original, true))
            case None => t.table == s.table && t.column == if values == [] then s.column else values[|values| - 1].1
  {
    hide Lawful, Usable, Submit, Changes, RestoreString;
    if values == [] {
    } else {
      var last := |values| - 1;
      var before := Run(p, policy, recordID, s, values[..last]);
      RunRestores(p, policy, recordID, s, values[..last]);
      SubmitEffect(p, policy, recordID, before, values[last].0, values[last].1);
      if !Changes(policy, values[last].1) && LastChanged(policy, values).Some? {
        SameTable(p, policy, recordID, before, values[last].1);
      }
    }
  }

  lemma SameTable(p: Protector, policy: Policy, recordID: int, s: State, column: string)
    requires exists original :: Restored(p, policy, recordID, s) == Ok((original, true))
    ensures Restored(p, policy, recordID, State(column, s.table)) == Restored(p, policy, recordID, s)
  {
  }

  /** The main row shows what the rule gives for the last submission, and is empty for an empty one. */
  lemma ColumnShowsRule(p: Protector, policy: Policy, recordID: int, s: State, values: seq<(string, string)>)
    requires Usable(policy) && values != []
    ensures var last := values[|values| - 1].1;
            Run(p, policy, recordID, s, values).column == if last == "" then "" else policy.rule.value(last).value
  {
    var last := |values| - 1;
    assert policy.rule.value(values[last].1).Some?;
    PreparedExactly(Some(p), policy, values[last].0, values[last].1);
    hide PrepareString;
  }

  /**
   Restoring is not simply giving back what was submitted last. For a record that was new, it does exactly
   when the rule changes that value, or changed none so far, or the original it kept is that same value.
   */
  lemma RestoresLastExactly(p: Protector, policy: Policy, recordID: int, s: State, values: seq<(string, string)>)
    requires Lawful(p) && Usable(policy) && recordID > 0 && values != []
    requires (policy.tenantID, policy.id, recordID) !in s.table
    ensures var submitted := values[|values| - 1].1;
            var restored := Restored(p, policy, recordID, Run(p, policy, recordID, s, values));
            restored.Ok?
            && (restored.value.0 == submitted <==>
                  Changes(policy, submitted)
                  || LastChanged(policy, values[..|values| - 1]) in {None, Some(submitted)})
  {
    hide Lawful, Usable, Run, Submit, Changes, Restored;
    var t := Run(p, policy, recordID, s, values);
    RunRestores(p, policy, recordID, s, values);
    if t.table == s.table {
      NothingToRestore(p, policy, recordID, t);
    }
  }

  lemma NothingToRestore(p: Protector, policy: Policy, recordID: int, s: State)
    requires (policy.tenantID, policy.id, recordID) !in s.table
    ensures Restored(p, policy, recordID, s) == Ok((s.column, false))
  {
  }

  // Masking rules.

  /** The rule of a masking policy. */
  function MaskRule(keepFirst: int, keepLast: int, minMask: int, maskChar: string): string -> Option<string> {
    (value: string) => Some(Masked(value, keepFirst, keepLast, minMask, maskChar))
  }

  /** Submitting a displayed mask again never replaces the original, whatever was submitted before. */
  lemma DisplayedMaskKeeps(p: Protector, policy: Policy, recordID: int, s: State, nonce: string, shown: string,
                           keepFirst: int, keepLast: int, minMask: int, maskChar: string)
    requires Lawful(p) && Usable(policy) && recordID > 0 && |maskChar| == 1
    requires policy.rule == Some(MaskRule(keepFirst, keepLast, minMask, maskChar))
    ensures var masked := Masked(shown, keepFirst, keepLast, minMask, maskChar);
            !Changes(policy, masked)
            && Submit(p, policy, recordID, s, nonce, masked) == State(masked, s.table)
  {
    MaskIsIdempotent(shown, keepFirst, keepLast, minMask, maskChar);
    SubmitEffect(p, policy, recordID, s, nonce, Masked(shown, keepFirst, keepLast, minMask, maskChar));
  }

  /** A value too short to be masked leaves the old original behind: "abc" and then "xy" restores "abc". */
  lemma ShortValueIsStale(p: Protector, policy: Policy, recordID: int, n: string, m: string)
    requires Lawful(p) && Usable(policy) && recordID > 0
    requires policy.rule == Some(MaskRule(2, 0, 0, "*"))
    ensures var t := Run(p, policy, recordID, State("", map[]), [(n, "abc"), (m, "xy")]);
            t.column == "xy" && Restored(p, policy, recordID, t) == Ok(("abc", true))
  {
    hide Lawful, Run, Submit, Masked, RestoreString;
    var values := [(n, "abc"), (m, "xy")];
    ShortExample();
    assert values[..1] == [(n, "abc")] && values[..1][..0] == [];
    assert Changes(policy, "abc") && !Changes(policy, "xy");
    assert LastChanged(policy, values[..1]) == Some("abc");
    RunRestores(p, policy, recordID, State("", map[]), values);
    LastColumn(p, policy, recordID, State("", map[]), values);
  }

  lemma ShortExample()
    ensures Masked("abc", 2, 0, 0, "*") != "abc" && Masked("xy", 2, 0, 0, "*") == "xy"
  {
    assert Masked("abc", 2, 0, 0, "*")[2] == '*';
  }

  lemma LastColumn(p: Protector, policy: Policy, recordID: int, s: State, values: seq<(string, string)>)
    requires Usable(policy) && values != [] && !Changes(policy, values[|values| - 1].1)
    ensures Run(p, policy, recordID, s, values).column == values[|values| - 1].1
  {
    assert policy.rule.value(values[|values| - 1].1).Some?;
  }

  // Lookups by digest.

  /** A row holds one plaintext, encrypted and digested for its own place. */
  ghost predicate Holds(p: Protector, key: Key, row: Row, plain: string) {
    && row.digest == p.digest(plain, DigestData(key.0, key.1))
    && exists nonce :: row.ciphertext == p.encrypt(nonce, plain, AssociatedData(key.0, key.1))
  }

  ghost predicate HoldsOne(p: Protector, key: Key, row: Row) {
    key.2 > 0 && exists plain :: Holds(p, key, row, plain)
  }

  /** Every row of the table holds something. */
  ghost predicate Coherent(p: Protector, table: Table) {
    forall k :: k in table ==> HoldsOne(p, k, table[k])
  }

  /** A lookup by plaintext finds exactly the records that restore to it. */
  lemma LookupIsExact(p: Protector, table: Table, policy: Policy, plain: string, recordID: int, stored: string)
    requires Lawful(p) && Coherent(p, table) && policy.tenantID >= 0
    ensures recordID in FindRecordIDs(p, table, policy, plain) <==>
            recordID > 0 && RestoreString(Some(p), table, policy, recordID, stored) == Ok((plain, true))
  {
    var key := (policy.tenantID, policy.id, recordID);
    if key in table {
      assert HoldsOne(p, key, table[key]);
      var held :| Holds(p, key, table[key], held);
      var nonce :| table[key].ciphertext == p.encrypt(nonce, held, AssociatedData(key.0, key.1));
      assert p.decrypt(p.encrypt(nonce, held, AssociatedData(key.0, key.1)), AssociatedData(key.0, key.1)) == Some(held);
      assert recordID in FindRecordIDs(p, table, policy, plain) <==>
             table[key].digest == p.digest(plain, DigestData(policy.tenantID, policy.id));
    }
  }

  /** A row moved to another tenant or policy restores nothing: it is refused. */
  lemma MovedRowIsRefused(p: Protector, table: Table, policy: Policy, recordID: int, stored: string, from: Key,
                          plain: string)
    requires Lawful(p) && recordID > 0 && policy.tenantID >= 0
    requires (policy.tenantID, policy.id, recordID) in table
    requires Holds(p, from, table[(policy.tenantID, policy.id, recordID)], plain)
    requires (from.0, from.1) != (policy.tenantID, policy.id)
    ensures RestoreString(Some(p), table, policy, recordID, stored) == Err(Undecodable)
  {
    var row := table[(policy.tenantID, policy.id, recordID)];
    var nonce :| row.ciphertext == p.encrypt(nonce, plain, AssociatedData(from.0, from.1));
    if AssociatedData(from.0, from.1) == AssociatedData(policy.tenantID, policy.id) {
      AssociatedDataApart(from.0, from.1, policy.tenantID, policy.id);
    }
  }

  // Runs over all fields and records.

  /** One field of one record is submitted, or its row is deleted. */
  datatype Edit =
    | Submission(policy: Policy, recordID: int, nonce: string, value: string)
    | Deletion(tenantID: int, policyID: int, recordID: int)

  function KeyOf(e: Edit): Key {
    match e
    case Submission(policy, recordID, _, _) => (policy.tenantID, policy.id, recordID)
    case Deletion(tenantID, policyID, recordID) => (tenantID, policyID, recordID)
  }

  /** The row a submission is to save, if it is accepted and its rule changes the value. */
  function RowOf(p: Protector, e: Edit): Option<Row>
    requires e.Submission?
  {
    var prepared := PrepareString(Some(p), e.policy, e.nonce, e.value);
    if prepared.Ok? && e.recordID > 0 then prepared.value.row else None
  }

  function Edited(p: Protector, table: Table, e: Edit): Table {
    match e
    case Submission(_, recordID, _, _) => Saved(table, RowOf(p, e), recordID)
    case Deletion(tenantID, _, _) => if tenantID < 0 then table else table - {KeyOf(e)}
  }

  function EditedAll(p: Protector, edits: seq<Edit>): Table {
    if edits == [] then map[] else Edited(p, EditedAll(p, edits[..|edits| - 1]), edits[|edits| - 1])
  }

  /** The original a row should hold, read off the edits alone: that of the last one that mattered to it. */
  function Held(p: Protector, edits: seq<Edit>, key: Key): Option<string> {
    if edits == [] then None
    else
      var before, e := Held(p, edits[..|edits| - 1], key), edits[|edits| - 1];
      if KeyOf(e) != key then before
      else match e
        case Submission(_, _, _, value) => if RowOf(p, e).Some? then Some(value) else before
        case Deletion(tenantID, _, _) => if tenantID < 0 then before else None
  }

  /** A submission leaves a row exactly for a record that can be, and if its rule is there and changes the value. */
  lemma RowExactly(p: Protector, e: Edit)
    requires e.Submission?
    ensures RowOf(p, e).Some? <==>
            && e.recordID >= 1 && e.value != "" && Described(e.policy) && e.policy.mode == ApplyRule && e.policy.rule.Some?
            && e.policy.rule.value(e.value).Some? && e.policy.rule.value(e.value) != Some(e.value)
  {
    PreparedExactly(Some(p), e.policy, e.nonce, e.value);
    hide PrepareString;
  }

  lemma RowHolds(p: Protector, e: Edit)
    requires e.Submission? && RowOf(p, e).Some?
    ensures var key, table := KeyOf(e), Saved(map[], RowOf(p, e), e.recordID);
            RowOf(p, e).value.tenantID == key.0 && RowOf(p, e).value.policyID == key.1 && key.2 > 0
            && key in table && Holds(p, key, table[key], e.value)
  {
    assert RowOf(p, e).value.ciphertext == p.encrypt(e.nonce, e.value, AssociatedData(e.policy.tenantID, e.policy.id));
  }

  ghost predicate TableHolds(p: Protector, edits: seq<Edit>, key: Key) {
    var table, held := EditedAll(p, edits), Held(p, edits, key);
    && (key in table <==> held.Some?)
    && (held.Some? ==> key.2 > 0 && Holds(p, key, table[key], held.value))
  }

  lemma {:induction false} EditsHold(p: Protector, edits: seq<Edit>, key: Key)
    ensures TableHolds(p, edits, key)
  {
    if edits == [] {
    } else {
      var front, e := edits[..|edits| - 1], edits[|edits| - 1];
      EditsHold(p, front, key);
      if e.Submission? && RowOf(p, e).Some? {
        RowHolds(p, e);
      }
      hide RowOf, Holds;
    }
  }

  /** After any edits of any fields and records, every row of the table is coherent. */
  lemma EditsCoherent(p: Protector, edits: seq<Edit>)
    ensures Coherent(p, EditedAll(p, edits))
  {
    forall key | key in EditedAll(p, edits) ensures HoldsOne(p, key, EditedAll(p, edits)[key]) {
      EditsHold(p, edits, key);
    }
  }

  /** A row holding a plaintext restores to it. */
  lemma HoldsRestores(p: Protector, table: Table, policy: Policy, recordID: int, stored: string, plain: string)
    requires Lawful(p) && policy.tenantID >= 0 && recordID > 0
    requires (policy.tenantID, policy.id, recordID) in table
    requires Holds(p, (policy.tenantID, policy.id, recordID), table[(policy.tenantID, policy.id, recordID)], plain)
    ensures RestoreString(Some(p), table, policy, recordID, stored) == Ok((plain, true))
  {
    var data := AssociatedData(policy.tenantID, policy.id);
    var nonce :| table[(policy.tenantID, policy.id, recordID)].ciphertext == p.encrypt(nonce, plain, data);
    assert p.decrypt(p.encrypt(nonce, plain, data), data) == Some(plain);
  }

  /**
   After any submissions and deletions over all records and policies: a record restores to the original its
   last effective edit left, and a lookup by plaintext finds exactly the records that hold it.
   */
  lemma EditsRestoreAndLookUp(p: Protector, edits: seq<Edit>, policy: Policy, recordID: int, stored: string,
                              plain: string)
    requires Lawful(p) && policy.tenantID >= 0
    ensures var table, held := EditedAll(p, edits), Held(p, edits, (policy.tenantID, policy.id, recordID));
            && RestoreString(Some(p), table, policy, recordID, stored)
                 == Ok(if held.Some? then (held.value, true) else (stored, false))
            && (recordID in FindRecordIDs(p, table, policy, plain) <==> held == Some(plain))
  {
    var key, table := (policy.tenantID, policy.id, recordID), EditedAll(p, edits);
    EditsHold(p, edits, key);
    EditsCoherent(p, edits);
    hide Holds, EditedAll, FindRecordIDs, Coherent;
    if Held(p, edits, key).Some? {
      HoldsRestores(p, table, policy, recordID, stored, Held(p, edits, key).value);
    }
    LookupIsExact(p, table, policy, plain, recordID, stored);
  }

  // The laws asked of a protector can be met.

  function Length(n: nat): (code: string)
    ensures |code| == n && forall i :: 0 <= i < n ==> code[i] == 'a'
  {
    seq(n, i => 'a')
  }

  /** A value and its associated data in one text, told apart by the length of the value. */
  function Joined(value: string, data: string): string {
    Length(|value|) + "b" + value + data
  }

  lemma LongerApart(v: string, a: string, w: string, b: string)
    requires |v| < |w|
    ensures Joined(v, a) != Joined(w, b)
  {
    assert Joined(v, a)[|v|] == 'b' && Joined(w, b)[|v|] == 'a';
  }

  lemma JoinedApart(v: string, a: string, w: string, b: string)
    requires Joined(v, a) == Joined(w, b)
    ensures v == w && a == b
  {
    var x, y := Joined(v, a), Joined(w, b);
    if |v| < |w| {
      LongerApart(v, a, w, b);
    } else if |w| < |v| {
      LongerApart(w, b, v, a);
    } else {
      assert x[|v| + 1..|v| + 1 + |v|] == v && y[|w| + 1..|w| + 1 + |w|] == w;
      assert x[|v| + 1 + |v|..] == a && y[|w| + 1 + |w|..] == b;
    }
  }

  lemma LawfulExists() returns (p: Protector)
    ensures Lawful(p)
  {
    p := Protector((n: string, v: string, a: string) => Joined(v, a),
                   (x: string, a: string) =>
                     if exists v :: Joined(v, a) == x then (var v :| Joined(v, a) == x; Some(v)) else None,
                   (v: string, a: string) => v);
    forall n, v, a ensures p.decrypt(p.encrypt(n, v, a), a) == Some(v) {
      assert Joined(v, a) == p.encrypt(n, v, a);
      forall w | Joined(w, a) == Joined(v, a) ensures w == v {
        JoinedApart(w, a, v, a);
      }
    }
    forall n, v, a, b | a != b ensures p.decrypt(p.encrypt(n, v, a), b) == None {
      forall w ensures Joined(w, b) != Joined(v, a) {
        if Joined(w, b) == Joined(v, a) {
          JoinedApart(w, b, v, a);
        }
      }
    }
  }
}
